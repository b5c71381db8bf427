/** The table `character_items` with its unique (character, slot) pairs, the statements that
    `InventoryChange::apply` runs on it, and the way an inventory is read back
    (silkroad-agent/src/comp/inventory.rs). */
module ItemTables {
  import opened Wrappers
  import opened Words
  import opened InventoryChanges

  /** Columns are signed: `slot` and `amount` are 16 bit, the id 32 bit, `variance` 64 bit. */
  datatype Row = Row(character: u32, itemObjId: int, upgradeLevel: int, slot: int, variance: Option<int>, amount: int)

  type Rows = seq<Row>

  datatype DbError = UniqueViolation

  datatype Statement =
    | Upsert(row: Row)
    | SetData(character: u32, slot: int, upgradeLevel: int, amount: int)
    | SetSlot(character: u32, from: int, target: int)
    | Delete(character: u32, slot: int)

  predicate Key(row: Row, character: u32, slot: int) {
    row.character == character && row.slot == slot
  }

  ghost predicate Unique(rows: Rows) {
    forall i, j :: 0 <= i < j < |rows| ==> !Key(rows[i], rows[j].character, rows[j].slot)
  }

  predicate UniqueCheck(rows: Rows)
    ensures UniqueCheck(rows) <==> Unique(rows)
  {
    forall i, j :: 0 <= i < j < |rows| ==> !Key(rows[i], rows[j].character, rows[j].slot)
  }

  predicate Holds(rows: Rows, character: u32, slot: int) {
    exists row <- rows :: Key(row, character, slot)
  }

  function Removed(rows: Rows, character: u32, slot: int): (r: Rows)
    ensures forall row :: row in r <==> row in rows && !Key(row, character, slot)
    ensures Unique(rows) ==> Unique(r)
  {
    if rows == [] then []
    else
      var rest := Removed(rows[1..], character, slot);
      assert forall row :: row in rows <==> row == rows[0] || row in rows[1..];
      assert Unique(rows) ==> Unique(rows[1..]);
      if Key(rows[0], character, slot) then rest
      else
        assert Unique(rows) ==> forall row <- rest :: !Key(rows[0], row.character, row.slot);
        [rows[0]] + rest
  }

  /** One statement; a slot update that would give two rows one key fails and changes nothing. */
  function Execute(rows: Rows, stmt: Statement): Result<Rows, DbError> {
    match stmt
    case Upsert(row) =>
      if Holds(rows, row.character, row.slot)
      then Ok(seq(|rows|, i requires 0 <= i < |rows| => if Key(rows[i], row.character, row.slot) then row else rows[i]))
      else Ok(rows + [row])
    case SetData(character, slot, upgradeLevel, amount) =>
      Ok(seq(|rows|, i requires 0 <= i < |rows| =>
        if Key(rows[i], character, slot) then rows[i].(upgradeLevel := upgradeLevel, amount := amount) else rows[i]))
    case SetSlot(character, from, target) =>
      var moved := seq(|rows|, i requires 0 <= i < |rows| =>
        if Key(rows[i], character, from) then rows[i].(slot := target) else rows[i]);
      if UniqueCheck(moved) then Ok(moved) else Err(UniqueViolation)
    case Delete(character, slot) => Ok(Removed(rows, character, slot))
  }

  function ExecuteAll(rows: Rows, stmts: seq<Statement>): Result<Rows, DbError>
    decreases stmts
  {
    if stmts == [] then Ok(rows)
    else
      var first := Execute(rows, stmts[0]);
      if first.Err? then first else ExecuteAll(first.value, stmts[1..])
  }

  /** The rows after the statements, or after those before the first that fails. */
  function Reached(rows: Rows, stmts: seq<Statement>): Rows
    decreases stmts
  {
    if stmts == [] || Execute(rows, stmts[0]).Err? then rows
    else Reached(Execute(rows, stmts[0]).value, stmts[1..])
  }

  // ---------------------------------------------------------------- Columns

  /** `as i16`, `as i32` and `as i64` on an unsigned value below twice `half`. */
  function Signed(x: int, half: int): int {
    if x < half then x else x - 2 * half
  }

  /** The cast back to the unsigned type. */
  function Unsigned(x: int, half: int): int {
    if x < 0 then x + 2 * half else x
  }

  function UpgradeColumn(data: ItemTypeData): int {
    if data.Equipment? then data.upgradeLevel else 0
  }

  /** `amount() as i16`: gold is cut, a consumable amount is only reinterpreted. */
  function AmountColumn(data: ItemTypeData): int {
    match data
    case Consumable(amount) => Signed(amount, 0x8000)
    case Gold(amount) => Signed(amount % 0x1_0000, 0x8000)
    case _ => 1
  }

  function VarianceColumn(variance: Option<u64>): Option<int> {
    if variance.None? then None else Some(Signed(variance.value, 0x8000_0000_0000_0000))
  }

  function RowOf(character: u32, slot: u8, item: Item): Row {
    Row(character, Signed(item.refId, 0x8000_0000), UpgradeColumn(item.typeData), slot,
        VarianceColumn(item.variance), AmountColumn(item.typeData))
  }

  const SWAP_SLOT := -1

  /** The statements of one change, in order. */
  function Statements(character: u32, change: InventoryChange): seq<Statement> {
    match change
    case AddItem(slot, item) => [Upsert(RowOf(character, slot, item))]
    case ChangeTypeData(slot, _, newItem) => [SetData(character, slot, UpgradeColumn(newItem), AmountColumn(newItem))]
    case MoveItem(source, target) => [SetSlot(character, source, target)]
    case RemoveItem(slot) => [Delete(character, slot)]
    case Swap(first, second) =>
      [SetSlot(character, first, SWAP_SLOT), SetSlot(character, second, first), SetSlot(character, SWAP_SLOT, second)]
  }

  /** The rows of a character are exactly its inventory. */
  ghost predicate Matches(rows: Rows, character: u32, items: Slots) {
    && Unique(rows)
    && (forall row <- rows :: row.character == character ==>
          0 <= row.slot < 0x100 && row.slot in items && row == RowOf(character, row.slot, items[row.slot]))
    && (forall slot <- items :: RowOf(character, slot, items[slot]) in rows)
  }

  ghost predicate OthersKept(rows: Rows, rows': Rows, character: u32) {
    forall row: Row :: row.character != character ==> (row in rows <==> row in rows')
  }

  // ---------------------------------------------------------------- The class

  class ItemTable {
    var rows: Rows

    method Run(stmt: Statement) returns (r: Result<(), DbError>)
      modifies this
      ensures Execute(old(rows), stmt) == if r.Ok? then Ok(rows) else Err(r.error)
      ensures r.Err? ==> rows == old(rows)
    {
      var done := Execute(rows, stmt);
      if done.Err? {
        return Err(done.error);
      }
      rows := done.value;
      return Ok(());
    }

    /** `apply`: runs the statements of the change until one fails. */
    method ApplyChange(character: u32, change: InventoryChange) returns (r: Result<(), DbError>)
      modifies this
      ensures rows == Reached(old(rows), Statements(character, change))
      ensures r.Ok? <==> ExecuteAll(old(rows), Statements(character, change)).Ok?
    {
      var stmts := Statements(character, change);
      for i := 0 to |stmts|
        invariant ExecuteAll(old(rows), stmts) == ExecuteAll(rows, stmts[i..])
        invariant Reached(old(rows), stmts) == Reached(rows, stmts[i..])
      {
        assert stmts[i..][1..] == stmts[i + 1..];
        var done := Run(stmts[i]);
        if done.Err? {
          return done;
        }
      }
      return Ok(());
    }
  }

  // ---------------------------------------------------------------- Refinement

  /** What the statements of a change do to the slots, whatever is in them: an insert overwrites, an update
      of an empty slot does nothing, and a move to a taken slot is refused. */
  function TableEffect(items: Slots, c: InventoryChange): Slots {
    match c
    case AddItem(slot, item) => items[slot := item]
    case ChangeTypeData(slot, _, newItem) =>
      if slot in items then items[slot := items[slot].(typeData := newItem)] else items
    case MoveItem(source, target) =>
      if source in items && (target !in items || target == source)
      then (items - {source})[target := items[source]]
      else items
    case RemoveItem(slot) => items - {slot}
    case Swap(first, second) => Put(Put(items - {first, second}, items, second, first), items, first, second)
  }

  /** `items` with what `from` holds in one slot put into another, if it holds anything there. */
  function Put(items: Slots, from: Slots, slot: u8, target: u8): Slots {
    if slot in from then items[target := from[slot]] else items
  }

  lemma FittingEffect(items: Slots, c: InventoryChange)
    requires c.Fits(items)
    ensures TableEffect(items, c) == c.Effect(items)
  {
  }

  lemma MatchAfterUpsert(rows: Rows, character: u32, items: Slots, slot: u8, item: Item)
    requires Matches(rows, character, items)
    ensures var done := Execute(rows, Upsert(RowOf(character, slot, item)));
      done.Ok? && Matches(done.value, character, items[slot := item]) && OthersKept(rows, done.value, character)
  {
    var row := RowOf(character, slot, item);
    if Holds(rows, character, slot) {
      MatchAfterReplace(rows, character, items, slot, item);
    } else {
      var after := rows + [row];
      assert forall r: Row :: r in after <==> r in rows || r == row;
    }
  }

  /** The row of the slot is replaced where it stands. */
  lemma MatchAfterReplace(rows: Rows, character: u32, items: Slots, slot: u8, item: Item)
    requires Matches(rows, character, items) && Holds(rows, character, slot)
    ensures var done := Execute(rows, Upsert(RowOf(character, slot, item)));
      done.Ok? && Matches(done.value, character, items[slot := item]) && OthersKept(rows, done.value, character)
  {
    var row := RowOf(character, slot, item);
    var items' := items[slot := item];
    var after := Execute(rows, Upsert(row)).value;
    forall r | r in after && r.character == character
      ensures 0 <= r.slot < 0x100 && r.slot in items' && r == RowOf(character, r.slot, items'[r.slot])
    {
      var i :| 0 <= i < |after| && after[i] == r;
      assert rows[i] in rows;
    }
    forall s | s in items' ensures RowOf(character, s, items'[s]) in after {
      if s == slot {
        var i :| 0 <= i < |rows| && Key(rows[i], character, slot);
        assert after[i] == row;
      } else {
        var i :| 0 <= i < |rows| && rows[i] == RowOf(character, s, items[s]);
        assert after[i] == rows[i];
      }
    }
    forall r: Row | r.character != character ensures r in rows <==> r in after {
      if r in rows { var i :| 0 <= i < |rows| && rows[i] == r; assert after[i] == r; }
      if r in after { var i :| 0 <= i < |rows| && after[i] == r; assert rows[i] == r; }
    }
  }

  /** An update of a slot that holds nothing. */
  lemma NothingToSet(rows: Rows, character: u32, items: Slots, slot: u8, upgradeLevel: int, amount: int)
    requires Matches(rows, character, items) && slot !in items
    ensures Execute(rows, SetData(character, slot, upgradeLevel, amount)) == Ok(rows)
  {
    assert forall i :: 0 <= i < |rows| ==> rows[i] in rows && !Key(rows[i], character, slot);
    var after := Execute(rows, SetData(character, slot, upgradeLevel, amount)).value;
    assert |after| == |rows| && forall i :: 0 <= i < |rows| ==> after[i] == rows[i];
    assert after == rows;
  }

  lemma MatchAfterSetData(rows: Rows, character: u32, items: Slots, slot: u8, newItem: ItemTypeData)
    requires Matches(rows, character, items) && slot in items
    ensures var done := Execute(rows, SetData(character, slot, UpgradeColumn(newItem), AmountColumn(newItem)));
      && done.Ok? && Matches(done.value, character, items[slot := items[slot].(typeData := newItem)])
      && OthersKept(rows, done.value, character)
  {
    var items' := items[slot := items[slot].(typeData := newItem)];
    var after := Execute(rows, SetData(character, slot, UpgradeColumn(newItem), AmountColumn(newItem))).value;
    forall row | row in after && row.character == character
      ensures 0 <= row.slot < 0x100 && row.slot in items' && row == RowOf(character, row.slot, items'[row.slot])
    {
      var i :| 0 <= i < |after| && after[i] == row;
      assert rows[i] in rows;
    }
    forall s | s in items' ensures RowOf(character, s, items'[s]) in after {
      var i :| 0 <= i < |rows| && rows[i] == RowOf(character, s, items[s]);
      assert after[i] == RowOf(character, s, items'[s]);
    }
    OthersAfterSetData(rows, character, slot, UpgradeColumn(newItem), AmountColumn(newItem));
  }

  lemma OthersAfterSetData(rows: Rows, character: u32, slot: int, upgradeLevel: int, amount: int)
    ensures OthersKept(rows, Execute(rows, SetData(character, slot, upgradeLevel, amount)).value, character)
  {
    var after := Execute(rows, SetData(character, slot, upgradeLevel, amount)).value;
    forall row: Row | row.character != character ensures row in rows <==> row in after {
      if row in rows { var i :| 0 <= i < |rows| && rows[i] == row; assert after[i] == row; }
      if row in after { var i :| 0 <= i < |rows| && after[i] == row; assert rows[i] == row; }
    }
  }

  lemma MatchAfterDelete(rows: Rows, character: u32, items: Slots, slot: u8)
    requires Matches(rows, character, items)
    ensures var done := Execute(rows, Delete(character, slot));
      done.Ok? && Matches(done.value, character, items - {slot}) && OthersKept(rows, done.value, character)
  {
  }

  /** Rows of a character as a map from slot numbers, with the parking slot included. */
  ghost predicate Parks(rows: Rows, character: u32, items: map<int, Item>) {
    && Unique(rows)
    && (forall row <- rows :: row.character == character ==>
          row.slot in items && row == ParkedRow(character, row.slot, items[row.slot]))
    && (forall slot <- items :: ParkedRow(character, slot, items[slot]) in rows)
  }

  function ParkedRow(character: u32, slot: int, item: Item): Row {
    RowOf(character, 0, item).(slot := slot)
  }

  /** Moving a row to a taken slot number is refused. */
  lemma SetSlotRefused(rows: Rows, character: u32, items: map<int, Item>, from: int, target: int)
    requires Parks(rows, character, items) && from in items && target in items && target != from
    ensures Execute(rows, SetSlot(character, from, target)).Err?
  {
    var moved := seq(|rows|, i requires 0 <= i < |rows| =>
      if Key(rows[i], character, from) then rows[i].(slot := target) else rows[i]);
    var i :| 0 <= i < |rows| && rows[i] == ParkedRow(character, from, items[from]);
    var j :| 0 <= j < |rows| && rows[j] == ParkedRow(character, target, items[target]);
    assert moved[i].slot == target && moved[j].slot == target && moved[i].character == moved[j].character == character;
    assert Key(moved[i], moved[j].character, moved[j].slot) && Key(moved[j], moved[i].character, moved[i].slot);
    assert !UniqueCheck(moved);
  }

  /** Moving from a slot number that nothing uses does nothing. */
  lemma NothingToMove(rows: Rows, character: u32, items: map<int, Item>, from: int, target: int)
    requires Parks(rows, character, items) && from !in items
    ensures Execute(rows, SetSlot(character, from, target)) == Ok(rows)
  {
    var moved := seq(|rows|, i requires 0 <= i < |rows| =>
      if Key(rows[i], character, from) then rows[i].(slot := target) else rows[i]);
    assert forall i :: 0 <= i < |rows| ==> rows[i] in rows && moved[i] == rows[i];
    assert moved == rows;
  }

  /** Moving a row to a slot number nothing else uses. */
  lemma ParksAfterSetSlot(rows: Rows, character: u32, items: map<int, Item>, from: int, target: int)
    requires Parks(rows, character, items) && (target !in items || target == from)
    ensures var done := Execute(rows, SetSlot(character, from, target));
      && done.Ok? && OthersKept(rows, done.value, character)
      && Parks(done.value, character, if from in items then (items - {from})[target := items[from]] else items)
  {
    var items' := if from in items then (items - {from})[target := items[from]] else items;
    var after := seq(|rows|, i requires 0 <= i < |rows| =>
      if Key(rows[i], character, from) then rows[i].(slot := target) else rows[i]);
    forall i, j | 0 <= i < j < |after| ensures !Key(after[i], after[j].character, after[j].slot) {
      assert !Key(rows[i], rows[j].character, rows[j].slot);
      assert rows[i] in rows && rows[j] in rows;
    }
    forall row | row in after && row.character == character
      ensures row.slot in items' && row == ParkedRow(character, row.slot, items'[row.slot])
    {
      var i :| 0 <= i < |after| && after[i] == row;
      assert rows[i] in rows;
    }
    forall s | s in items' ensures ParkedRow(character, s, items'[s]) in after {
      var was := if s == target && from in items then from else s;
      var i :| 0 <= i < |rows| && rows[i] == ParkedRow(character, was, items[was]);
      assert after[i] == ParkedRow(character, s, items'[s]);
    }
    forall row: Row | row.character != character ensures row in rows <==> row in after {
      if row in rows { var i :| 0 <= i < |rows| && rows[i] == row; assert after[i] == row; }
      if row in after { var i :| 0 <= i < |rows| && after[i] == row; assert rows[i] == row; }
    }
  }

  function Widened(items: Slots): map<int, Item> {
    map slot: int | slot in items :: items[slot]
  }

  lemma ParksIsMatches(rows: Rows, character: u32, items: Slots)
    ensures Parks(rows, character, Widened(items)) <==> Matches(rows, character, items)
  {
    forall slot: u8, item: Item ensures ParkedRow(character, slot, item) == RowOf(character, slot, item) {
    }
    forall slot: int ensures slot in Widened(items) <==> 0 <= slot < 0x100 && slot in items {
    }
  }

  /** Uniqueness holds after each of the statements, and none of them fails. */
  ghost predicate UniqueThroughout(rows: Rows, stmts: seq<Statement>)
    decreases stmts
  {
    && Unique(rows)
    && (stmts != [] ==> Execute(rows, stmts[0]).Ok? && UniqueThroughout(Execute(rows, stmts[0]).value, stmts[1..]))
  }

  lemma {:induction false} ThroughoutReaches(rows: Rows, stmts: seq<Statement>)
    requires UniqueThroughout(rows, stmts)
    ensures ExecuteAll(rows, stmts) == Ok(Reached(rows, stmts))
    decreases stmts
  {
    if stmts != [] {
      ThroughoutReaches(Execute(rows, stmts[0]).value, stmts[1..]);
    }
  }

  /** Any change, run as its statements on rows that match a slot map: the rows match what `TableEffect`
      says, and rows of other characters stay. */
  lemma StatementsDo(rows: Rows, character: u32, items: Slots, change: InventoryChange)
    requires Matches(rows, character, items)
    ensures Matches(Reached(rows, Statements(character, change)), character, TableEffect(items, change))
    ensures OthersKept(rows, Reached(rows, Statements(character, change)), character)
    ensures change.Fits(items) ==> UniqueThroughout(rows, Statements(character, change))
  {
    match change {
      case AddItem(slot, item) =>
        MatchAfterUpsert(rows, character, items, slot, item);
        SingleStatement(rows, Upsert(RowOf(character, slot, item)));
      case ChangeTypeData(slot, _, newItem) =>
        if slot in items {
          MatchAfterSetData(rows, character, items, slot, newItem);
        } else {
          NothingToSet(rows, character, items, slot, UpgradeColumn(newItem), AmountColumn(newItem));
        }
        SingleStatement(rows, SetData(character, slot, UpgradeColumn(newItem), AmountColumn(newItem)));
      case RemoveItem(slot) =>
        MatchAfterDelete(rows, character, items, slot);
        SingleStatement(rows, Delete(character, slot));
      case MoveItem(source, target) => MoveDoes(rows, character, items, source, target);
      case Swap(first, second) => SwapDoes(rows, character, items, first, second);
    }
  }

  lemma MoveDoes(rows: Rows, character: u32, items: Slots, source: u8, target: u8)
    requires Matches(rows, character, items)
    ensures var stmts := Statements(character, MoveItem(source, target));
      && Matches(Reached(rows, stmts), character, TableEffect(items, MoveItem(source, target)))
      && OthersKept(rows, Reached(rows, stmts), character)
      && (MoveItem(source, target).Fits(items) ==> UniqueThroughout(rows, stmts))
  {
    if source !in items {
      ParksIsMatches(rows, character, items);
      NothingToMove(rows, character, Widened(items), source, target);
      SingleStatement(rows, SetSlot(character, source, target));
    } else if target in items && target != source {
      ParksIsMatches(rows, character, items);
      SetSlotRefused(rows, character, Widened(items), source, target);
    } else {
      FittingMoveDoes(rows, character, items, source, target);
    }
  }

  lemma FittingMoveDoes(rows: Rows, character: u32, items: Slots, source: u8, target: u8)
    requires Matches(rows, character, items) && MoveItem(source, target).Fits(items)
    ensures var stmts := Statements(character, MoveItem(source, target));
      && UniqueThroughout(rows, stmts) && OthersKept(rows, Reached(rows, stmts), character)
      && Matches(Reached(rows, stmts), character, (items - {source})[target := items[source]])
  {
    var stmt, moved := SetSlot(character, source, target), (items - {source})[target := items[source]];
    ParksIsMatches(rows, character, items);
    var after := ParksMoved(rows, character, Widened(items), source, target);
    WidenedMove(items, source, target);
    ParksIsMatches(after, character, moved);
    OneStatement(rows, stmt, after);
  }

  lemma WidenedMove(items: Slots, source: u8, target: u8)
    requires source in items
    ensures MovedSlot(Widened(items), source, target) == Widened((items - {source})[target := items[source]])
  {
    var left, right := MovedSlot(Widened(items), source, target), Widened((items - {source})[target := items[source]]);
    forall slot: int ensures slot in left <==> slot in right {
    }
    forall slot: int | slot in left ensures left[slot] == right[slot] {
    }
  }

  lemma OneStatement(rows: Rows, stmt: Statement, after: Rows)
    requires Unique(rows) && Unique(after) && Execute(rows, stmt) == Ok(after)
    ensures UniqueThroughout(rows, [stmt]) && Reached(rows, [stmt]) == after
  {
    SingleStatement(rows, stmt);
  }

  /** A legal change never breaks the unique key - not even between the three statements of a swap - and
      ends with rows that match the changed inventory. */
  lemma StatementsRefineChange(rows: Rows, character: u32, items: Slots, change: InventoryChange)
    requires Matches(rows, character, items) && change.Fits(items)
    ensures UniqueThroughout(rows, Statements(character, change))
    ensures Matches(Reached(rows, Statements(character, change)), character, change.Effect(items))
    ensures OthersKept(rows, Reached(rows, Statements(character, change)), character)
  {
    StatementsDo(rows, character, items, change);
    FittingEffect(items, change);
  }

  lemma SingleStatement(rows: Rows, stmt: Statement)
    requires Unique(rows) && Execute(rows, stmt).Ok? && Unique(Execute(rows, stmt).value)
    ensures UniqueThroughout(rows, [stmt]) && Reached(rows, [stmt]) == Execute(rows, stmt).value
  {
    var after := Execute(rows, stmt).value;
    assert [stmt][1..] == [];
    assert UniqueThroughout(after, []) && Reached(after, []) == after;
  }

  lemma SwapDoes(rows: Rows, character: u32, items: Slots, first: u8, second: u8)
    requires Matches(rows, character, items)
    ensures var stmts := Statements(character, Swap(first, second));
      && UniqueThroughout(rows, stmts)
      && Matches(Reached(rows, stmts), character, TableEffect(items, Swap(first, second)))
      && OthersKept(rows, Reached(rows, stmts), character)
  {
    var s1, s2 := SetSlot(character, first, SWAP_SLOT), SetSlot(character, second, first);
    var s3 := SetSlot(character, SWAP_SLOT, second);
    var after := TableEffect(items, Swap(first, second));
    ParksIsMatches(rows, character, items);
    var r1, r2, r3 := SwapParks(rows, character, Widened(items), first, second);
    SwappedIsEffect(items, first, second);
    ParksIsMatches(r3, character, after);
    OneStatement(rows, s1, r1);
    OneStatement(r1, s2, r2);
    OneStatement(r2, s3, r3);
    ThreeStatements(rows, s1, r1, s2, r2, s3, r3);
  }

  lemma SwappedIsEffect(items: Slots, first: u8, second: u8)
    ensures SwappedSlots(Widened(items), first, second) == Widened(TableEffect(items, Swap(first, second)))
  {
    var swapped, after := SwappedSlots(Widened(items), first, second), Widened(TableEffect(items, Swap(first, second)));
    forall slot: int ensures slot in swapped <==> slot in after {
    }
    forall slot: int | slot in swapped ensures swapped[slot] == after[slot] {
    }
  }

  /** Three statements that are fine one by one. */
  lemma ThreeStatements(rows: Rows, s1: Statement, r1: Rows, s2: Statement, r2: Rows, s3: Statement, r3: Rows)
    requires UniqueThroughout(rows, [s1]) && Reached(rows, [s1]) == r1
    requires UniqueThroughout(r1, [s2]) && Reached(r1, [s2]) == r2
    requires UniqueThroughout(r2, [s3]) && Reached(r2, [s3]) == r3
    ensures UniqueThroughout(rows, [s1, s2, s3]) && Reached(rows, [s1, s2, s3]) == r3
  {
    ThenMore(r1, [s2], r2, [s3]);
    ThenMore(rows, [s1], r1, [s2] + [s3]);
    assert [s1] + ([s2] + [s3]) == [s1, s2, s3];
  }

  lemma {:induction false} ThenMore(rows: Rows, front: seq<Statement>, mid: Rows, back: seq<Statement>)
    requires UniqueThroughout(rows, front) && Reached(rows, front) == mid && UniqueThroughout(mid, back)
    ensures UniqueThroughout(rows, front + back) && Reached(rows, front + back) == Reached(mid, back)
    decreases front
  {
    if front == [] {
      assert front + back == back;
    } else {
      assert (front + back)[1..] == front[1..] + back;
      ThenMore(Execute(rows, front[0]).value, front[1..], mid, back);
    }
  }

  function MovedSlot(items: map<int, Item>, from: int, target: int): map<int, Item> {
    if from in items then (items - {from})[target := items[from]] else items
  }

  function SwappedSlots(items: map<int, Item>, first: int, second: int): map<int, Item> {
    MovedSlot(MovedSlot(MovedSlot(items, first, SWAP_SLOT), second, first), SWAP_SLOT, second)
  }

  /** The three updates of a swap, through the slot number -1. */
  lemma SwapParks(rows: Rows, character: u32, items: map<int, Item>, first: int, second: int)
    returns (r1: Rows, r2: Rows, r3: Rows)
    requires Parks(rows, character, items) && SWAP_SLOT !in items && first != SWAP_SLOT && second != SWAP_SLOT
    ensures Execute(rows, SetSlot(character, first, SWAP_SLOT)) == Ok(r1) && Unique(r1)
    ensures Execute(r1, SetSlot(character, second, first)) == Ok(r2) && Unique(r2)
    ensures Execute(r2, SetSlot(character, SWAP_SLOT, second)) == Ok(r3) && OthersKept(rows, r3, character)
    ensures Parks(r3, character, SwappedSlots(items, first, second))
  {
    var m1 := MovedSlot(items, first, SWAP_SLOT);
    var m2 := MovedSlot(m1, second, first);
    r1 := ParksMoved(rows, character, items, first, SWAP_SLOT);
    r2 := ParksMoved(r1, character, m1, second, first);
    r3 := ParksMoved(r2, character, m2, SWAP_SLOT, second);
  }

  lemma ParksMoved(rows: Rows, character: u32, items: map<int, Item>, from: int, target: int) returns (moved: Rows)
    requires Parks(rows, character, items) && (from in items ==> target !in items || target == from)
    ensures Execute(rows, SetSlot(character, from, target)) == Ok(moved)
    ensures Parks(moved, character, MovedSlot(items, from, target)) && OthersKept(rows, moved, character)
  {
    if from in items {
      ParksAfterSetSlot(rows, character, items, from, target);
    } else {
      NothingToMove(rows, character, items, from, target);
    }
    moved := Execute(rows, SetSlot(character, from, target)).value;
  }

  // ---------------------------------------------------------------- A whole log

  /** Applying a log one change after the other; an error is logged and the next change is tried. */
  function ApplyLog(rows: Rows, character: u32, log: seq<InventoryChange>): Rows
    decreases log
  {
    if log == [] then rows
    else ApplyLog(Reached(rows, Statements(character, log[0])), character, log[1..])
  }

  function TableLog(items: Slots, log: seq<InventoryChange>): Slots
    decreases log
  {
    if log == [] then items else TableLog(TableEffect(items, log[0]), log[1..])
  }

  /** Any log at all, applied to rows that match a slot map. */
  lemma {:induction false} LogDoes(rows: Rows, character: u32, items: Slots, log: seq<InventoryChange>)
    requires Matches(rows, character, items)
    ensures Matches(ApplyLog(rows, character, log), character, TableLog(items, log))
    ensures OthersKept(rows, ApplyLog(rows, character, log), character)
    decreases log
  {
    if log != [] {
      StatementsDo(rows, character, items, log[0]);
      LogDoes(Reached(rows, Statements(character, log[0])), character, TableEffect(items, log[0]), log[1..]);
    }
  }

  lemma {:induction false} FittingLog(items: Slots, log: seq<InventoryChange>)
    requires ReplayFitting(items, log).Some?
    ensures TableLog(items, log) == ReplayFitting(items, log).value
    decreases log
  {
    if log != [] {
      FittingEffect(items, log[0]);
      FittingLog(log[0].Effect(items), log[1..]);
    }
  }

  /** A log that fits, applied change by change to rows that match, ends matching its replay. */
  lemma LogRefinesReplay(rows: Rows, character: u32, items: Slots, log: seq<InventoryChange>)
    requires Matches(rows, character, items) && ReplayFitting(items, log).Some?
    ensures Matches(ApplyLog(rows, character, log), character, ReplayFitting(items, log).value)
    ensures OthersKept(rows, ApplyLog(rows, character, log), character)
  {
    LogDoes(rows, character, items, log);
    FittingLog(items, log);
  }

  /** Two items that are stored in the same columns. */
  predicate Alike(a: Item, b: Item) {
    a.refId == b.refId && a.variance == b.variance && SameColumns(a.typeData, b.typeData)
  }

  predicate SameColumns(a: ItemTypeData, b: ItemTypeData) {
    UpgradeColumn(a) == UpgradeColumn(b) && AmountColumn(a) == AmountColumn(b)
  }

  predicate SameRows(a: Slots, b: Slots) {
    a.Keys == b.Keys && forall slot <- a :: Alike(a[slot], b[slot])
  }

  lemma AlikeRows(character: u32, slot: u8, a: Item, b: Item)
    ensures RowOf(character, slot, a) == RowOf(character, slot, b) <==> Alike(a, b)
  {
  }

  /** Rows that match one slot map match another one exactly when both are stored alike. */
  lemma MatchesBoth(rows: Rows, character: u32, a: Slots, b: Slots)
    requires Matches(rows, character, a)
    ensures Matches(rows, character, b) <==> SameRows(a, b)
  {
    forall slot: u8, x: Item, y: Item ensures RowOf(character, slot, x) == RowOf(character, slot, y) <==> Alike(x, y) {
      AlikeRows(character, slot, x, y);
    }
    if SameRows(a, b) {
      assert forall slot <- b :: slot in a && RowOf(character, slot, a[slot]) == RowOf(character, slot, b[slot]);
    }
    if Matches(rows, character, b) {
      forall slot: u8 ensures slot in a <==> slot in b {
        assert slot in a ==> RowOf(character, slot, a[slot]) in rows;
        assert slot in b ==> RowOf(character, slot, b[slot]) in rows;
      }
      assert a.Keys == b.Keys;
      assert forall slot <- a :: RowOf(character, slot, a[slot]) in rows && Alike(a[slot], b[slot]);
    }
  }

  // ---------------------------------------------------------------- Reading an inventory back

  datatype Kind = Equippable | Pet | Other

  /** The kind of an item id decides which columns are read. */
  function TypeDataFor(kind: Kind, row: Row): ItemTypeData {
    match kind
    case Equippable => Equipment(row.upgradeLevel % 0x100)
    case Pet => COS
    case Other => Consumable(Unsigned(row.amount, 0x8000) % 0x1_0000)
  }

  function ItemFor(kinds: u32 -> Kind, row: Row): Item {
    var refId := Unsigned(row.itemObjId, 0x8000_0000) % 0x1_0000_0000;
    var variance :=
      if row.variance.None? then None
      else Some(Unsigned(row.variance.value, 0x8000_0000_0000_0000) % 0x1_0000_0000_0000_0000);
    Item(refId, variance, TypeDataFor(kinds(refId), row))
  }

  predicate KindFits(kinds: u32 -> Kind, item: Item) {
    match item.typeData
    case Equipment(_) => kinds(item.refId).Equippable?
    case COS => kinds(item.refId).Pet?
    case Consumable(_) => kinds(item.refId).Other?
    case Gold(_) => false
  }

  /** Writing an item as a row and reading it back gives the item exactly when its data is of the
      kind its id says. */
  lemma RowRoundTrip(kinds: u32 -> Kind, character: u32, slot: u8, item: Item)
    ensures ItemFor(kinds, RowOf(character, slot, item)) == item <==> KindFits(kinds, item)
  {
    assert Unsigned(Signed(item.refId, 0x8000_0000), 0x8000_0000) == item.refId;
  }

  /** The slot map read from the rows of one character; a later row of a slot wins. */
  function LoadSlots(kinds: u32 -> Kind, rows: Rows, character: u32): Slots {
    if rows == [] then map[]
    else
      var earlier, row := LoadSlots(kinds, rows[..|rows| - 1], character), rows[|rows| - 1];
      if row.character == character then earlier[(row.slot % 0x100) as u8 := ItemFor(kinds, row)] else earlier
  }

  /** `from_db_inventory`, on the rows of the table. */
  method FromDb(kinds: u32 -> Kind, rows: Rows, character: u32) returns (items: Slots)
    ensures items == LoadSlots(kinds, rows, character)
  {
    items := map[];
    for i := 0 to |rows|
      invariant items == LoadSlots(kinds, rows[..i], character)
    {
      assert rows[..i + 1][..i] == rows[..i];
      if rows[i].character == character {
        items := items[(rows[i].slot % 0x100) as u8 := ItemFor(kinds, rows[i])];
      }
    }
    assert rows[..|rows|] == rows;
  }

  /** Loading a table that matches an inventory gives that inventory. */
  lemma LoadReadsMatch(kinds: u32 -> Kind, rows: Rows, character: u32, items: Slots)
    requires Matches(rows, character, items)
    requires forall slot <- items :: KindFits(kinds, items[slot])
    ensures LoadSlots(kinds, rows, character) == items
  {
    LoadPrefix(kinds, rows, character, items, |rows|);
    assert rows[..|rows|] == rows;
    forall slot | slot in items ensures slot in LoadSlots(kinds, rows, character) {
      var j :| 0 <= j < |rows| && rows[j] == RowOf(character, slot, items[slot]);
    }
  }

  lemma {:induction false} LoadPrefix(kinds: u32 -> Kind, rows: Rows, character: u32, items: Slots, n: nat)
    requires Matches(rows, character, items) && n <= |rows|
    requires forall slot <- items :: KindFits(kinds, items[slot])
    ensures var loaded := LoadSlots(kinds, rows[..n], character);
      && (forall slot <- loaded :: slot in items && loaded[slot] == items[slot])
      && (forall j :: 0 <= j < n && rows[j].character == character ==> rows[j].slot in loaded)
  {
    if n > 0 {
      LoadPrefix(kinds, rows, character, items, n - 1);
      assert rows[..n][..n - 1] == rows[..n - 1];
      var row := rows[n - 1];
      assert row in rows;
      if row.character == character {
        RowRoundTrip(kinds, character, row.slot, items[row.slot]);
      }
    }
  }

  // ---------------------------------------------------------------- Columns, one by one

  /** What a row holds of an item: its id and variance as signed numbers, the upgrade of equipment, and the amount
      of a stack, cut to 16 signed bits; everything else counts as one and is not upgraded. */
  lemma StoredColumns(character: u32, slot: u8, item: Item)
    ensures var row := RowOf(character, slot, item);
      && row.character == character && row.slot == slot
      && row.itemObjId == (if item.refId < 0x8000_0000 then item.refId else item.refId - 0x1_0000_0000)
      && (row.variance.None? <==> item.variance.None?)
      && row.upgradeLevel == (if item.typeData.Equipment? then item.typeData.upgradeLevel else 0)
      && (item.typeData.Consumable? ==>
            row.amount == if item.typeData.amount < 0x8000 then item.typeData.amount else item.typeData.amount - 0x1_0000)
      && (item.typeData.Equipment? || item.typeData.COS? ==> row.amount == 1)
  {
  }

  /** When two rows of a character read as the same slot, the later one is loaded. */
  lemma {:induction false} LastRowIsLoaded(kinds: u32 -> Kind, rows: Rows, character: u32, i: nat)
    requires i < |rows| && rows[i].character == character
    requires forall j :: i < j < |rows| && rows[j].character == character ==> rows[j].slot % 0x100 != rows[i].slot % 0x100
    ensures var loaded := LoadSlots(kinds, rows, character);
      rows[i].slot % 0x100 in loaded && loaded[rows[i].slot % 0x100] == ItemFor(kinds, rows[i])
    decreases |rows|
  {
    if i < |rows| - 1 {
      var earlier := rows[..|rows| - 1];
      assert earlier[i] == rows[i];
      LastRowIsLoaded(kinds, earlier, character, i);
    }
  }
}
