/** From edits to table rows (silkroad-agent/src/persistence/mod.rs): every tick the recorded
    changes are collected, and when the client leaves, the collection is optimised and applied
    change by change. */
module Persistence {
  import opened Wrappers
  import opened Words
  import opened Changes
  import opened InventoryChanges
  import opened InventoryOptimizer
  import Absorptions
  import BrokenLogs
  import opened SideBySide
  import opened Inventories
  import opened InventoryLaws
  import opened ItemTables

  class PersistenceCollection {
    var changes: seq<InventoryChange>

    constructor ()
      ensures changes == []
    {
      changes := [];
    }

    /** `collect_changes` for one inventory. */
    method Collect(source: Inventory)
      modifies this, source`changes
      ensures changes == old(changes) + old(source.changes) && source.changes == []
    {
      var taken := source.TakeChanges();
      if taken != [] {
        changes := changes + taken;
      }
    }

    /** `apply_changes_exit` for one player. */
    method ApplyExit(table: ItemTable, character: u32)
      modifies this, table
      ensures changes == []
      ensures table.rows == ApplyLog(old(table.rows), character, OptimizeChanges(old(changes)))
    {
      var taken := changes;
      changes := [];
      var optimized := Optimize(MergeChanges, taken);
      for i := 0 to |optimized|
        invariant changes == []
        invariant ApplyLog(table.rows, character, optimized[i..]) == ApplyLog(old(table.rows), character, optimized)
      {
        assert optimized[i..][1..] == optimized[i + 1..];
        var _ := table.ApplyChange(character, optimized[i]);
      }
    }
  }

  // ---------------------------------------------------------------- Sessions

  /** The world of one player: the slot map, what was recorded since the last tick, what was collected since
      the last write, the slot map that was last written, and the table. */
  datatype Session = Session(items: Slots, pending: seq<InventoryChange>, collected: seq<InventoryChange>,
                             stored: Slots, rows: Rows)

  /** `Write` is the periodic write, which runs its statements side by side: `written` has its changes in the
      order they happen to take. `Leave` is the sequential write of the exit path. */
  datatype Event =
    | Add(item: Item, order: seq<u8>)
    | Move(source: u8, target: u8, amount: u16)
    | Tick
    | Write(written: seq<InventoryChange>)
    | Leave

  datatype Setting = Setting(cat: Catalogue, size: nat, character: u32)

  /** The order of an addition is one that the hash map can have, the order of a write is one of its changes. */
  ghost predicate Enabled(s: Session, e: Event) {
    && (e.Add? ==> Lists(e.order, SlotsMatching(s.items, e.item)))
    && (e.Write? ==> multiset(e.written) == multiset(OptimizeChanges(s.collected)))
  }

  /** The slot map that a written log stands for. */
  function Written(stored: Slots, log: seq<InventoryChange>): Slots {
    var end := ReplayChanges(stored, log);
    if end.Some? then end.value else stored
  }

  ghost function Step(env: Setting, s: Session, e: Event): Session
    requires Enabled(s, e)
  {
    match e
    case Add(item, order) =>
      var done := AddStep(env.cat, env.size, s.items, item, order);
      s.(items := done.items, pending := s.pending + done.log)
    case Move(source, target, amount) =>
      var done := MoveStep(env.cat, s.items, source, target, amount);
      s.(items := done.items, pending := s.pending + done.log)
    case Tick => s.(pending := [], collected := s.collected + s.pending)
    case Write(order) =>
      s.(collected := [], stored := Written(s.stored, s.collected), rows := ApplyLog(s.rows, env.character, order))
    case Leave =>
      s.(collected := [], stored := Written(s.stored, s.collected),
         rows := ApplyLog(s.rows, env.character, OptimizeChanges(s.collected)))
  }

  /** The log is one the optimiser is sound for: only one-slot changes, or a run whose absorptions are
      all right. */
  ghost predicate Optimizable(stored: Slots, log: seq<InventoryChange>) {
    OneSlotLog(log) || Absorptions.RightRun(stored, [], log)
  }

  /** No move gives up half way, every written log is optimisable, and what is written side by side is
      separate. */
  ghost predicate Faithful(env: Setting, s: Session, e: Event)
    requires Enabled(s, e)
  {
    && (e.Move? ==> !StackingFails(env.cat, s.items, e.source, e.target, e.amount))
    && (e.Write? || e.Leave? ==> Optimizable(s.stored, s.collected))
    && (e.Write? ==> Separate(OptimizeChanges(s.collected)))
  }

  ghost predicate Runs(env: Setting, s: Session, events: seq<Event>)
    decreases events
  {
    events == [] || (Enabled(s, events[0]) && Runs(env, Step(env, s, events[0]), events[1..]))
  }

  ghost predicate FaithfulRun(env: Setting, s: Session, events: seq<Event>)
    requires Runs(env, s, events)
    decreases events
  {
    events == [] || (Faithful(env, s, events[0]) && FaithfulRun(env, Step(env, s, events[0]), events[1..]))
  }

  ghost function After(env: Setting, s: Session, events: seq<Event>): Session
    requires Runs(env, s, events)
    decreases events
  {
    if events == [] then s else After(env, Step(env, s, events[0]), events[1..])
  }

  /** The table holds what was written, and replaying everything not yet written on it gives the slot map. */
  ghost predicate Synced(env: Setting, s: Session) {
    Matches(s.rows, env.character, s.stored) && ReplayChanges(s.stored, s.collected + s.pending) == Some(s.items)
  }

  lemma RecordKeepsSync(env: Setting, s: Session, items: Slots, log: seq<InventoryChange>)
    requires Synced(env, s)
    ensures Synced(env, s.(items := items, pending := s.pending + log)) <==> ReplayChanges(s.items, log) == Some(items)
  {
    assert s.collected + (s.pending + log) == (s.collected + s.pending) + log;
    ReplayConcat(AllKinds(), s.stored, s.collected + s.pending, log);
  }

  /** The optimiser is sound on optimisable logs, as the table applies them. */
  lemma OptimizableIsSound(stored: Slots, log: seq<InventoryChange>)
    requires Optimizable(stored, log) && ReplayChanges(stored, log).Some?
    ensures ReplayFitting(stored, OptimizeChanges(log)) == ReplayChanges(stored, log)
  {
    LegalFits(stored, log);
    if OneSlotLog(log) {
      InventoryOptimizerSound(stored, log);
      LegalFits(stored, OptimizeChanges(log));
    } else {
      Absorptions.AnyLogSoundWhenRight(stored, log);
    }
  }

  /** Either kind of write. */
  lemma WriteKeepsSync(env: Setting, s: Session, e: Event)
    requires e.Write? || e.Leave?
    requires Enabled(s, e) && Faithful(env, s, e) && Synced(env, s)
    ensures Synced(env, Step(env, s, e)) && OthersKept(s.rows, Step(env, s, e).rows, env.character)
  {
    ReplayConcat(AllKinds(), s.stored, s.collected, s.pending);
    OptimizableIsSound(s.stored, s.collected);
    if e.Write? {
      SeparateOnTable(s.rows, env.character, s.stored, OptimizeChanges(s.collected), e.written);
    } else {
      LogRefinesReplay(s.rows, env.character, s.stored, OptimizeChanges(s.collected));
    }
    assert [] + s.pending == s.pending;
  }

  lemma StepKeepsSync(env: Setting, s: Session, e: Event)
    requires Enabled(s, e) && Faithful(env, s, e) && Synced(env, s)
    ensures Synced(env, Step(env, s, e)) && OthersKept(s.rows, Step(env, s, e).rows, env.character)
  {
    match e {
      case Add(item, order) =>
        var done := AddStep(env.cat, env.size, s.items, item, order);
        AddIsRecorded(env.cat, env.size, s.items, item, order);
        RecordKeepsSync(env, s, done.items, done.log);
      case Move(source, target, amount) => MoveKeepsSyncExactly(env, s, source, target, amount);
      case Tick => assert (s.collected + s.pending) + [] == s.collected + s.pending;
      case Write(_) => WriteKeepsSync(env, s, e);
      case Leave => WriteKeepsSync(env, s, e);
    }
  }

  /** A move, exactly: what is recorded stays in step with the slot map if and only if stacking does not
      give up. */
  lemma MoveKeepsSyncExactly(env: Setting, s: Session, source: u8, target: u8, amount: u16)
    requires Synced(env, s)
    ensures Synced(env, Step(env, s, Move(source, target, amount)))
      <==> !StackingFails(env.cat, s.items, source, target, amount)
  {
    var done := MoveStep(env.cat, s.items, source, target, amount);
    MoveIsRecorded(env.cat, s.items, source, target, amount);
    RecordKeepsSync(env, s, done.items, done.log);
  }

  lemma {:induction false} RunKeepsSync(env: Setting, s: Session, events: seq<Event>)
    requires Runs(env, s, events) && FaithfulRun(env, s, events) && Synced(env, s)
    ensures Synced(env, After(env, s, events)) && OthersKept(s.rows, After(env, s, events).rows, env.character)
    decreases events
  {
    if events != [] {
      StepKeepsSync(env, s, events[0]);
      RunKeepsSync(env, Step(env, s, events[0]), events[1..]);
    }
  }

  /** A player's session, end to end: starting from a table that matches the inventory, after any faithful run
      of additions, moves, ticks and periodic writes, one last tick and the write of the exit path leave a table
      that matches the final inventory, and loading it gives the final inventory back. The rows of other
      characters are the ones they were. */
  lemma SessionIsPersisted(env: Setting, kinds: u32 -> Kind, items: Slots, rows: Rows, events: seq<Event>)
    requires Matches(rows, env.character, items)
    requires var start := Session(items, [], [], items, rows);
      Runs(env, start, events + [Tick, Leave]) && FaithfulRun(env, start, events + [Tick, Leave])
    ensures var end := After(env, Session(items, [], [], items, rows), events + [Tick, Leave]);
      && Matches(end.rows, env.character, end.items)
      && OthersKept(rows, end.rows, env.character)
      && ((forall slot <- end.items :: KindFits(kinds, end.items[slot])) ==>
            LoadSlots(kinds, end.rows, env.character) == end.items)
  {
    var start := Session(items, [], [], items, rows);
    assert ReplayChanges(items, [] + []) == Some(items);
    RunKeepsSync(env, start, events + [Tick, Leave]);
    var end := After(env, start, events + [Tick, Leave]);
    EndsWritten(env, start, events);
    assert ReplayChanges(end.stored, [] + []) == Some(end.stored);
    if forall slot <- end.items :: KindFits(kinds, end.items[slot]) {
      LoadReadsMatch(kinds, end.rows, env.character, end.items);
    }
  }

  lemma {:induction false} EndsWritten(env: Setting, s: Session, events: seq<Event>)
    requires Runs(env, s, events + [Tick, Leave])
    ensures After(env, s, events + [Tick, Leave]).pending == [] && After(env, s, events + [Tick, Leave]).collected == []
    decreases events
  {
    var all := events + [Tick, Leave];
    if events == [] {
      assert all[0] == Tick && all[1..] == [Leave] && all[1..][1..] == [];
      var ticked := Step(env, s, Tick);
      assert After(env, s, all) == After(env, ticked, [Leave]);
      assert After(env, ticked, [Leave]) == After(env, Step(env, ticked, Leave), []);
    } else {
      assert all[1..] == events[1..] + [Tick, Leave];
      EndsWritten(env, Step(env, s, events[0]), events[1..]);
    }
  }

  // ---------------------------------------------------------------- Sessions of stacking moves

  /** Every move puts an item on a stack that takes it, or finds nothing to move; and no slot is both emptied
      and filled again between two periodic writes. */
  ghost predicate StacksOrNothing(env: Setting, s: Session, e: Event) {
    && (e.Move? ==>
          e.source !in s.items
          || (Stacks(env.cat, s.items, e.source, e.target)
              && !StackingFails(env.cat, s.items, e.source, e.target, e.amount)))
    && (e.Write? ==> DistinctKeys(OneSlotKinds(), OptimizeChanges(s.collected)))
  }

  ghost predicate StackingRun(env: Setting, s: Session, events: seq<Event>)
    requires Runs(env, s, events)
    decreases events
  {
    events == [] || (StacksOrNothing(env, s, events[0]) && StackingRun(env, Step(env, s, events[0]), events[1..]))
  }

  /** What such a session has recorded can be replayed, and holds one-slot changes only. */
  ghost predicate SyncedOneSlot(env: Setting, s: Session) {
    Synced(env, s) && OneSlotLog(s.collected) && OneSlotLog(s.pending)
  }

  lemma StackingStepIsFaithful(env: Setting, s: Session, e: Event)
    requires Enabled(s, e) && StacksOrNothing(env, s, e) && SyncedOneSlot(env, s)
    ensures Faithful(env, s, e) && SyncedOneSlot(env, Step(env, s, e))
  {
    if e.Add? {
      AddIsRecorded(env.cat, env.size, s.items, e.item, e.order);
    } else if e.Write? {
      ReplayConcat(AllKinds(), s.stored, s.collected, s.pending);
      InventoryOptimizerSound(s.stored, s.collected);
      SeparateIsDistinct(OptimizeChanges(s.collected));
    }
    StepKeepsSync(env, s, e);
  }

  lemma {:induction false} StackingRunIsFaithful(env: Setting, s: Session, events: seq<Event>)
    requires Runs(env, s, events) && StackingRun(env, s, events) && SyncedOneSlot(env, s)
    ensures FaithfulRun(env, s, events)
    decreases events
  {
    if events != [] {
      StackingStepIsFaithful(env, s, events[0]);
      StackingRunIsFaithful(env, Step(env, s, events[0]), events[1..]);
    }
  }

  /** Sessions of additions and stacking moves, cut into ticks in any way, end with a table that matches the
      inventory. Without periodic writes the condition is on the events alone. */
  lemma StackingSessionIsPersisted(env: Setting, kinds: u32 -> Kind, items: Slots, rows: Rows, events: seq<Event>)
    requires Matches(rows, env.character, items)
    requires var start := Session(items, [], [], items, rows);
      Runs(env, start, events + [Tick, Leave]) && StackingRun(env, start, events + [Tick, Leave])
    ensures var end := After(env, Session(items, [], [], items, rows), events + [Tick, Leave]);
      && Matches(end.rows, env.character, end.items)
      && OthersKept(rows, end.rows, env.character)
      && ((forall slot <- end.items :: KindFits(kinds, end.items[slot])) ==>
            LoadSlots(kinds, end.rows, env.character) == end.items)
  {
    assert ReplayChanges(items, [] + []) == Some(items);
    StackingRunIsFaithful(env, Session(items, [], [], items, rows), events + [Tick, Leave]);
    SessionIsPersisted(env, kinds, items, rows, events);
  }

  lemma WriteIsMatching(env: Setting, s: Session, order: seq<InventoryChange>)
    requires Synced(env, s) && multiset(order) == multiset(OptimizeChanges(s.collected))
    ensures Synced(env, Step(env, s, Write(order)))
      <==> Matches(ApplyLog(s.rows, env.character, order), env.character, Written(s.stored, s.collected))
  {
    ReplayConcat(AllKinds(), s.stored, s.collected, s.pending);
    assert [] + s.pending == s.pending;
  }

  /** A periodic write, exactly: of one-slot changes, it leaves a matching table in every
      order if and only if no slot was emptied and filled again. */
  lemma WriteKeepsSyncExactly(env: Setting, s: Session)
    requires Synced(env, s) && OneSlotLog(s.collected)
    ensures (forall order: seq<InventoryChange> {:trigger Write(order)} ::
               Enabled(s, Write(order)) ==> Synced(env, Step(env, s, Write(order))))
      <==> DistinctKeys(OneSlotKinds(), OptimizeChanges(s.collected))
  {
    ReplayConcat(AllKinds(), s.stored, s.collected, s.pending);
    SideBySideExact(s.rows, env.character, s.stored, s.collected);
    var out, stored' := OptimizeChanges(s.collected), Written(s.stored, s.collected);
    forall order: seq<InventoryChange> | multiset(order) == multiset(out)
      ensures Synced(env, Step(env, s, Write(order)))
        <==> Matches(ApplyLog(s.rows, env.character, order), env.character, stored')
    {
      WriteIsMatching(env, s, order);
    }
    if forall order: seq<InventoryChange> {:trigger Write(order)} ::
         Enabled(s, Write(order)) ==> Synced(env, Step(env, s, Write(order)))
    {
      forall order: seq<InventoryChange> | multiset(order) == multiset(out)
        ensures Matches(ApplyLog(s.rows, env.character, order), env.character, stored')
      {
        assert Enabled(s, Write(order));
      }
    }
  }

  // ---------------------------------------------------------------- A session that is not persisted

  /** Id 1 stacks up to 50, everything else does not stack. */
  function ShopCatalogue(): Catalogue {
    (refId: u32) => if refId == 1 then 50 else 1
  }

  function Potions(amount: u16): Item {
    Item(1, None, Consumable(amount))
  }

  function Sword(): Item {
    Item(2, None, Equipment(0))
  }

  function ShopSetting(character: u32): Setting {
    Setting(ShopCatalogue(), 45, character)
  }

  const BEFORE: Slots := map[13 := Potions(5), 15 := Potions(10)]
  const MOVED: Slots := map[14 := Potions(5), 15 := Potions(10)]
  const PICKED: Slots := map[13 := Sword(), 14 := Potions(5), 15 := Potions(10)]
  const STACKED: Slots := map[13 := Sword(), 15 := Potions(15)]
  const LOG: seq<InventoryChange> :=
    [MoveItem(13, 14), AddItem(13, Sword()), RemoveItem(14), ChangeTypeData(15, Consumable(10), Consumable(15))]

  lemma MoveFirst(env: Setting, s: Session)
    requires env.cat == ShopCatalogue() && s.items == BEFORE && s.pending == []
    ensures Enabled(s, Move(13, 14, 5)) && Step(env, s, Move(13, 14, 5)) == s.(items := MOVED, pending := LOG[..1])
  {
    assert (BEFORE - {13})[14 := Potions(5)] == MOVED;
    assert [] + [MoveItem(13, 14)] == LOG[..1];
  }

  lemma PickSecond(env: Setting, s: Session)
    requires env.cat == ShopCatalogue() && env.size == 45 && s.items == MOVED && s.pending == LOG[..1]
    ensures Enabled(s, Add(Sword(), [])) && Step(env, s, Add(Sword(), [])) == s.(items := PICKED, pending := LOG[..2])
  {
    assert SlotsMatching(MOVED, Sword()) == {};
    assert EmptySlot(45, MOVED) == Some(13);
    assert MOVED[13 := Sword()] == PICKED;
    assert LOG[..1] + [AddItem(13, Sword())] == LOG[..2];
  }

  lemma StackThird(env: Setting, s: Session)
    requires env.cat == ShopCatalogue() && s.items == PICKED && s.pending == LOG[..2]
    ensures Enabled(s, Move(14, 15, 5)) && Step(env, s, Move(14, 15, 5)) == s.(items := STACKED, pending := LOG)
  {
    assert (PICKED - {14})[15 := Potions(15)] == STACKED;
    assert LOG[..2] + [RemoveItem(14), ChangeTypeData(15, Consumable(10), Consumable(15))] == LOG;
  }

  lemma ShopRowsMatch(character: u32)
    ensures Matches(ShopRows(character), character, BEFORE)
  {
    var rows := ShopRows(character);
    assert rows[0] in rows && rows[1] in rows;
  }

  function ShopRows(character: u32): Rows {
    [RowOf(character, 13, Potions(5)), RowOf(character, 15, Potions(10))]
  }

  lemma ShopOptimized(m: InventoryChange, a: InventoryChange, r: InventoryChange, c: InventoryChange,
                      merged: InventoryChange)
    requires m.Merge(a) == Unchanged(m, a) && a.Merge(r) == Unchanged(a, r) && m.Merge(r) == Merged(merged)
    requires merged.Merge(c) == Unchanged(merged, c) && a.Merge(c) == Unchanged(a, c)
    ensures OptimizeChanges([m, a, r, c]) == [a, merged, c]
  {
    BrokenLogs.SecondStays(m, a);
    BrokenLogs.ThirdFolded(m, a, r);
    assert [a] + [merged] == [a, merged];
    BrokenLogs.ThirdStays(a, merged, c);
    BrokenLogs.OptimizeFour(m, a, r, c, [m, a], [a, merged], [a, merged, c]);
  }

  lemma WriteLosesTheSword(env: Setting, s: Session)
    requires s.collected == LOG && Enabled(s, Leave)
    ensures !Matches(Step(env, s, Leave).rows, env.character, STACKED)
  {
    assert LOG == [LOG[0], LOG[1], LOG[2], LOG[3]];
    ShopOptimized(LOG[0], LOG[1], LOG[2], LOG[3], RemoveItem(13));
    RemovedStaysAway(s.rows, env.character, LOG[1], LOG[3]);
    assert RowOf(env.character, 13, STACKED[13]) !in Step(env, s, Leave).rows;
  }

  /** One move to a free slot, one pick-up that lands in the slot it freed and one move that stacks
      what was moved: the picked-up item is not in the table afterwards. */
  lemma MovedThenStackedLosesAnItem(character: u32)
    ensures
      var env := ShopSetting(character);
      var start := Session(BEFORE, [], [], BEFORE, ShopRows(character));
      var events := [Move(13, 14, 5), Add(Sword(), []), Move(14, 15, 5), Tick, Leave];
      && Matches(start.rows, character, start.items)
      && Runs(env, start, events)
      && After(env, start, events).items == STACKED
      && !Matches(After(env, start, events).rows, character, STACKED)
  {
    var start := Session(BEFORE, [], [], BEFORE, ShopRows(character));
    ShopRowsMatch(character);
    ShopRuns(ShopSetting(character), start, [Move(13, 14, 5), Add(Sword(), []), Move(14, 15, 5), Tick, Leave]);
  }

  lemma ShopRuns(env: Setting, start: Session, events: seq<Event>)
    requires env.cat == ShopCatalogue() && env.size == 45
    requires start.items == BEFORE && start.pending == start.collected == []
    requires events == [Move(13, 14, 5), Add(Sword(), []), Move(14, 15, 5), Tick, Leave]
    ensures Runs(env, start, events) && After(env, start, events).items == STACKED
    ensures !Matches(After(env, start, events).rows, env.character, STACKED)
  {
    MoveFirst(env, start);
    var s1 := Step(env, start, events[0]);
    PickSecond(env, s1);
    var s2 := Step(env, s1, events[1]);
    StackThird(env, s2);
    var s3 := Step(env, s2, events[2]);
    StackedIsStacked(env, s3);
    var s4 := Step(env, s3, events[3]);
    WriteLosesTheSword(env, s4);
    RunsFive(env, start, s1, s2, s3, s4, Step(env, s4, events[4]), events);
  }

  lemma StackedIsStacked(env: Setting, s: Session)
    requires env.cat == ShopCatalogue() && s.items == STACKED && s.pending == LOG && s.collected == []
    ensures Enabled(s, Tick) && Step(env, s, Tick).collected == LOG && Step(env, s, Tick).items == STACKED
    ensures Enabled(Step(env, s, Tick), Leave)
  {
    assert [] + LOG == LOG;
  }

  lemma RunsFive(env: Setting, s0: Session, s1: Session, s2: Session, s3: Session, s4: Session, s5: Session,
                 events: seq<Event>)
    requires |events| == 5
    requires Enabled(s0, events[0]) && s1 == Step(env, s0, events[0])
    requires Enabled(s1, events[1]) && s2 == Step(env, s1, events[1])
    requires Enabled(s2, events[2]) && s3 == Step(env, s2, events[2])
    requires Enabled(s3, events[3]) && s4 == Step(env, s3, events[3])
    requires Enabled(s4, events[4]) && s5 == Step(env, s4, events[4])
    ensures Runs(env, s0, events) && After(env, s0, events) == s5
  {
    var e1, e2, e3, e4, e5 := events[1..], events[2..], events[3..], events[4..], events[5..];
    assert e1[1..] == e2 && e2[1..] == e3 && e3[1..] == e4 && e4[1..] == e5 && e5 == [];
    assert Runs(env, s5, e5) && After(env, s5, e5) == s5;
    assert Runs(env, s4, e4) && After(env, s4, e4) == s5;
    assert Runs(env, s3, e3) && After(env, s3, e3) == s5;
    assert Runs(env, s2, e2) && After(env, s2, e2) == s5;
    assert Runs(env, s1, e1) && After(env, s1, e1) == s5;
  }

  lemma RemovedStaysAway(rows: Rows, character: u32, a: InventoryChange, c: InventoryChange)
    requires c.ChangeTypeData?
    ensures !Holds(ApplyLog(rows, character, [a, RemoveItem(13), c]), character, 13)
  {
    var r := RemoveItem(13);
    var rows1 := Reached(rows, Statements(character, a));
    var rows2 := Removed(rows1, character, 13);
    SingleReached(rows1, Delete(character, 13));
    var stmt := SetData(character, c.slot, UpgradeColumn(c.newItem), AmountColumn(c.newItem));
    var rows3 := Execute(rows2, stmt).value;
    SingleReached(rows2, stmt);
    assert [a, r, c][1..] == [r, c] && [r, c][1..] == [c] && [c][1..] == [];
    assert ApplyLog(rows3, character, []) == rows3;
    assert ApplyLog(rows2, character, [c]) == rows3;
    assert ApplyLog(rows1, character, [r, c]) == rows3;
    assert forall i :: 0 <= i < |rows3| ==>
      rows2[i] in rows2 && rows3[i].slot == rows2[i].slot && rows3[i].character == rows2[i].character;
  }

  lemma SingleReached(rows: Rows, stmt: Statement)
    requires Execute(rows, stmt).Ok?
    ensures Reached(rows, [stmt]) == Execute(rows, stmt).value
  {
    assert [stmt][1..] == [];
    assert Reached(Execute(rows, stmt).value, []) == Execute(rows, stmt).value;
  }
}
