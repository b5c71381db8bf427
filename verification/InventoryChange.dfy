/** Items, the five kinds of inventory change and their merge table
    (silkroad-game-base/src/inventory.rs), with the effect each change has on a slot map. */
module InventoryChanges {
  import opened Wrappers
  import opened Words
  import opened Changes

  datatype ItemTypeData =
    | Equipment(upgradeLevel: u8)
    | COS
    | Consumable(amount: u16)
    | Gold(goldAmount: u32)

  /** The static reference data of an item is found by its id; two references are equal when
      their ids are. */
  datatype Item = Item(refId: u32, variance: Option<u64>, typeData: ItemTypeData) {
    function StackSize(): u16 {
      if typeData.Consumable? then typeData.amount else 1
    }
  }

  type Slots = map<u8, Item>

  datatype InventoryChange =
    | AddItem(slot: u8, item: Item)
    | ChangeTypeData(slot: u8, oldItem: ItemTypeData, newItem: ItemTypeData)
    | MoveItem(source: u8, target: u8)
    | RemoveItem(slot: u8)
    | Swap(first: u8, second: u8)
  {
    /** `InventoryChange::merge`, arm by arm. */
    function Merge(other: InventoryChange): MergeResult<InventoryChange> {
      match this
      case AddItem(slot, item) => (
        match other
        case AddItem(newSlot, _) =>
          if slot == newSlot then Merged(other) else Unchanged(this, other)
        case MoveItem(source, target) =>
          if source == slot then Merged(AddItem(target, item)) else Unchanged(this, other)
        case RemoveItem(removed) =>
          if slot == removed then Cancelled else Unchanged(this, other)
        case ChangeTypeData(changed, oldItem, newItem) =>
          if slot == changed && item.typeData == oldItem
          then Merged(AddItem(slot, item.(typeData := newItem)))
          else Unchanged(this, other)
        case Swap(first, second) =>
          if first == slot || second == slot then Incompatible(this, other) else Unchanged(this, other))
      case RemoveItem(slot) => (
        match other
        case AddItem(newSlot, _) =>
          if slot == newSlot then Incompatible(this, other) else Unchanged(this, other)
        case RemoveItem(removed) =>
          if slot == removed then Incompatible(this, other) else Unchanged(this, other)
        case MoveItem(source, _) =>
          if slot == source then Incompatible(this, other) else Unchanged(this, other)
        case ChangeTypeData(changed, _, _) =>
          if slot == changed then Incompatible(this, other) else Unchanged(this, other)
        case Swap(first, second) =>
          if first == slot || second == slot then Incompatible(this, other) else Unchanged(this, other))
      case MoveItem(source, target) => (
        match other
        case AddItem(slot, _) =>
          if target == slot then Incompatible(this, other) else Unchanged(this, other)
        case MoveItem(newSource, newTarget) =>
          if target == newSource then Merged(MoveItem(source, newTarget)) else Unchanged(this, other)
        case RemoveItem(slot) =>
          if slot == target then Merged(RemoveItem(source)) else Unchanged(this, other)
        case Swap(first, second) =>
          if second == target || first == target || second == source || first == source
          then Incompatible(this, other) else Unchanged(this, other)
        case ChangeTypeData(_, _, _) => Unchanged(this, other))
      case ChangeTypeData(slot, oldItem, newItem) => (
        match other
        case ChangeTypeData(otherSlot, changedOld, changedNew) =>
          if slot != otherSlot then Unchanged(this, other)
          else if newItem == changedOld then Merged(ChangeTypeData(slot, oldItem, changedNew))
          else Incompatible(this, other)
        case MoveItem(source, _) =>
          if source == slot then Incompatible(this, other) else Unchanged(this, other)
        case RemoveItem(removed) =>
          if slot == removed then Merged(other) else Unchanged(this, other)
        case Swap(first, second) =>
          if first == slot || second == slot then Incompatible(this, other) else Unchanged(this, other)
        case AddItem(_, _) => Unchanged(this, other))
      case Swap(first, second) => (
        match other
        case AddItem(slot, _) =>
          if slot == first || slot == second then Incompatible(this, other) else Unchanged(this, other)
        case ChangeTypeData(slot, _, _) =>
          if slot == first || slot == second then Incompatible(this, other) else Unchanged(this, other)
        case RemoveItem(slot) =>
          if slot == first || slot == second then Incompatible(this, other) else Unchanged(this, other)
        case MoveItem(source, target) =>
          if first == source || first == target || second == source || second == target
          then Incompatible(this, other) else Unchanged(this, other)
        case Swap(otherFirst, otherSecond) =>
          if (first == otherFirst && second == otherFirst) || (first == otherSecond && second == otherFirst)
          then Cancelled
          else if first == otherFirst || first == otherSecond || second == otherFirst || second == otherSecond
          then Incompatible(this, other)
          else Unchanged(this, other))
    }

    /** The slots a change reads or writes. */
    function Footprint(): set<u8> {
      match this
      case AddItem(slot, _) => {slot}
      case ChangeTypeData(slot, _, _) => {slot}
      case MoveItem(source, target) => {source, target}
      case RemoveItem(slot) => {slot}
      case Swap(first, second) => {first, second}
    }

    /** The change concerns one slot only. */
    predicate OneSlot() {
      AddItem? || ChangeTypeData? || RemoveItem?
    }

    /** A change that fits the occupied slots: nothing is overwritten and nothing absent is touched. */
    predicate Fits(items: Slots) {
      match this
      case AddItem(slot, _) => slot !in items
      case ChangeTypeData(slot, _, _) => slot in items
      case MoveItem(source, target) => source in items && (target !in items || target == source)
      case RemoveItem(slot) => slot in items
      case Swap(first, second) => first in items && second in items
    }

    /** A change that the slot map can undergo: it fits, and the data it starts from is the data that is
        there. */
    predicate Legal(items: Slots) {
      Fits(items) && (ChangeTypeData? ==> items[slot].typeData == oldItem)
    }

    function Effect(items: Slots): Slots
      requires Fits(items)
    {
      match this
      case AddItem(slot, item) => items[slot := item]
      case ChangeTypeData(slot, _, newItem) => items[slot := items[slot].(typeData := newItem)]
      case MoveItem(source, target) => (items - {source})[target := items[source]]
      case RemoveItem(slot) => items - {slot}
      case Swap(first, second) => items[first := items[second]][second := items[first]]
    }

    function Apply(items: Slots): Option<Slots> {
      if Legal(items) then Some(Effect(items)) else None
    }

    /** The same for replaying that looks at slots only, as statements on a table do. */
    function ApplyFitting(items: Slots): Option<Slots> {
      if Fits(items) then Some(Effect(items)) else None
    }
  }

  function MergeChanges(a: InventoryChange, b: InventoryChange): MergeResult<InventoryChange> {
    a.Merge(b)
  }

  /** All five kinds acting on slot maps. The key is only meaningful for one-slot changes. */
  function AllKinds(): Algebra<Slots, InventoryChange, u8> {
    Algebra(MergeChanges, (items: Slots, c: InventoryChange) => c.Apply(items), KeySlot)
  }

  /** The same, judged by the slots only. */
  function FittingKinds(): Algebra<Slots, InventoryChange, u8> {
    Algebra(MergeChanges, (items: Slots, c: InventoryChange) => c.ApplyFitting(items), KeySlot)
  }

  /** All kinds with moves and swaps never legal. */
  function OneSlotKinds(): Algebra<Slots, InventoryChange, u8> {
    Algebra(MergeChanges, (items: Slots, c: InventoryChange) => if c.OneSlot() then c.Apply(items) else None, KeySlot)
  }

  function KeySlot(c: InventoryChange): u8 {
    if c.MoveItem? then c.source else if c.Swap? then c.first else c.slot
  }

  function ReplayChanges(items: Slots, log: seq<InventoryChange>): Option<Slots> {
    Replay(AllKinds(), items, log)
  }

  function ReplayFitting(items: Slots, log: seq<InventoryChange>): Option<Slots> {
    Replay(FittingKinds(), items, log)
  }

  /** A legal log fits, and does the same. */
  lemma {:induction false} LegalFits(items: Slots, log: seq<InventoryChange>)
    requires ReplayChanges(items, log).Some?
    ensures ReplayFitting(items, log) == ReplayChanges(items, log)
    decreases log
  {
    if log != [] {
      LegalFits(log[0].Effect(items), log[1..]);
    }
  }

  function OptimizeChanges(log: seq<InventoryChange>): seq<InventoryChange> {
    Optimized(MergeChanges, log)
  }

  // ---------------------------------------------------------------- The merge table is locally sound

  /** What the documentation of `merge` promises about one answer, for two changes that are legal
      in sequence on `items`. */
  ghost predicate AnswerKeepsEffect(items: Slots, a: InventoryChange, b: InventoryChange) {
    match a.Merge(b)
    case Merged(c) => c.Apply(items) == Two(AllKinds(), items, a, b)
    case Cancelled => Two(AllKinds(), items, a, b) == Some(items)
    case Unchanged(left, right) => left == a && right == b
    case Incompatible(left, right) => left == a && right == b
  }

  /** A swap of a slot with itself, followed by a proper swap of that slot. The table compares
      `first` with `other_first` twice and answers Cancelled. */
  predicate SelfSwapThenSwap(items: Slots, a: InventoryChange, b: InventoryChange) {
    a.Swap? && b.Swap? && a.first == a.second == b.first
    && b.first in items && b.second in items && items[b.first] != items[b.second]
  }

  /** Over all five kinds and all slot maps, the table is right about a legal pair exactly when the
      pair is not that one. */
  lemma MergeTableSound(items: Slots, a: InventoryChange, b: InventoryChange)
    requires Two(AllKinds(), items, a, b).Some?
    ensures AnswerKeepsEffect(items, a, b) <==> !SelfSwapThenSwap(items, a, b)
  {
    var mid := a.Effect(items);
    var end := b.Effect(mid);
    assert Two(AllKinds(), items, a, b) == Some(end);
    match a {
      case AddItem(slot, item) =>
        if b.MoveItem? && b.source == slot {
          assert items[b.target := item] == end;
        } else if b.RemoveItem? && b.slot == slot {
          assert end == items;
        } else if b.ChangeTypeData? && b.slot == slot {
          assert items[slot := item.(typeData := b.newItem)] == end;
        }
      case RemoveItem(_) =>
      case MoveItem(source, target) =>
        if b.MoveItem? && target == b.source {
          assert (items - {source})[b.target := items[source]] == end;
        } else if b.RemoveItem? && b.slot == target {
          assert items - {source} == end;
        }
      case ChangeTypeData(slot, oldItem, _) =>
        if b.ChangeTypeData? && b.slot == slot {
          assert items[slot := items[slot].(typeData := b.newItem)] == end;
        } else if b.RemoveItem? && b.slot == slot {
          assert items - {slot} == end;
        }
      case Swap(first, second) =>
        if a.Merge(b).Cancelled? {
          if first == second {
            assert mid == items;
            assert end[b.first] == items[b.second];
            if items[b.first] == items[b.second] {
              assert end == items;
            }
          } else {
            assert end == items;
          }
        }
    }
  }

  // ---------------------------------------------------------------- Which answer is given

  /** The slots in which a change leaves something to go on with, and those that it starts from. */
  function Ends(c: InventoryChange): set<u8> {
    if c.MoveItem? then {c.target} else c.Footprint()
  }

  function Starts(c: InventoryChange): set<u8> {
    if c.MoveItem? then {c.source} else c.Footprint()
  }

  /** The table looks at a pair when the second change starts where the first one ends, or - a swap and a move -
      when they share any slot. It passes over three kinds of pair: a data change behind a move, an addition
      behind a data change, and a data change that starts from other data than was added. */
  predicate LooksAt(a: InventoryChange, b: InventoryChange) {
    if (a.Swap? && b.MoveItem?) || (a.MoveItem? && b.Swap?) then a.Footprint() * b.Footprint() != {}
    else if (a.MoveItem? && b.ChangeTypeData?) || (a.ChangeTypeData? && b.AddItem?) then false
    else if a.AddItem? && b.ChangeTypeData? && a.item.typeData != b.oldItem then false
    else Ends(a) * Starts(b) != {}
  }

  /** One pair of swaps undoes the other, or is taken to. */
  predicate TakenForUndone(a: InventoryChange, b: InventoryChange) {
    a.Swap? && b.Swap? && a.second == b.first && (a.first == b.second || a.first == b.first)
  }

  /** One change does for both: an added item is replaced, moved on or changed; a moved item is moved on or
      removed; changed data is changed again or its item removed. */
  predicate OneChangeDoes(a: InventoryChange, b: InventoryChange) {
    match a
    case AddItem(_, _) => b.AddItem? || b.MoveItem? || b.ChangeTypeData?
    case MoveItem(_, _) => b.MoveItem? || b.RemoveItem?
    case ChangeTypeData(_, _, newItem) => b.RemoveItem? || (b.ChangeTypeData? && newItem == b.oldItem)
    case RemoveItem(_) => false
    case Swap(_, _) => false
  }

  /** Every pair of changes, legal or not: which of the four answers it gets. */
  lemma MergeAnswers(a: InventoryChange, b: InventoryChange)
    ensures a.Merge(b).Unchanged? <==> !LooksAt(a, b)
    ensures a.Merge(b).Cancelled? <==> LooksAt(a, b) && ((a.AddItem? && b.RemoveItem?) || TakenForUndone(a, b))
    ensures a.Merge(b).Merged? <==> LooksAt(a, b) && OneChangeDoes(a, b)
    ensures a.Merge(b).Unchanged? ==> a.Merge(b) == Unchanged(a, b)
    ensures a.Merge(b).Incompatible? ==> a.Merge(b) == Incompatible(a, b)
  {
    match a {
      case AddItem(slot, _) => SharedSlots({slot}, slot, slot, b);
      case RemoveItem(slot) => SharedSlots({slot}, slot, slot, b);
      case MoveItem(source, target) =>
        SharedSlots({target}, target, target, b);
        SharedSlots({source, target}, source, target, b);
      case ChangeTypeData(slot, _, _) => SharedSlots({slot}, slot, slot, b);
      case Swap(first, second) => SharedSlots({first, second}, first, second, b);
    }
  }

  lemma SharedSlots(slots: set<u8>, first: u8, second: u8, b: InventoryChange)
    requires slots == {first, second}
    ensures slots * Starts(b) != {} <==> first in Starts(b) || second in Starts(b)
    ensures slots * b.Footprint() != {} <==> first in b.Footprint() || second in b.Footprint()
  {
    assert first in Starts(b) ==> first in slots * Starts(b);
    assert second in Starts(b) ==> second in slots * Starts(b);
    assert first in b.Footprint() ==> first in slots * b.Footprint();
    assert second in b.Footprint() ==> second in slots * b.Footprint();
  }

  /** Pairs that share a slot and are left alone all the same: something is put where a move took something
      away, a moved item's data changes, or something is moved to where something was removed. */
  predicate LeftAlone(a: InventoryChange, b: InventoryChange) {
    || (a.MoveItem? && b.AddItem? && b.slot == a.source)
    || (a.MoveItem? && b.MoveItem? && b.target == a.source && b.source != a.target)
    || (a.MoveItem? && b.ChangeTypeData? && b.slot == a.target)
    || (a.RemoveItem? && b.MoveItem? && b.target == a.slot)
  }

  /** A legal pair is left alone if and only if its slots are separate or it is one of those pairs, which all
      have a move in them. */
  lemma UnchangedExactly(items: Slots, a: InventoryChange, b: InventoryChange)
    requires Two(AllKinds(), items, a, b).Some?
    ensures a.Merge(b).Unchanged? <==> a.Footprint() !! b.Footprint() || LeftAlone(a, b)
    ensures LeftAlone(a, b) ==> a.MoveItem? || b.MoveItem?
  {
    assert a.Legal(items) && b.Legal(a.Effect(items));
    MergeAnswers(a, b);
    SharedFootprint(a, b);
    match a {
      case AddItem(_, _) =>
      case RemoveItem(_) =>
      case MoveItem(_, _) =>
      case ChangeTypeData(_, _, _) =>
      case Swap(_, _) =>
    }
  }

  lemma SharedFootprint(a: InventoryChange, b: InventoryChange)
    ensures a.Footprint() !! b.Footprint() <==> a.Footprint() * b.Footprint() == {}
    ensures a.Footprint() !! b.Footprint() ==> Ends(a) * Starts(b) == {}
  {
    assert forall slot: u8 :: slot in a.Footprint() && slot in b.Footprint() ==> slot in a.Footprint() * b.Footprint();
    assert Ends(a) <= a.Footprint() && Starts(b) <= b.Footprint();
    assert forall slot <- Ends(a) * Starts(b) :: slot in a.Footprint() && slot in b.Footprint();
  }

  /** What a merged or cancelled pair does to the slots, whatever data it starts from. */
  lemma FoldFits(items: Slots, a: InventoryChange, b: InventoryChange)
    requires a.Fits(items) && b.Fits(a.Effect(items)) && !SelfSwapThenSwap(items, a, b)
    ensures a.Merge(b).Merged? ==> a.Merge(b).merged.ApplyFitting(items) == Some(b.Effect(a.Effect(items)))
    ensures a.Merge(b).Cancelled? ==> b.Effect(a.Effect(items)) == items
  {
    if a.ChangeTypeData? {
      if b.ChangeTypeData? && b.slot == a.slot {
        assert items[a.slot := items[a.slot].(typeData := b.newItem)] == b.Effect(a.Effect(items));
      } else if b.RemoveItem? && b.slot == a.slot {
        assert items - {a.slot} == b.Effect(a.Effect(items));
      }
    } else if a.Legal(items) && b.Legal(a.Effect(items)) {
      assert Two(AllKinds(), items, a, b) == Some(b.Effect(a.Effect(items)));
      MergeTableSound(items, a, b);
    }
  }

  ghost predicate SameAt(items: Slots, items': Slots, slot: u8) {
    (slot in items <==> slot in items') && (slot in items ==> items[slot] == items'[slot])
  }

  /** A change leaves every slot outside its footprint alone, and what it does depends on its
      footprint only. */
  lemma EffectIsLocal(items: Slots, items': Slots, c: InventoryChange)
    requires forall slot <- c.Footprint() :: SameAt(items, items', slot)
    ensures (c.Legal(items) <==> c.Legal(items')) && (c.Fits(items) <==> c.Fits(items'))
    ensures c.Fits(items) ==>
      && (forall slot: u8 :: slot !in c.Footprint() ==> SameAt(items, c.Effect(items), slot))
      && (forall slot <- c.Footprint() :: SameAt(c.Effect(items), c.Effect(items'), slot))
  {
    match c {
      case AddItem(slot, _) => assert SameAt(items, items', slot);
      case ChangeTypeData(slot, _, _) => assert SameAt(items, items', slot);
      case MoveItem(source, target) => assert SameAt(items, items', source) && SameAt(items, items', target);
      case RemoveItem(slot) => assert SameAt(items, items', slot);
      case Swap(first, second) => assert SameAt(items, items', first) && SameAt(items, items', second);
    }
  }

  /** Changes with separate footprints commute. */
  lemma DisjointCommute(items: Slots, a: InventoryChange, b: InventoryChange)
    requires a.Footprint() !! b.Footprint()
    ensures Two(AllKinds(), items, a, b) == Two(AllKinds(), items, b, a)
    ensures Two(FittingKinds(), items, a, b) == Two(FittingKinds(), items, b, a)
  {
    EffectIsLocal(items, items, a);
    EffectIsLocal(items, items, b);
    if a.Fits(items) {
      EffectIsLocal(items, a.Effect(items), b);
    }
    if b.Fits(items) {
      EffectIsLocal(items, b.Effect(items), a);
    }
    if a.Fits(items) && b.Fits(items) {
      DisjointEffects(items, a, b);
    }
  }

  lemma DisjointEffects(items: Slots, a: InventoryChange, b: InventoryChange)
    requires a.Footprint() !! b.Footprint() && a.Fits(items) && b.Fits(items)
    requires a.Fits(b.Effect(items)) && b.Fits(a.Effect(items))
    ensures b.Effect(a.Effect(items)) == a.Effect(b.Effect(items))
  {
    var ab, ba := b.Effect(a.Effect(items)), a.Effect(b.Effect(items));
    EffectIsLocal(items, items, a);
    EffectIsLocal(items, items, b);
    EffectIsLocal(items, a.Effect(items), b);
    EffectIsLocal(items, b.Effect(items), a);
    EffectIsLocal(a.Effect(items), a.Effect(items), b);
    EffectIsLocal(b.Effect(items), b.Effect(items), a);
    forall slot: u8 ensures SameAt(ab, ba, slot) {
      if slot in a.Footprint() {
        assert SameAt(a.Effect(items), ab, slot) && SameAt(a.Effect(items), ba, slot);
      } else if slot in b.Footprint() {
        assert SameAt(b.Effect(items), ba, slot) && SameAt(b.Effect(items), ab, slot);
      } else {
        assert SameAt(items, a.Effect(items), slot) && SameAt(a.Effect(items), ab, slot);
        assert SameAt(items, b.Effect(items), slot) && SameAt(b.Effect(items), ba, slot);
      }
    }
    SameEverywhere(ab, ba);
  }

  lemma SameEverywhere(items: Slots, items': Slots)
    requires forall slot: u8 :: SameAt(items, items', slot)
    ensures items == items'
  {
    assert forall slot: u8 :: slot in items ==> SameAt(items, items', slot);
    assert forall slot: u8 :: slot in items' ==> SameAt(items, items', slot);
  }

  predicate SelfMove(c: InventoryChange) {
    c.MoveItem? && c.source == c.target
  }

  /** What the answer Unchanged is worth: two changes that the table leaves alone are indifferent to
      their order exactly when their slots are separate or the first is a move onto itself. */
  lemma UnchangedCommutes(items: Slots, a: InventoryChange, b: InventoryChange)
    requires Two(AllKinds(), items, a, b).Some? && a.Merge(b).Unchanged?
    ensures Two(AllKinds(), items, a, b) == Two(AllKinds(), items, b, a) <==>
      a.Footprint() !! b.Footprint() || SelfMove(a)
  {
    if a.Footprint() !! b.Footprint() {
      DisjointCommute(items, a, b);
    } else if SelfMove(a) {
      SelfMoveDoesNothing(items, a);
      SelfMoveDoesNothing(b.Effect(items), a);
    }
  }

  lemma SelfMoveDoesNothing(items: Slots, a: InventoryChange)
    requires SelfMove(a) && a.Legal(items)
    ensures a.Effect(items) == items
  {
  }
}
