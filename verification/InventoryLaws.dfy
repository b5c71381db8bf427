/** What `move_item` and `add_item` keep: their log tells exactly what happened, stacks stay within
    their maximum, and quantities are conserved. */
module InventoryLaws {
  import opened Wrappers
  import opened Words
  import opened Changes
  import opened InventoryChanges
  import opened Inventories

  // ---------------------------------------------------------------- The log simulates the edit

  /** What stacking adds to the target: what is asked for or what fits, as a signed 16 bit number. */
  function Shift(cat: Catalogue, items: Slots, target: u8, amount: u16): int
    requires target in items && items[target].StackSize() <= cat(items[target].refId)
  {
    var room := cat(items[target].refId) - items[target].StackSize();
    AsI16(if amount <= room then amount else room)
  }

  /** Stacking gives up half way: the target holds more than its maximum, or it cannot change by what it
      should, or the source cannot give what fits. */
  predicate StackingFails(cat: Catalogue, items: Slots, source: u8, target: u8, amount: u16) {
    && Stacks(cat, items, source, target)
    && var room := cat(items[target].refId) - items[target].StackSize();
       (room < 0
        || (room > 0
            && (ChangeStackSize(items[target].typeData, Shift(cat, items, target, amount)).Err?
                || (amount > room && ChangeStackSize(items[source].typeData, -Shift(cat, items, target, amount)).Err?))))
  }

  lemma ReplayOne(items: Slots, a: InventoryChange)
    ensures ReplayChanges(items, [a]) == a.Apply(items)
  {
    ReplayPair(AllKinds(), items, a, a);
  }

  lemma ReplayTwo(items: Slots, a: InventoryChange, b: InventoryChange)
    ensures ReplayChanges(items, [a, b]) == if a.Legal(items) then b.Apply(a.Effect(items)) else None
  {
    ReplayPair(AllKinds(), items, a, b);
  }

  /** The changes a move records turn the old slot map into the new one, unless stacking gives up:
      then both items are gone and no removal was recorded. */
  lemma MoveIsRecorded(cat: Catalogue, items: Slots, source: u8, target: u8, amount: u16)
    ensures var step := MoveStep(cat, items, source, target, amount);
      && (ReplayChanges(items, step.log) == Some(step.items) <==> !StackingFails(cat, items, source, target, amount))
      && (StackingFails(cat, items, source, target, amount) <==> step.answer.Err? && step.answer.error != ItemDoesNotExist)
      && (StackingFails(cat, items, source, target, amount) ==>
            step.items == items - {source, target} && ReplayChanges(items, step.log).Some?)
  {
    var step := MoveStep(cat, items, source, target, amount);
    if |step.log| == 1 {
      ReplayOne(items, step.log[0]);
      assert step.log == [step.log[0]];
    } else if |step.log| == 2 {
      ReplayTwo(items, step.log[0], step.log[1]);
      assert step.log == [step.log[0], step.log[1]];
    }
    if Stacks(cat, items, source, target) {
      StackIsRecorded(cat, items, source, target, amount);
    } else if source in items && target in items && source != target {
      assert items[target := items[source]][source := items[target]]
          == items[source := items[target]][target := items[source]];
    }
  }

  lemma StackIsRecorded(cat: Catalogue, items: Slots, source: u8, target: u8, amount: u16)
    requires Stacks(cat, items, source, target)
    ensures var step := StackStep(cat, items, source, target, amount);
      && (ReplayChanges(items, step.log) == Some(step.items) <==> !StackingFails(cat, items, source, target, amount))
      && ReplayChanges(items, step.log).Some?
  {
    var step := StackStep(cat, items, source, target, amount);
    if step.log == [] {
      assert step.items != items ==> source !in step.items;
    } else if |step.log| == 1 {
      assert step.log == [step.log[0]];
      ReplayOne(items, step.log[0]);
      assert source in step.log[0].Effect(items) && source !in step.items;
    } else {
      assert step.log == [step.log[0], step.log[1]];
      ReplayTwo(items, step.log[0], step.log[1]);
      var mid := step.log[0].Effect(items);
      assert step.log[1].Legal(mid);
      assert step.log[1].Effect(mid) == step.items;
    }
  }

  /** Stacking does give up on what a client may ask for: 45 of 5, onto 10 of at most 50. Both stacks are
      gone, and what was recorded keeps the first and fills the second. */
  lemma BothStacksAreLost(cat: Catalogue, refId: u32)
    requires cat(refId) == 50
    ensures
      var items: Slots := map[13 := Item(refId, None, Consumable(5)), 14 := Item(refId, None, Consumable(10))];
      var step := MoveStep(cat, items, 13, 14, 45);
      && StackingFails(cat, items, 13, 14, 45)
      && step == Outcome(map[], [ChangeTypeData(14, Consumable(10), Consumable(50))], Err(Impossible))
      && Total(items, refId) - Total(step.items, refId) == 15
  {
    var items: Slots := map[13 := Item(refId, None, Consumable(5)), 14 := Item(refId, None, Consumable(10))];
    assert items - {13, 14} == map[];
    MoveAccounts(cat, items, 13, 14, 45, refId);
  }

  /** A swap of a slot with itself is never recorded: `move_item` records a move for it. */
  lemma RecordedSwapsAreProper(cat: Catalogue, items: Slots, source: u8, target: u8, amount: u16)
    ensures forall c <- MoveStep(cat, items, source, target, amount).log :: c.Swap? ==> c.first != c.second
  {
  }

  lemma PlaceIsRecorded(size: nat, items: Slots, item: Item)
    ensures var step := PlaceStep(size, items, item); ReplayChanges(items, step.log) == Some(step.items)
  {
    var free := EmptySlot(size, items);
    if free.Some? {
      ReplayOne(items, AddItem(free.value, item));
    }
  }

  /** The changes an addition records turn the old slot map into the new one, in whatever order the
      hash map lists the matching slots. */
  lemma AddIsRecorded(cat: Catalogue, size: nat, items: Slots, item: Item, order: seq<u8>)
    requires Lists(order, SlotsMatching(items, item))
    ensures var step := AddStep(cat, size, items, item, order);
      && ReplayChanges(items, step.log) == Some(step.items)
      && (forall i :: 0 <= i < |step.log| ==> step.log[i].OneSlot())
  {
    PlaceIsRecorded(size, items, item);
    if cat(item.refId) > 1 && FirstOpen(cat, items, order).Some? {
      FillIsRecorded(cat, size, items, item, FirstOpen(cat, items, order).value);
    }
  }

  lemma FillIsRecorded(cat: Catalogue, size: nat, items: Slots, item: Item, slot: u8)
    requires slot in items
    ensures var step := FillStep(cat, size, items, item, slot);
      && ReplayChanges(items, step.log) == Some(step.items)
      && (forall i :: 0 <= i < |step.log| ==> step.log[i].OneSlot())
  {
    var step := FillStep(cat, size, items, item, slot);
    if step.log != [] {
      var change := step.log[0];
      var filled := change.Effect(items);
      ReplayOne(items, change);
      if |step.log| == 1 {
        assert step.log == [change];
      } else {
        var rest := item.(typeData := Consumable(items[slot].typeData.amount + item.typeData.amount - cat(item.refId)));
        PlaceIsRecorded(size, filled, rest);
        ReplayConcat(AllKinds(), items, [change], PlaceStep(size, filled, rest).log);
      }
    }
  }

  // ---------------------------------------------------------------- Stack limits

  lemma MoveKeepsStacks(cat: Catalogue, items: Slots, source: u8, target: u8, amount: u16)
    requires AllWellStacked(cat, items)
    ensures AllWellStacked(cat, MoveStep(cat, items, source, target, amount).items)
    ensures forall slot: u8 :: slot != source && slot != target ==>
      SameAt(items, MoveStep(cat, items, source, target, amount).items, slot)
  {
    if source in items { assert WellStacked(cat, items[source]); }
    if target in items { assert WellStacked(cat, items[target]); }
  }

  /** Additions keep every stack within its maximum, change no more than the first open stack and
      create an entry only in an inventory slot that was free. */
  lemma AddKeepsStacks(cat: Catalogue, size: nat, items: Slots, item: Item, order: seq<u8>)
    requires AllWellStacked(cat, items) && WellStacked(cat, item)
    requires Lists(order, SlotsMatching(items, item))
    ensures var after := AddStep(cat, size, items, item, order).items;
      && AllWellStacked(cat, after)
      && items.Keys <= after.Keys
      && (forall slot <- after :: slot !in items ==> LAST_EQUIPMENT_SLOT < slot < size % 0x100)
      && (forall slot <- items :: after[slot] != items[slot] ==> slot in order && !MaxStacked(cat, items[slot]))
  {
    if cat(item.refId) > 1 && FirstOpen(cat, items, order).Some? {
      var slot := FirstOpen(cat, items, order).value;
      assert slot in SlotsMatching(items, item) && WellStacked(cat, items[slot]);
    }
  }

  // ---------------------------------------------------------------- Quantities

  /** How much of an item id one slot holds. */
  function Quantity(items: Slots, refId: u32, slot: int): nat {
    if slot in items && items[slot].refId == refId then items[slot].StackSize() else 0
  }

  function TotalBelow(items: Slots, refId: u32, n: nat): nat {
    if n == 0 then 0 else TotalBelow(items, refId, n - 1) + Quantity(items, refId, n - 1)
  }

  /** How much of an item id the 256 addressable slots hold together. */
  function Total(items: Slots, refId: u32): nat {
    TotalBelow(items, refId, 0x100)
  }

  /** The share of two slots in a total. */
  function Share(items: Slots, refId: u32, a: u8, b: u8, n: nat): nat {
    (if a < n then Quantity(items, refId, a) else 0) + (if b != a && b < n then Quantity(items, refId, b) else 0)
  }

  lemma {:induction false} TotalDiffers(items: Slots, items': Slots, refId: u32, a: u8, b: u8, n: nat)
    requires n <= 0x100
    requires forall slot: u8 :: slot != a && slot != b ==> Quantity(items, refId, slot) == Quantity(items', refId, slot)
    ensures TotalBelow(items', refId, n) - TotalBelow(items, refId, n)
         == Share(items', refId, a, b, n) - Share(items, refId, a, b, n)
  {
    if n > 0 {
      TotalDiffers(items, items', refId, a, b, n - 1);
      var last: u8 := n - 1;
      if last != a && last != b {
        assert Quantity(items, refId, last) == Quantity(items', refId, last);
      }
    }
  }

  /** What a move takes out of the game, or brings into it when negative: when all that was asked for fits,
      the source stack goes and what was asked for comes, whatever the source held; when stacking gives up,
      both stacks go. */
  function MoveLoss(cat: Catalogue, items: Slots, source: u8, target: u8, amount: u16): int {
    if !Stacks(cat, items, source, target) then 0
    else if StackingFails(cat, items, source, target, amount) then items[source].StackSize() + items[target].StackSize()
    else
      var room := cat(items[target].refId) - items[target].StackSize();
      if 0 < room && amount <= room then items[source].StackSize() - AsI16(amount) else 0
  }

  lemma MoveLeavesOthers(cat: Catalogue, items: Slots, source: u8, target: u8, amount: u16, slot: u8)
    requires slot != source && slot != target
    ensures SameAt(items, MoveStep(cat, items, source, target, amount).items, slot)
  {
  }

  /** What the two slots hold of an id after stacking. */
  lemma StackAccounts(cat: Catalogue, items: Slots, source: u8, target: u8, amount: u16, refId: u32)
    requires Stacks(cat, items, source, target)
    ensures var after := StackStep(cat, items, source, target, amount).items;
      Quantity(after, refId, source) + Quantity(after, refId, target)
        == Quantity(items, refId, source) + Quantity(items, refId, target)
           - (if items[source].refId == refId then MoveLoss(cat, items, source, target, amount) else 0)
  {
  }

  lemma PairAccounts(cat: Catalogue, items: Slots, source: u8, target: u8, amount: u16, refId: u32)
    ensures var after := MoveStep(cat, items, source, target, amount).items;
      Share(after, refId, source, target, 0x100) == Share(items, refId, source, target, 0x100)
        - (if source in items && items[source].refId == refId then MoveLoss(cat, items, source, target, amount) else 0)
  {
    if Stacks(cat, items, source, target) {
      StackAccounts(cat, items, source, target, amount, refId);
    }
  }

  /** Every move, exactly: totals of other ids stay, the total of the moved id falls by `MoveLoss`. */
  lemma MoveAccounts(cat: Catalogue, items: Slots, source: u8, target: u8, amount: u16, refId: u32)
    ensures Total(MoveStep(cat, items, source, target, amount).items, refId) == Total(items, refId)
      - (if source in items && items[source].refId == refId then MoveLoss(cat, items, source, target, amount) else 0)
  {
    var after := MoveStep(cat, items, source, target, amount).items;
    forall slot: u8 | slot != source && slot != target
      ensures Quantity(items, refId, slot) == Quantity(after, refId, slot)
    {
      MoveLeavesOthers(cat, items, source, target, amount, slot);
    }
    TotalDiffers(items, after, refId, source, target, 0x100);
    PairAccounts(cat, items, source, target, amount, refId);
  }

  /** When a move conserves: it stacks nothing; or nothing or less than asked for fits; or exactly the source
      stack is asked for (below the cast to 16 signed bits); or there was nothing to lose when it gave up. */
  predicate Conserving(cat: Catalogue, items: Slots, source: u8, target: u8, amount: u16) {
    if !Stacks(cat, items, source, target) then true
    else if StackingFails(cat, items, source, target, amount) then
      items[source].StackSize() == items[target].StackSize() == 0
    else
      var room := cat(items[target].refId) - items[target].StackSize();
      room == 0 || amount > room || (amount == items[source].StackSize() && amount < 0x8000)
  }

  /** A move keeps the total of every id if and only if it is conserving. */
  lemma MoveConservesExactly(cat: Catalogue, items: Slots, source: u8, target: u8, amount: u16)
    ensures (forall refId: u32 :: Total(MoveStep(cat, items, source, target, amount).items, refId) == Total(items, refId))
      <==> Conserving(cat, items, source, target, amount)
  {
    forall refId: u32
      ensures Total(MoveStep(cat, items, source, target, amount).items, refId) == Total(items, refId)
        - (if source in items && items[source].refId == refId then MoveLoss(cat, items, source, target, amount) else 0)
    {
      MoveAccounts(cat, items, source, target, amount, refId);
    }
    assert MoveLoss(cat, items, source, target, amount) == 0 <==> Conserving(cat, items, source, target, amount);
    if source in items {
      var moved := items[source].refId;
      assert Total(MoveStep(cat, items, source, target, amount).items, moved) == Total(items, moved)
        <==> MoveLoss(cat, items, source, target, amount) == 0;
    }
  }

  /** A client that asks for more than it holds gets it, where it fits: 20 of 5, onto 10 of at most 50. */
  lemma ItemsAreCreated(cat: Catalogue, refId: u32)
    requires cat(refId) == 50
    ensures
      var items: Slots := map[13 := Item(refId, None, Consumable(5)), 14 := Item(refId, None, Consumable(10))];
      var step := MoveStep(cat, items, 13, 14, 20);
      && step.items == map[14 := Item(refId, None, Consumable(30))] && step.answer == Ok(20)
      && Total(step.items, refId) == Total(items, refId) + 15
  {
    var items: Slots := map[13 := Item(refId, None, Consumable(5)), 14 := Item(refId, None, Consumable(10))];
    assert (items - {13})[14 := Item(refId, None, Consumable(30))] == map[14 := Item(refId, None, Consumable(30))];
    MoveAccounts(cat, items, 13, 14, 20, refId);
  }

  /** Moving a whole stack of a kind whose stacks are consumable conserves every quantity. */
  lemma FullMoveConserves(cat: Catalogue, items: Slots, source: u8, target: u8, refId: u32)
    requires AllWellStacked(cat, items)
    requires forall slot <- items :: cat(items[slot].refId) > 1 ==> items[slot].typeData.Consumable?
    requires source in items
    ensures Total(MoveStep(cat, items, source, target, items[source].StackSize()).items, refId) == Total(items, refId)
  {
    assert WellStacked(cat, items[source]);
    assert target in items ==> WellStacked(cat, items[target]);
    MoveAccounts(cat, items, source, target, items[source].StackSize(), refId);
  }

  /** What an addition adds: the item when it answers a slot, what the open stack still took when it answers
      None, nothing when it overflows. */
  function Gain(cat: Catalogue, items: Slots, item: Item, open: Option<u8>, answer: Result<Option<u8>, MoveError>): int
    requires open.Some? ==> open.value in items
  {
    if answer.Err? then 0
    else if answer.value.Some? then item.StackSize()
    else if open.Some? && items[open.value].typeData.Consumable? && item.typeData.Consumable?
      then cat(item.refId) - items[open.value].typeData.amount
    else 0
  }

  /** The stack that an addition tries to fill. */
  function OpenStack(cat: Catalogue, items: Slots, item: Item, order: seq<u8>): (r: Option<u8>)
    requires forall slot <- order :: slot in items
    ensures r.Some? ==> r.value in items && r.value in order
  {
    if cat(item.refId) <= 1 then None else FirstOpen(cat, items, order)
  }

  /** Every addition, exactly; one that answers None adds strictly less than the item (unless there was
      nothing to add). Other ids keep their totals. */
  lemma AddAccounts(cat: Catalogue, size: nat, items: Slots, item: Item, order: seq<u8>, refId: u32)
    requires Lists(order, SlotsMatching(items, item))
    ensures var step := AddStep(cat, size, items, item, order);
      var gain := Gain(cat, items, item, OpenStack(cat, items, item, order), step.answer);
      && Total(step.items, refId) == Total(items, refId) + (if refId == item.refId then gain else 0)
      && (step.answer == Ok(None) ==> 0 <= gain && (item.StackSize() > 0 ==> gain < item.StackSize()))
  {
    var open := OpenStack(cat, items, item, order);
    if open.Some? {
      assert open.value in SlotsMatching(items, item);
      FillAccounts(cat, size, items, item, open.value, refId);
    } else {
      PlaceAccounts(size, items, item, refId);
    }
  }

  lemma PlaceAccounts(size: nat, items: Slots, item: Item, refId: u32)
    ensures var step := PlaceStep(size, items, item);
      Total(step.items, refId) == Total(items, refId) +
        (if refId == item.refId && step.answer.value.Some? then item.StackSize() else 0)
  {
    var step := PlaceStep(size, items, item);
    if step.answer.value.Some? {
      TotalDiffers(items, step.items, refId, step.answer.value.value, step.answer.value.value, 0x100);
    }
  }

  lemma FillAccounts(cat: Catalogue, size: nat, items: Slots, item: Item, slot: u8, refId: u32)
    requires slot in items && items[slot].refId == item.refId && !MaxStacked(cat, items[slot])
    ensures var step := FillStep(cat, size, items, item, slot);
      var gain := Gain(cat, items, item, Some(slot), step.answer);
      && Total(step.items, refId) == Total(items, refId) + (if refId == item.refId then gain else 0)
      && (step.answer == Ok(None) ==> 0 <= gain && (item.StackSize() > 0 ==> gain < item.StackSize()))
  {
    var step := FillStep(cat, size, items, item, slot);
    if step.log != [] {
      var filled := step.log[0].Effect(items);
      TotalDiffers(items, filled, refId, slot, slot, 0x100);
      var sum := items[slot].typeData.amount + item.typeData.amount;
      if sum > cat(item.refId) {
        PlaceAccounts(size, filled, item.(typeData := Consumable(sum - cat(item.refId))), refId);
      }
    }
  }
}
