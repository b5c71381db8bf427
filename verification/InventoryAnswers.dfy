/** What `move_item` and `add_item` answer and record, told from the slot maps before and after. */
module InventoryAnswers {
  import opened Wrappers
  import opened Words
  import opened InventoryChanges
  import opened Inventories

  // ---------------------------------------------------------------- Moves

  /** Two items of one stackable id in two slots. */
  predicate StackOnStack(cat: Catalogue, items: Slots, source: u8, target: u8) {
    && source in items && target in items && source != target
    && items[source].refId == items[target].refId && cat(items[target].refId) > 1
  }

  /** The answer of a move: without stacking what was asked for; with stacking, below the cast to 16 signed
      bits, exactly what the target gained. */
  lemma AnswerIsWhatMoved(cat: Catalogue, items: Slots, source: u8, target: u8, amount: u16)
    ensures var step := MoveStep(cat, items, source, target, amount);
      && (source in items && !StackOnStack(cat, items, source, target) ==> step.answer == Ok(amount))
      && (StackOnStack(cat, items, source, target) && step.answer.Ok? && step.answer.value < 0x8000 ==>
            target in step.items && step.items[target].StackSize() == items[target].StackSize() + step.answer.value)
  {
  }

  /** How much is stacked: what was asked for when that fits, else what fits, and nothing on a full stack. */
  lemma AnswerFits(cat: Catalogue, items: Slots, source: u8, target: u8, amount: u16)
    requires StackOnStack(cat, items, source, target)
    requires MoveStep(cat, items, source, target, amount).answer.Ok?
    ensures var room := cat(items[target].refId) - items[target].StackSize();
      room >= 0 && MoveStep(cat, items, source, target, amount).answer == Ok(if amount <= room then amount else room)
  {
  }

  /** Each error, with its cause. */
  lemma MoveErrors(cat: Catalogue, items: Slots, source: u8, target: u8, amount: u16)
    ensures var answer := MoveStep(cat, items, source, target, amount).answer;
      && (answer == Err(ItemDoesNotExist) <==> source !in items)
      && (answer == Err(Overflow) ==>
            StackOnStack(cat, items, source, target)
            && (items[target].StackSize() > cat(items[target].refId) || cat(items[target].refId) >= 0x8000))
      && (answer == Err(NotStackable) ==>
            StackOnStack(cat, items, source, target)
            && (!items[target].typeData.Consumable? || !items[source].typeData.Consumable?))
      && (answer == Err(Impossible) ==> StackOnStack(cat, items, source, target) && items[target].typeData.Consumable?)
  {
  }

  /** One of the items that have to change is no stack. */
  predicate NoStack(items: Slots, source: u8, target: u8, both: bool)
    requires source in items && target in items
  {
    !items[target].typeData.Consumable? || (both && !items[source].typeData.Consumable?)
  }

  /** For stacks within maxima of at most 32767 the errors are exact: a target that is not a stack, or more is
      asked for than fits from a source that is not a stack or holds less than fits. */
  lemma MoveErrorsExact(cat: Catalogue, items: Slots, source: u8, target: u8, amount: u16)
    requires AllWellStacked(cat, items) && StackOnStack(cat, items, source, target)
    ensures var answer := MoveStep(cat, items, source, target, amount).answer;
      var room := cat(items[target].refId) - items[target].StackSize();
      && answer != Err(Overflow)
      && (answer == Err(NotStackable) <==> room > 0 && NoStack(items, source, target, amount > room))
      && (answer == Err(Impossible) <==>
            room > 0 && amount > room && !NoStack(items, source, target, true) && items[source].typeData.amount < room)
  {
    assert WellStacked(cat, items[target]) && WellStacked(cat, items[source]);
  }

  /** The change that turns the data of a slot into what it is afterwards. */
  function DataChange(items: Slots, after: Slots, slot: u8): InventoryChange
    requires slot in items && slot in after
  {
    ChangeTypeData(slot, items[slot].typeData, after[slot].typeData)
  }

  /** What a move records, entry by entry: nothing without an item or on a full stack; a move to a free slot or
      onto itself; a swap; a removal and the growth of the target; or the growth of the target and the rest. */
  lemma MoveRecordsExactly(cat: Catalogue, items: Slots, source: u8, target: u8, amount: u16)
    ensures var step := MoveStep(cat, items, source, target, amount);
      if source !in items then step.log == []
      else if target !in items || target == source then step.log == [MoveItem(source, target)]
      else if !StackOnStack(cat, items, source, target) then step.log == [Swap(source, target)]
      else if step.answer.Err? then |step.log| <= 1
      else if items[target].StackSize() == cat(items[target].refId) then step.log == [] && step.items == items
      else
        && target in step.items
        && step.log ==
             if source !in step.items then [RemoveItem(source), DataChange(items, step.items, target)]
             else [DataChange(items, step.items, target), DataChange(items, step.items, source)]
  {
  }

  // ---------------------------------------------------------------- Additions

  /** A stack of the same kind with room on it. */
  predicate OpenStackOf(cat: Catalogue, items: Slots, item: Item, slot: u8) {
    && slot in items && items[slot].refId == item.refId && items[slot].variance == item.variance
    && items[slot].StackSize() < cat(item.refId)
  }

  /** A free slot is taken: the lowest one behind the equipment, below the size cut to 8 bits. None says that
      there is none. */
  predicate TakesFreeSlot(size: nat, items: Slots, item: Item, step: Outcome<Result<Option<u8>, MoveError>>) {
    && step.answer.Ok?
    && match step.answer.value
       case None => step.items == items && step.log == [] && forall slot: u8 :: 13 <= slot < size % 0x100 ==> slot in items
       case Some(free) =>
         && 13 <= free < size % 0x100 && free !in items && (forall slot: u8 :: 13 <= slot < free ==> slot in items)
         && step.items == items[free := item] && step.log == [AddItem(free, item)]
  }

  lemma PlaceTakesFreeSlot(size: nat, items: Slots, item: Item)
    ensures TakesFreeSlot(size, items, item, PlaceStep(size, items, item))
  {
  }

  /** The open stack in a slot takes what it can; what is left over takes a free slot. */
  predicate FillsStack(cat: Catalogue, size: nat, items: Slots, item: Item, slot: u8,
                       step: Outcome<Result<Option<u8>, MoveError>>)
    requires slot in items
  {
    if !items[slot].typeData.Consumable? || !item.typeData.Consumable? then step == Outcome(items, [], Ok(None))
    else
      var had, added := items[slot].typeData.amount, item.typeData.amount;
      if had + added > 0xFFFF then step == Outcome(items, [], Err(Overflow))
      else if had + added <= cat(item.refId) then
        && step.items == items[slot := items[slot].(typeData := Consumable(had + added))]
        && step.log == [ChangeTypeData(slot, items[slot].typeData, Consumable(had + added))]
        && step.answer == Ok(Some(slot))
      else
        var full := items[slot].(typeData := Consumable(cat(item.refId)));
        && |step.log| > 0 && step.log[0] == ChangeTypeData(slot, items[slot].typeData, full.typeData)
        && TakesFreeSlot(size, items[slot := full], item.(typeData := Consumable(had + added - cat(item.refId))),
                         step.(log := step.log[1..]))
  }

  predicate FirstOpenStack(cat: Catalogue, items: Slots, item: Item, order: seq<u8>, n: int) {
    && 0 <= n < |order| && OpenStackOf(cat, items, item, order[n])
    && forall m :: 0 <= m < n ==> !OpenStackOf(cat, items, item, order[m])
  }

  /** Where an addition goes: for a stackable id onto the first listed open stack of its kind, if there is one
      in any slot; else to a free slot. */
  lemma AddGoesWhere(cat: Catalogue, size: nat, items: Slots, item: Item, order: seq<u8>)
    requires Lists(order, SlotsMatching(items, item))
    ensures var step := AddStep(cat, size, items, item, order);
      if cat(item.refId) > 1 && exists slot <- items :: OpenStackOf(cat, items, item, slot)
      then exists n :: FirstOpenStack(cat, items, item, order, n) && FillsStack(cat, size, items, item, order[n], step)
      else TakesFreeSlot(size, items, item, step)
  {
    PlaceTakesFreeSlot(size, items, item);
    forall slot | slot in items
      ensures OpenStackOf(cat, items, item, slot) <==> slot in order && !MaxStacked(cat, items[slot])
    {
      assert slot in order <==> slot in SlotsMatching(items, item);
    }
    if cat(item.refId) > 1 && FirstOpen(cat, items, order).Some? {
      var n := FirstOpenAt(cat, items, order);
      var slot := order[n];
      assert slot in order && slot in SlotsMatching(items, item);
      assert OpenStackOf(cat, items, item, slot);
      FillFills(cat, size, items, item, slot);
      forall m | 0 <= m < n ensures !OpenStackOf(cat, items, item, order[m]) {
        assert order[m] in order && order[m] in SlotsMatching(items, item);
      }
      assert FirstOpenStack(cat, items, item, order, n);
    }
  }

  lemma {:induction false} FirstOpenAt(cat: Catalogue, items: Slots, order: seq<u8>) returns (n: nat)
    requires (forall slot <- order :: slot in items) && FirstOpen(cat, items, order).Some?
    ensures n < |order| && FirstOpen(cat, items, order) == Some(order[n]) && !MaxStacked(cat, items[order[n]])
    ensures forall m :: 0 <= m < n ==> MaxStacked(cat, items[order[m]])
    decreases order
  {
    if !MaxStacked(cat, items[order[0]]) {
      n := 0;
    } else {
      var later := FirstOpenAt(cat, items, order[1..]);
      n := later + 1;
      forall m | 0 <= m < n ensures MaxStacked(cat, items[order[m]]) {
        assert m > 0 ==> order[m] == order[1..][m - 1];
      }
    }
  }

  lemma FillFills(cat: Catalogue, size: nat, items: Slots, item: Item, slot: u8)
    requires slot in items && items[slot].refId == item.refId
    ensures FillsStack(cat, size, items, item, slot, FillStep(cat, size, items, item, slot))
  {
    if items[slot].typeData.Consumable? && item.typeData.Consumable? {
      var sum := items[slot].typeData.amount + item.typeData.amount;
      if cat(item.refId) < sum < 0x1_0000 {
        var filled := items[slot := items[slot].(typeData := Consumable(cat(item.refId)))];
        var rest := item.(typeData := Consumable(sum - cat(item.refId)));
        PlaceTakesFreeSlot(size, filled, rest);
        assert FillStep(cat, size, items, item, slot).log[1..] == PlaceStep(size, filled, rest).log;
      }
    }
  }
}
