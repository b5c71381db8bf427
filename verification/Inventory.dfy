/** The inventory itself (silkroad-game-base/src/inventory.rs): a slot map edited in place, with
    every edit recorded in a change log. */
module Inventories {
  import opened Wrappers
  import opened Words
  import opened InventoryChanges

  /** Reference data: the maximum stack size of every item id. */
  type Catalogue = u32 -> u16

  /** `Overflow` is the arithmetic panic of the fixed-width numbers. */
  datatype MoveError = ItemDoesNotExist | NotStackable | Impossible | Overflow

  /** What one call leaves behind: the slot map, the recorded changes and the answer. */
  datatype Outcome<+R> = Outcome(items: Slots, log: seq<InventoryChange>, answer: R)

  /** The outcome with its changes appended to what was recorded before. */
  function Recorded<R>(before: seq<InventoryChange>, step: Outcome<R>): Outcome<R> {
    step.(log := before + step.log)
  }

  const LAST_EQUIPMENT_SLOT := 0xC

  // ---------------------------------------------------------------- Stacks

  /** `as i16` on a 16 bit value. */
  function AsI16(x: u16): int {
    if x < 0x8000 then x else x - 0x1_0000
  }

  function ChangeStackSize(data: ItemTypeData, amount: int): (r: Result<ItemTypeData, MoveError>)
    ensures r.Ok? <==> data.Consumable? && 0 <= data.amount + amount < 0x1_0000
    ensures r.Ok? ==> r.value == Consumable(data.amount + amount)
    ensures r.Err? ==>
      r.error == if !data.Consumable? then NotStackable else if data.amount + amount < 0 then Impossible else Overflow
  {
    if !data.Consumable? then Err(NotStackable)
    else if amount < 0 then
      var toSubtract := -amount;
      if toSubtract > data.amount then Err(Impossible) else Ok(Consumable(data.amount - toSubtract))
    else if data.amount + amount >= 0x1_0000 then Err(Overflow)
    else Ok(Consumable(data.amount + amount))
  }

  predicate MaxStacked(cat: Catalogue, item: Item) {
    item.StackSize() >= cat(item.refId)
  }

  /** A stackable item holds no more than its maximum, and that fits the signed 16 bit casts. */
  predicate WellStacked(cat: Catalogue, item: Item) {
    cat(item.refId) > 1 ==> item.StackSize() <= cat(item.refId) <= 0x7FFF
  }

  predicate AllWellStacked(cat: Catalogue, items: Slots) {
    forall slot <- items :: WellStacked(cat, items[slot])
  }

  // ---------------------------------------------------------------- Slots

  /** The first slot of [from, to) that holds nothing. */
  function SearchEmpty(items: Slots, from: int, end: int): (r: Option<u8>)
    requires 0 <= from && end <= 0x100
    ensures r.Some? ==> from <= r.value < end && r.value !in items
    ensures r.Some? ==> forall slot: u8 :: from <= slot < r.value ==> slot in items
    ensures r.None? ==> forall slot: u8 :: from <= slot < end ==> slot in items
    decreases end - from
  {
    if from >= end then None
    else if from !in items then Some(from)
    else SearchEmpty(items, from + 1, end)
  }

  /** `empty_slot`: the lowest free slot behind the equipment. The size is cut to 8 bits. */
  function EmptySlot(size: nat, items: Slots): Option<u8> {
    SearchEmpty(items, LAST_EQUIPMENT_SLOT + 1, size % 0x100)
  }

  function SlotsMatching(items: Slots, item: Item): set<u8> {
    set slot | slot in items && items[slot].refId == item.refId && items[slot].variance == item.variance
  }

  // ---------------------------------------------------------------- What one call does

  predicate Stacks(cat: Catalogue, items: Slots, source: u8, target: u8) {
    && source in items && target in items && source != target
    && items[source].refId == items[target].refId && cat(items[source].refId) > 1
  }

  /** Putting the source item on top of the target item, which is of the same stackable kind. What goes
      wrong on the way leaves both items out of the map. The amounts go through a cast to 16 signed bits. */
  function StackStep(cat: Catalogue, items: Slots, source: u8, target: u8, amount: u16): Outcome<Result<u16, MoveError>>
    requires Stacks(cat, items, source, target)
  {
    var moved, met, gone := items[source], items[target], items - {source, target};
    var room := cat(met.refId) - met.StackSize();
    if room < 0 then Outcome(gone, [], Err(Overflow))
    else if room == 0 then Outcome(items, [], Ok(0))
    else if amount <= room then
      var grown := ChangeStackSize(met.typeData, AsI16(amount));
      if grown.Err? then Outcome(gone, [], Err(grown.error))
      else Outcome((items - {source})[target := met.(typeData := grown.value)],
                   [RemoveItem(source), ChangeTypeData(target, met.typeData, grown.value)], Ok(amount))
    else
      var full := ChangeStackSize(met.typeData, AsI16(room));
      if full.Err? then Outcome(gone, [], Err(full.error))
      else
        var filled := ChangeTypeData(target, met.typeData, full.value);
        var rest := ChangeStackSize(moved.typeData, -AsI16(room));
        if rest.Err? then Outcome(gone, [filled], Err(rest.error))
        else Outcome(items[target := met.(typeData := full.value)][source := moved.(typeData := rest.value)],
                     [filled, ChangeTypeData(source, moved.typeData, rest.value)], Ok(room))
  }

  function MoveStep(cat: Catalogue, items: Slots, source: u8, target: u8, amount: u16): Outcome<Result<u16, MoveError>> {
    if source !in items then Outcome(items, [], Err(ItemDoesNotExist))
    else if target == source || target !in items then
      Outcome((items - {source})[target := items[source]], [MoveItem(source, target)], Ok(amount))
    else if Stacks(cat, items, source, target) then StackStep(cat, items, source, target, amount)
    else Outcome(items[target := items[source]][source := items[target]], [Swap(source, target)], Ok(amount))
  }

  /** The first listed slot with room on its stack. */
  function FirstOpen(cat: Catalogue, items: Slots, order: seq<u8>): (r: Option<u8>)
    requires forall slot <- order :: slot in items
    ensures r.Some? ==> r.value in order && !MaxStacked(cat, items[r.value])
    ensures r.None? ==> forall slot <- order :: MaxStacked(cat, items[slot])
  {
    if order == [] then None
    else if !MaxStacked(cat, items[order[0]]) then Some(order[0])
    else FirstOpen(cat, items, order[1..])
  }

  function PlaceStep(size: nat, items: Slots, item: Item): Outcome<Result<Option<u8>, MoveError>> {
    match EmptySlot(size, items)
    case None => Outcome(items, [], Ok(None))
    case Some(free) => Outcome(items[free := item], [AddItem(free, item)], Ok(Some(free)))
  }

  /** Adding `item` to the stack in `slot`; what does not fit goes to a free slot. */
  function FillStep(cat: Catalogue, size: nat, items: Slots, item: Item, slot: u8): Outcome<Result<Option<u8>, MoveError>>
    requires slot in items
  {
    var existing, max := items[slot], cat(item.refId);
    if !existing.typeData.Consumable? || !item.typeData.Consumable? then Outcome(items, [], Ok(None))
    else
      var sum := existing.typeData.amount + item.typeData.amount;
      if sum >= 0x1_0000 then Outcome(items, [], Err(Overflow))
      else if sum <= max then
        Outcome(items[slot := existing.(typeData := Consumable(sum))],
                [ChangeTypeData(slot, existing.typeData, Consumable(sum))], Ok(Some(slot)))
      else
        var filled := items[slot := existing.(typeData := Consumable(max))];
        var overflow := PlaceStep(size, filled, item.(typeData := Consumable(sum - max)));
        Outcome(overflow.items, [ChangeTypeData(slot, existing.typeData, Consumable(max))] + overflow.log, overflow.answer)
  }

  function AddStep(cat: Catalogue, size: nat, items: Slots, item: Item, order: seq<u8>)
    : Outcome<Result<Option<u8>, MoveError>>
    requires Lists(order, SlotsMatching(items, item))
  {
    if cat(item.refId) <= 1 || FirstOpen(cat, items, order).None? then PlaceStep(size, items, item)
    else FillStep(cat, size, items, item, FirstOpen(cat, items, order).value)
  }

  // ---------------------------------------------------------------- The class

  class Inventory {
    const size: nat
    const maxStackSize: Catalogue
    var items: Slots
    var changes: seq<InventoryChange>

    constructor (size: nat, maxStackSize: Catalogue)
      requires size > LAST_EQUIPMENT_SLOT
      ensures this.size == size && this.maxStackSize == maxStackSize
      ensures items == map[] && changes == []
    {
      this.size := size;
      this.maxStackSize := maxStackSize;
      items := map[];
      changes := [];
    }

    /** `move_item` takes both items out of the map first. */
    method MoveItems(source: u8, target: u8, amount: u16) returns (r: Result<u16, MoveError>)
      modifies this
      ensures Outcome(items, changes, r)
           == Recorded(old(changes), MoveStep(maxStackSize, old(items), source, target, amount))
    {
      if source !in items {
        return Err(ItemDoesNotExist);
      }
      ghost var was: Slots := items;
      var sourceItem := items[source];
      items := items - {source};
      if target !in items {
        changes := changes + [MoveItem(source, target)];
        items := items[target := sourceItem];
        return Ok(amount);
      }
      var targetItem := items[target];
      items := items - {target};
      if sourceItem.refId == targetItem.refId && maxStackSize(sourceItem.refId) > 1 {
        assert items == was - {source, target};
        assert Stacks(maxStackSize, was, source, target);
        r := StackTakenItems(source, target, sourceItem, targetItem, amount, was);
      } else {
        changes := changes + [Swap(source, target)];
        items := items[target := sourceItem];
        items := items[source := targetItem];
        assert items == was[target := sourceItem][source := targetItem];
        assert !Stacks(maxStackSize, was, source, target);
        return Ok(amount);
      }
    }

    /** The stacking branch of `move_item`: both items are out of the map, and an error on the way
        leaves them out. */
    method StackTakenItems(source: u8, target: u8, sourceItem: Item, targetItem: Item, amount: u16, ghost was: Slots)
      returns (r: Result<u16, MoveError>)
      requires Stacks(maxStackSize, was, source, target) && was[source] == sourceItem && was[target] == targetItem
      requires items == was - {source, target}
      modifies this
      ensures Outcome(items, changes, r) == Recorded(old(changes), StackStep(maxStackSize, was, source, target, amount))
    {
      var available := maxStackSize(targetItem.refId) - targetItem.StackSize();
      if available < 0 {
        return Err(Overflow);
      }
      if available == 0 {
        items := items[source := sourceItem];
        items := items[target := targetItem];
        assert items == was;
        return Ok(0);
      }
      if available >= amount {
        var changed := ChangeStackSize(targetItem.typeData, AsI16(amount));
        if changed.Err? {
          return Err(changed.error);
        }
        changes := changes + [RemoveItem(source)];
        changes := changes + [ChangeTypeData(target, targetItem.typeData, changed.value)];
        items := items[target := targetItem.(typeData := changed.value)];
        assert items == (was - {source})[target := targetItem.(typeData := changed.value)];
        return Ok(amount);
      }
      r := SplitTakenItems(source, target, sourceItem, targetItem, available, amount, was);
    }

    /** More is moved than fits: the target is filled and the rest stays at the source. */
    method SplitTakenItems(source: u8, target: u8, sourceItem: Item, targetItem: Item, available: u16,
                           ghost amount: u16, ghost was: Slots)
      returns (r: Result<u16, MoveError>)
      requires Stacks(maxStackSize, was, source, target) && was[source] == sourceItem && was[target] == targetItem
      requires items == was - {source, target} && 0 < available < amount
      requires available == maxStackSize(targetItem.refId) - targetItem.StackSize()
      modifies this
      ensures Outcome(items, changes, r) == Recorded(old(changes), StackStep(maxStackSize, was, source, target, amount))
    {
      var filled := ChangeStackSize(targetItem.typeData, AsI16(available));
      if filled.Err? {
        return Err(filled.error);
      }
      changes := changes + [ChangeTypeData(target, targetItem.typeData, filled.value)];
      var rest := ChangeStackSize(sourceItem.typeData, -AsI16(available));
      if rest.Err? {
        return Err(rest.error);
      }
      changes := changes + [ChangeTypeData(source, sourceItem.typeData, rest.value)];
      items := items[source := sourceItem.(typeData := rest.value)];
      items := items[target := targetItem.(typeData := filled.value)];
      assert items == was[target := targetItem.(typeData := filled.value)][source := sourceItem.(typeData := rest.value)];
      return Ok(available);
    }

    /** `add_item`; `order` is the order in which the hash map lists the matching slots. */
    method AddItems(item: Item, order: seq<u8>) returns (r: Result<Option<u8>, MoveError>)
      requires Lists(order, SlotsMatching(items, item))
      modifies this
      ensures Outcome(items, changes, r) == Recorded(old(changes), AddStep(maxStackSize, size, old(items), item, order))
    {
      if maxStackSize(item.refId) > 1 {
        for n := 0 to |order|
          invariant items == old(items) && changes == old(changes)
          invariant forall slot <- order[n..] :: slot in order && slot in items
          invariant FirstOpen(maxStackSize, items, order) == FirstOpen(maxStackSize, items, order[n..])
        {
          assert order[n..][1..] == order[n + 1..];
          assert order[n] in SlotsMatching(items, item);
          if !MaxStacked(maxStackSize, items[order[n]]) {
            r := FillStack(item, order[n]);
            return;
          }
        }
      }
      r := Place(item);
    }

    /** The body of the loop of `add_item`, once an open stack is found. */
    method FillStack(item: Item, i: u8) returns (r: Result<Option<u8>, MoveError>)
      requires i in items
      modifies this
      ensures Outcome(items, changes, r) == Recorded(old(changes), FillStep(maxStackSize, size, old(items), item, i))
    {
      var existing := items[i];
      if !existing.typeData.Consumable? || !item.typeData.Consumable? {
        return Ok(None);
      }
      var sumAmount := existing.typeData.amount + item.typeData.amount;
      if sumAmount >= 0x1_0000 {
        return Err(Overflow);
      }
      var oldData := existing.typeData;
      if sumAmount <= maxStackSize(item.refId) {
        var newData := Consumable(sumAmount);
        items := items[i := existing.(typeData := newData)];
        changes := changes + [ChangeTypeData(i, oldData, newData)];
        return Ok(Some(i));
      }
      var newData := Consumable(maxStackSize(item.refId));
      items := items[i := existing.(typeData := newData)];
      changes := changes + [ChangeTypeData(i, oldData, newData)];
      var remaining := sumAmount - maxStackSize(item.refId);
      r := Place(item.(typeData := Consumable(remaining)));
    }

    /** Puts an item into the first free slot, if there is one. */
    method Place(item: Item) returns (r: Result<Option<u8>, MoveError>)
      modifies this
      ensures Outcome(items, changes, r) == Recorded(old(changes), PlaceStep(size, old(items), item))
    {
      var free := EmptySlot(size, items);
      if free.Some? {
        SetItem(free.value, item);
        changes := changes + [AddItem(free.value, item)];
      }
      return Ok(free);
    }

    method SetItem(slot: u8, item: Item)
      modifies this`items
      ensures items == old(items)[slot := item]
    {
      items := items[slot := item];
    }

    /** `changes`: hands the log out and starts a new one. */
    method TakeChanges() returns (taken: seq<InventoryChange>)
      modifies this`changes
      ensures taken == old(changes) && changes == []
    {
      taken := changes;
      changes := [];
    }
  }
}
