/** Folding changes, judged by the table alone: there an insert overwrites, an update of an empty slot does
    nothing and a move to a taken slot is refused, so a folded log may come out right although one of its
    changes does not fit. */
module TableAbsorptions {
  import opened Wrappers
  import opened Words
  import opened Changes
  import opened InventoryChanges
  import opened Absorptions
  import opened ItemTables

  lemma {:induction false} TableConcat(items: Slots, front: seq<InventoryChange>, back: seq<InventoryChange>)
    ensures TableLog(items, front + back) == TableLog(TableLog(items, front), back)
    decreases front
  {
    if front == [] {
      assert front + back == back;
    } else {
      assert (front + back)[1..] == front[1..] + back;
      TableConcat(TableEffect(items, front[0]), front[1..], back);
    }
  }

  lemma TableOne(items: Slots, c: InventoryChange)
    ensures TableLog(items, [c]) == TableEffect(items, c)
  {
    assert [c][1..] == [];
    assert TableLog(TableEffect(items, c), []) == TableEffect(items, c);
  }

  /** The slots before a change and after the rest of a working list that fits. */
  lemma Around(items: Slots, rest: seq<InventoryChange>, later: seq<InventoryChange>) returns (at: Slots)
    requires ReplayFitting(items, rest + later).Some?
    ensures at == StateAfter(items, rest) && ReplayFitting(items, rest) == Some(at)
    ensures ReplayFitting(items, rest + later) == ReplayFitting(at, later)
    ensures forall other :: TableLog(items, rest + other) == TableLog(at, other)
  {
    ReplayConcat(FittingKinds(), items, rest, later);
    at := StateAfter(items, rest);
    FittingLog(items, rest);
    forall other ensures TableLog(items, rest + other) == TableLog(at, other) {
      TableConcat(items, rest, other);
    }
  }

  /** The folded list leaves the table as the list itself does. */
  ghost predicate RightOnTable(rows: Rows, character: u32, items: Slots, rest: seq<InventoryChange>,
                               item: InventoryChange,
                               mids: seq<InventoryChange>, next: InventoryChange)
    requires Absorbs(item, next) && ReplayFitting(items, rest + ([item] + (mids + [next]))).Some?
  {
    Matches(ApplyLog(rows, character, rest + (mids + Folded(item, next))), character,
            ReplayFitting(items, rest + ([item] + (mids + [next]))).value)
  }

  lemma RightOnSlots(rows: Rows, character: u32, items: Slots, rest: seq<InventoryChange>, item: InventoryChange,
                     mids: seq<InventoryChange>, next: InventoryChange) returns (at: Slots)
    requires Matches(rows, character, items)
    requires Absorbs(item, next) && ReplayFitting(items, rest + ([item] + (mids + [next]))).Some?
    ensures at == StateAfter(items, rest) && ReplayFitting(at, [item] + (mids + [next])).Some?
    ensures RightOnTable(rows, character, items, rest, item, mids, next)
      <==> SameRows(TableLog(at, mids + Folded(item, next)), ReplayFitting(at, [item] + (mids + [next])).value)
  {
    var folded := rest + (mids + Folded(item, next));
    at := Around(items, rest, [item] + (mids + [next]));
    LogDoes(rows, character, items, folded);
    MatchesBoth(ApplyLog(rows, character, folded), character, TableLog(items, folded),
                ReplayFitting(at, [item] + (mids + [next])).value);
  }

  // ---------------------------------------------------------------- Data changes

  /** A folded data change leaves the table right if and only if the two data are stored alike or the item
      does not end in another slot as it was. */
  lemma DataOnTable(rows: Rows, character: u32, items: Slots, rest: seq<InventoryChange>, item: InventoryChange,
                    mids: seq<InventoryChange>, next: InventoryChange)
    requires Matches(rows, character, items) && item.ChangeTypeData?
    requires Absorbs(item, next) && ReplayFitting(items, rest + ([item] + (mids + [next]))).Some?
    ensures item.slot in StateAfter(items, rest)
    ensures RightOnTable(rows, character, items, rest, item, mids, next) <==>
      SameColumns(StateAfter(items, rest)[item.slot].typeData, item.newItem) || !Elsewhere(item.slot, mids)
  {
    var at := RightOnSlots(rows, character, items, rest, item, mids, next);
    var final := DataLeftBehind(at, item, mids, next);
    FittingLog(at, mids + Folded(item, next));
    if Elsewhere(item.slot, mids) {
      SameRowsWithData(final, Follow(item.slot, mids).slot, at[item.slot].typeData);
    }
  }

  lemma SameRowsWithData(items: Slots, slot: u8, data: ItemTypeData)
    requires slot in items
    ensures SameRows(WithData(items, slot, data), items) <==> SameColumns(data, items[slot].typeData)
  {
    var other := WithData(items, slot, data);
    assert other.Keys == items.Keys && other[slot] == items[slot].(typeData := data);
  }

  // ---------------------------------------------------------------- An item the table does not have

  predicate SameKind(a: Item, b: Item) {
    a.refId == b.refId && a.variance == b.variance
  }

  /** Where the table lacks one item, it goes on lacking it wherever the item goes, until it is removed. */
  lemma MissingStep(a: Slots, slot: u8, c: InventoryChange)
    requires slot in a && c.Fits(a)
    ensures match FollowOne(slot, c)
      case Gone => TableEffect(a - {slot}, c) == c.Effect(a)
      case At(next, touched) =>
        && next in c.Effect(a) && TableEffect(a - {slot}, c) == c.Effect(a) - {next}
        && SameKind(c.Effect(a)[next], a[slot]) && (!touched ==> c.Effect(a)[next] == a[slot])
  {
    match c {
      case AddItem(_, _) => assert TableEffect(a - {slot}, c) == c.Effect(a) - {slot};
      case ChangeTypeData(_, _, _) => assert TableEffect(a - {slot}, c) == c.Effect(a) - {slot};
      case MoveItem(source, target) =>
        assert TableEffect(a - {slot}, c) == c.Effect(a) - {if source == slot then target else slot};
      case RemoveItem(_) =>
      case Swap(first, second) => MissingSwap(a, slot, first, second);
    }
  }

  lemma MissingSwap(a: Slots, slot: u8, first: u8, second: u8)
    requires slot in a && first in a && second in a
    ensures var c, next := Swap(first, second), if first == slot then second else if second == slot then first else slot;
      && next in c.Effect(a) && c.Effect(a)[next] == a[slot]
      && TableEffect(a - {slot}, c) == c.Effect(a) - {next}
  {
    var c, next := Swap(first, second), if first == slot then second else if second == slot then first else slot;
    var left, right := TableEffect(a - {slot}, c), c.Effect(a) - {next};
    forall s: u8 ensures (s in left <==> s in right) && (s in left ==> left[s] == right[s]) {
    }
    assert left.Keys == right.Keys;
  }

  lemma {:induction false} MissingRun(a: Slots, slot: u8, log: seq<InventoryChange>)
    requires slot in a && ReplayFitting(a, log).Some?
    ensures var end := ReplayFitting(a, log).value;
      match Follow(slot, log)
      case Gone => TableLog(a - {slot}, log) == end
      case At(last, touched) =>
        && last in end && TableLog(a - {slot}, log) == end - {last}
        && SameKind(end[last], a[slot]) && (!touched ==> end[last] == a[slot])
    decreases log
  {
    if log != [] {
      MissingStep(a, slot, log[0]);
      var next := FollowOne(slot, log[0]);
      if next.At? {
        MissingRun(log[0].Effect(a), next.slot, log[1..]);
      } else {
        FittingLog(log[0].Effect(a), log[1..]);
      }
    }
  }

  // ---------------------------------------------------------------- Additions

  /** What has to hold at the slots `end` in front of `next`: the added item is back in its slot, stored as it
      was added if it is moved on from there; or it is gone, and what `next` leaves is stored like it. */
  predicate AdditionRight(end: Slots, item: InventoryChange, trail: Trail, next: InventoryChange)
    requires item.AddItem? && Absorbs(item, next) && next.Fits(end)
  {
    match trail
    case At(place, _) => place == item.slot && (next.MoveItem? ==> Alike(end[item.slot], item.item))
    case Gone =>
      next.AddItem?
      || (next.ChangeTypeData? && SameKind(end[item.slot], item.item))
      || (SelfMove(next) && Alike(end[item.slot], item.item))
  }

  lemma AdditionEnd(end: Slots, item: InventoryChange, trail: Trail, next: InventoryChange)
    requires item.AddItem? && Absorbs(item, next) && next.Fits(end)
    requires trail.At? ==> trail.slot in end && SameKind(end[trail.slot], item.item)
    ensures var missing := if trail.At? then end - {trail.slot} else end;
      SameRows(TableLog(missing, Folded(item, next)), next.Effect(end)) <==> AdditionRight(end, item, trail, next)
  {
    var missing, final := if trail.At? then end - {trail.slot} else end, next.Effect(end);
    var slot := item.slot;
    match next {
      case RemoveItem(_) =>
        assert Folded(item, next) == [];
        assert trail.Gone? || trail.slot != slot ==> missing.Keys != final.Keys by {
          assert slot !in final && (trail.Gone? ==> slot in missing) && (trail.At? ==> trail.slot !in missing);
          assert trail.At? && trail.slot != slot ==> trail.slot in final;
        }
      case AddItem(_, added) =>
        TableOne(missing, next);
        assert trail.At? ==> trail.slot !in missing[slot := added] && trail.slot in final;
      case ChangeTypeData(_, _, newItem) =>
        var placed := AddItem(slot, item.item.(typeData := newItem));
        assert Folded(item, next) == [placed];
        TableOne(missing, placed);
        PlacedAgain(end, missing, slot, placed.item, final, trail);
      case MoveItem(_, target) =>
        var placed := AddItem(target, item.item);
        assert Folded(item, next) == [placed];
        TableOne(missing, placed);
        MovedOn(end, missing, slot, target, item.item, final, trail);
    }
  }

  lemma PlacedAgain(end: Slots, missing: Slots, slot: u8, placed: Item, final: Slots, trail: Trail)
    requires slot in end && final == end[slot := end[slot].(typeData := placed.typeData)]
    requires missing == if trail.At? then end - {trail.slot} else end
    requires trail.At? ==> trail.slot in end && SameKind(end[trail.slot], placed)
    ensures SameRows(missing[slot := placed], final) <==>
      if trail.At? then trail.slot == slot else SameKind(end[slot], placed)
  {
    var put := missing[slot := placed];
    if trail.At? && trail.slot != slot {
      assert trail.slot !in put && trail.slot in final;
    } else {
      assert put.Keys == final.Keys && put[slot] == placed && final[slot].typeData == placed.typeData;
    }
  }

  lemma MovedOn(end: Slots, missing: Slots, slot: u8, target: u8, placed: Item, final: Slots, trail: Trail)
    requires slot in end && (target !in end || target == slot) && final == (end - {slot})[target := end[slot]]
    requires missing == if trail.At? then end - {trail.slot} else end
    requires trail.At? ==> trail.slot in end
    ensures SameRows(missing[target := placed], final) <==>
      (if trail.At? then trail.slot == slot else target == slot) && Alike(end[slot], placed)
  {
    var put := missing[target := placed];
    if trail.At? && trail.slot != slot {
      assert trail.slot !in put && trail.slot in final;
    } else if trail.Gone? && target != slot {
      assert slot in put && slot !in final;
    } else {
      assert put.Keys == final.Keys && put[target] == placed && final[target] == end[slot];
    }
  }

  /** A folded addition leaves the table right if and only if, in front of the later change, `AdditionRight`. */
  lemma AdditionOnTable(rows: Rows, character: u32, items: Slots, rest: seq<InventoryChange>, item: InventoryChange,
                        mids: seq<InventoryChange>, next: InventoryChange) returns (end: Slots)
    requires Matches(rows, character, items) && item.AddItem?
    requires Absorbs(item, next) && ReplayFitting(items, rest + ([item] + (mids + [next]))).Some?
    ensures ReplayFitting(StateAfter(items, rest), [item] + mids) == Some(end) && next.Fits(end)
    ensures RightOnTable(rows, character, items, rest, item, mids, next)
      <==> AdditionRight(end, item, Follow(item.slot, mids), next)
  {
    var at := RightOnSlots(rows, character, items, rest, item, mids, next);
    end := AddedThenMore(at, item, mids, next);
    AdditionEnd(end, item, Follow(item.slot, mids), next);
  }

  /** What an addition and a stretch behind it leave: in the table the added item is missing. */
  lemma AddedThenMore(at: Slots, item: InventoryChange, mids: seq<InventoryChange>, next: InventoryChange)
    returns (end: Slots)
    requires item.AddItem? && Absorbs(item, next) && ReplayFitting(at, [item] + (mids + [next])).Some?
    ensures ReplayFitting(at, [item] + mids) == Some(end) && next.Fits(end)
    ensures ReplayFitting(at, [item] + (mids + [next])) == Some(next.Effect(end))
    ensures var trail := Follow(item.slot, mids);
      && (trail.At? ==> trail.slot in end && SameKind(end[trail.slot], item.item))
      && TableLog(at, mids + Folded(item, next))
           == TableLog(if trail.At? then end - {trail.slot} else end, Folded(item, next))
  {
    var A := FittingKinds();
    assert [item] + (mids + [next]) == ([item] + mids) + [next];
    ReplayConcat(A, at, [item] + mids, [next]);
    ReplayConcat(A, at, [item], mids);
    ReplayOne(at, item);
    end := ReplayFitting(at, [item] + mids).value;
    ReplayOne(end, next);
    assert item.Effect(at) - {item.slot} == at;
    MissingRun(item.Effect(at), item.slot, mids);
    TableConcat(at, mids, Folded(item, next));
  }

  // ---------------------------------------------------------------- Moves

  /** A move folded over an addition to the slot it freed: the insert overwrites the moved item. The table is
      right if and only if the moved item is removed next and nothing is left in the slot it came from, or it
      is already gone and the later change moves a slot onto itself. */
  lemma MoveOverAdditionOnTable(rows: Rows, character: u32, items: Slots, rest: seq<InventoryChange>,
                                item: InventoryChange,
                                before: seq<InventoryChange>, added: Item, after: seq<InventoryChange>,
                                next: InventoryChange)
    returns (end: Slots)
    requires Matches(rows, character, items) && item.MoveItem? && item.source != item.target && ClearOf(item, before)
    requires var mids := before + ([AddItem(item.source, added)] + after);
      Absorbs(item, next) && ReplayFitting(items, rest + ([item] + (mids + [next]))).Some?
    ensures var mids, trail := before + ([AddItem(item.source, added)] + after), Follow(item.target, after);
      && ReplayFitting(StateAfter(items, rest), [item] + mids) == Some(end)
      && (RightOnTable(rows, character, items, rest, item, mids, next) <==>
            (next.RemoveItem? && trail.At? && trail.slot == item.target && item.source !in end)
            || (SelfMove(next) && trail.Gone?))
  {
    var add := AddItem(item.source, added);
    var mids := before + ([add] + after);
    var at := RightOnSlots(rows, character, items, rest, item, mids, next);
    end := MovedThenAdded(at, item, before, add, after, next);
    MoveEnd(end, item, Follow(item.target, after), next);
  }

  /** What such a stretch leaves: in the table the moved item is missing. */
  lemma MovedThenAdded(at: Slots, item: InventoryChange, before: seq<InventoryChange>, add: InventoryChange,
                       after: seq<InventoryChange>, next: InventoryChange)
    returns (end: Slots)
    requires item.MoveItem? && item.source != item.target && ClearOf(item, before)
    requires add.AddItem? && add.slot == item.source && Absorbs(item, next)
    requires ReplayFitting(at, [item] + ((before + ([add] + after)) + [next])).Some?
    ensures ReplayFitting(at, [item] + (before + ([add] + after))) == Some(end) && next.Fits(end)
    ensures ReplayFitting(at, [item] + ((before + ([add] + after)) + [next])) == Some(next.Effect(end))
    ensures var trail := Follow(item.target, after);
      && (trail.At? ==> trail.slot in end)
      && TableLog(at, (before + ([add] + after)) + Folded(item, next))
           == TableLog(if trail.At? then end - {trail.slot} else end, Folded(item, next))
  {
    var st := PartsFit(at, item, before, add, after, next);
    var a := add.Effect(item.Effect(st));
    end := ReplayFitting(a, after).value;
    assert TableEffect(st, add) == a - {item.target};
    TableParts(at, before, add, after, Folded(item, next));
    MissingRun(a, item.target, after);
  }

  /** A stretch of log in parts: the change is clear of the first part. */
  lemma PartsFit(at: Slots, item: InventoryChange, before: seq<InventoryChange>, c: InventoryChange,
                 after: seq<InventoryChange>, next: InventoryChange)
    returns (st: Slots)
    requires ClearOf(item, before) && ReplayFitting(at, [item] + ((before + ([c] + after)) + [next])).Some?
    ensures ReplayFitting(at, before) == Some(st) && TableLog(at, before) == st
    ensures item.Fits(st) && c.Fits(item.Effect(st))
    ensures var both := c.Effect(item.Effect(st));
      && ReplayFitting(at, [item] + (before + ([c] + after))) == ReplayFitting(both, after)
      && ReplayFitting(at, [item] + ((before + ([c] + after)) + [next])) == ReplayFitting(both, after + [next])
      && ReplayFitting(both, after).Some? && next.Fits(ReplayFitting(both, after).value)
      && ReplayFitting(both, after + [next]) == Some(next.Effect(ReplayFitting(both, after).value))
  {
    var A := FittingKinds();
    assert [item] + ((before + ([c] + after)) + [next]) == ([item] + (before + [c])) + (after + [next]);
    assert [item] + (before + ([c] + after)) == ([item] + (before + [c])) + after;
    ReplayConcat(A, at, [item] + (before + [c]), after + [next]);
    ReplayConcat(A, at, [item] + (before + [c]), after);
    st := SlideForward(at, item, before, c);
    FittingLog(at, before);
    var both := c.Effect(item.Effect(st));
    ReplayConcat(A, both, after, [next]);
    ReplayOne(ReplayFitting(both, after).value, next);
  }

  lemma TableParts(at: Slots, before: seq<InventoryChange>, c: InventoryChange, after: seq<InventoryChange>,
                   folded: seq<InventoryChange>)
    ensures TableLog(at, (before + ([c] + after)) + folded)
         == TableLog(TableLog(TableEffect(TableLog(at, before), c), after), folded)
  {
    var st := TableLog(at, before);
    TableConcat(at, before + ([c] + after), folded);
    TableConcat(at, before, [c] + after);
    TableConcat(st, [c], after);
    TableOne(st, c);
  }

  lemma MoveEnd(end: Slots, item: InventoryChange, trail: Trail, next: InventoryChange)
    requires item.MoveItem? && item.source != item.target && Absorbs(item, next) && next.Fits(end)
    requires trail.At? ==> trail.slot in end
    ensures var missing := if trail.At? then end - {trail.slot} else end;
      SameRows(TableLog(missing, Folded(item, next)), next.Effect(end)) <==>
        (next.RemoveItem? && trail.At? && trail.slot == item.target && item.source !in end)
        || (SelfMove(next) && trail.Gone?)
  {
    var missing, final := if trail.At? then end - {trail.slot} else end, next.Effect(end);
    var res := item.Merge(next).merged;
    TableOne(missing, res);
    var got := TableEffect(missing, res);
    if next.RemoveItem? {
      assert got == missing - {item.source};
      RemovedEnd(end, missing, item.source, item.target, trail);
    } else if trail.At? {
      assert trail.slot in final || (trail.slot == next.source && next.target in final);
      MovedEnd(missing, end, item.source, next.source, next.target, trail.slot);
    } else if SelfMove(next) {
      assert got == end == final;
    } else {
      assert next.source in got && next.source !in final;
    }
  }

  lemma RemovedEnd(end: Slots, missing: Slots, source: u8, target: u8, trail: Trail)
    requires source != target && target in end && missing == if trail.At? then end - {trail.slot} else end
    requires trail.At? ==> trail.slot in end
    ensures SameRows(missing - {source}, end - {target}) <==> trail.At? && trail.slot == target && source !in end
  {
    var got, final := missing - {source}, end - {target};
    if trail.Gone? {
      assert target in got && target !in final;
    } else if trail.slot != target {
      assert trail.slot !in got && trail.slot in final;
    } else if source in end {
      assert source !in got && source in final;
    } else {
      assert got == final;
    }
  }

  lemma MovedEnd(missing: Slots, end: Slots, source: u8, from: u8, target: u8, place: u8)
    requires missing == end - {place} && place in end && source != from
    requires from in end && (target !in end || target == from)
    ensures !SameRows(TableEffect(missing, MoveItem(source, target)), (end - {from})[target := end[from]])
  {
    var got, final := TableEffect(missing, MoveItem(source, target)), (end - {from})[target := end[from]];
    assert target in final;
    if place != from {
      assert place in final && place !in got;
    } else if source in missing && target !in missing {
      assert source !in got && (source != target ==> source in final);
    } else {
      assert got == missing;
      assert target !in got;
    }
  }

  /** A move folded over another one into the slot it freed, with nothing else touching the slots of the two:
      the table refuses the other move. It is right if and only if the later change moves the item to where the
      other one came from and both are stored alike. */
  lemma MoveOverMoveOnTable(rows: Rows, character: u32, items: Slots, rest: seq<InventoryChange>, item: InventoryChange,
                            before: seq<InventoryChange>, from: u8, after: seq<InventoryChange>, next: InventoryChange)
    returns (st: Slots)
    requires Matches(rows, character, items) && item.MoveItem? && item.source != item.target && ClearOf(item, before)
    requires from != item.source && from != item.target
    requires ClearOf(item, after) && ClearOf(MoveItem(from, item.source), after)
    requires var mids := before + ([MoveItem(from, item.source)] + after);
      Absorbs(item, next) && ReplayFitting(items, rest + ([item] + (mids + [next]))).Some?
    ensures var mids := before + ([MoveItem(from, item.source)] + after);
      && ReplayFitting(StateAfter(items, rest), before + after) == Some(st) && item.source in st && from in st
      && (RightOnTable(rows, character, items, rest, item, mids, next) <==>
            next == MoveItem(item.target, from) && Alike(st[item.source], st[from]))
  {
    var refill := MoveItem(from, item.source);
    var mids := before + ([refill] + after);
    var at := RightOnSlots(rows, character, items, rest, item, mids, next);
    var first := PartsFit(at, item, before, refill, after, next);
    st := BothSlide(first, item, refill, after, next);
    ReplayConcat(FittingKinds(), at, before, after);
    FittingLog(first, after);
    TableParts(at, before, refill, after, Folded(item, next));
    assert TableEffect(first, refill) == first;
    RefusedEnd(st, item, from, next);
  }

  /** Two changes that are clear of a stretch of log can both be read behind it. */
  lemma BothSlide(first: Slots, item: InventoryChange, refill: InventoryChange, after: seq<InventoryChange>,
                  next: InventoryChange)
    returns (st: Slots)
    requires item.Fits(first) && refill.Fits(item.Effect(first))
    requires ClearOf(item, after) && ClearOf(refill, after)
    requires ReplayFitting(refill.Effect(item.Effect(first)), after + [next]).Some?
    ensures ReplayFitting(first, after) == Some(st) && item.Fits(st) && refill.Fits(item.Effect(st))
    ensures ReplayFitting(refill.Effect(item.Effect(first)), after + [next])
         == next.ApplyFitting(refill.Effect(item.Effect(st)))
  {
    var A := FittingKinds();
    var moved := item.Effect(first);
    ReplayConcat(A, moved, [refill], after + [next]);
    ReplayOne(moved, refill);
    var m := SlideForward(moved, refill, after, next);
    ReplayConcat(A, first, [item], after + [refill]);
    ReplayConcat(A, moved, after, [refill]);
    ReplayOne(first, item);
    ReplayOne(m, refill);
    st := SlideForward(first, item, after, refill);
    assert item.Effect(st) == m by {
      ReplayConcat(A, first, [item], after);
      forall s, i | 0 <= i < |after| ensures Two(A, s, after[i], item) == Two(A, s, item, after[i]) {
        DisjointCommute(s, item, after[i]);
      }
      Slide(A, first, after, item);
      ReplayConcat(A, first, after, [item]);
      ReplayOne(st, item);
    }
  }

  lemma RefusedEnd(st: Slots, item: InventoryChange, from: u8, next: InventoryChange)
    requires item.MoveItem? && item.source != item.target && from != item.source && from != item.target
    requires Absorbs(item, next) && item.Fits(st) && MoveItem(from, item.source).Fits(item.Effect(st))
    requires next.Fits(MoveItem(from, item.source).Effect(item.Effect(st)))
    ensures SameRows(TableLog(st, Folded(item, next)), next.Effect(MoveItem(from, item.source).Effect(item.Effect(st))))
      <==> next == MoveItem(item.target, from) && Alike(st[item.source], st[from])
  {
    var both := MoveItem(from, item.source).Effect(item.Effect(st));
    var res, final := item.Merge(next).merged, next.Effect(both);
    TableOne(st, res);
    var got := TableEffect(st, res);
    assert from !in both && both[item.source] == st[from] && both[item.target] == st[item.source];
    if next == MoveItem(item.target, from) {
      assert got == st && final.Keys == st.Keys;
      assert final[item.source] == st[from] && final[from] == st[item.source];
      assert forall slot <- st :: slot != item.source && slot != from ==> final[slot] == st[slot];
    } else {
      assert from in got && from !in final;
    }
  }

  /** A move folded into a removal, whatever stands between: wrong whenever something is in the end where the
      moved item came from. */
  lemma TakenSourceIsEmptied(rows: Rows, character: u32, items: Slots, rest: seq<InventoryChange>,
                             item: InventoryChange,
                             mids: seq<InventoryChange>, next: InventoryChange)
    requires Matches(rows, character, items) && item.MoveItem? && next.RemoveItem?
    requires Absorbs(item, next) && ReplayFitting(items, rest + ([item] + (mids + [next]))).Some?
    requires item.source in ReplayFitting(items, rest + ([item] + (mids + [next]))).value
    ensures !RightOnTable(rows, character, items, rest, item, mids, next)
  {
    var at := RightOnSlots(rows, character, items, rest, item, mids, next);
    ReplayConcat(FittingKinds(), items, rest, [item] + (mids + [next]));
    var res := RemoveItem(item.source);
    assert Folded(item, next) == [res];
    TableConcat(at, mids, [res]);
    TableOne(TableLog(at, mids), res);
  }

  // ---------------------------------------------------------------- Whole runs

  /** Any log that fits: the optimised log leaves the table matching the inventory when every absorption along
      the run is right. */
  lemma AnyLogOnTable(rows: Rows, character: u32, items: Slots, log: seq<InventoryChange>)
    requires Matches(rows, character, items) && ReplayFitting(items, log).Some? && RightRun(items, [], log)
    ensures Matches(ApplyLog(rows, character, OptimizeChanges(log)), character, ReplayFitting(items, log).value)
    ensures OthersKept(rows, ApplyLog(rows, character, OptimizeChanges(log)), character)
  {
    AnyLogSoundWhenRight(items, log);
    LogRefinesReplay(rows, character, items, OptimizeChanges(log));
  }
}
