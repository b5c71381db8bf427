/** What the optimiser does to inventory logs of all five kinds: when one change may be folded into a
    later one across what stands between them. Logs are replayed by their slots, as the table applies
    them: no statement looks at the data a change starts from. */
module Absorptions {
  import opened Wrappers
  import opened Words
  import opened Changes
  import opened InventoryChanges

  /** The absorbed change is separate from everything it jumps over. */
  predicate ClearOf(item: InventoryChange, mids: seq<InventoryChange>) {
    forall i :: 0 <= i < |mids| ==> item.Footprint() !! mids[i].Footprint()
  }

  /** What became of an item: it is in a slot, with its data touched or not, or a change removed it. */
  datatype Trail = At(slot: u8, touched: bool) | Gone

  function FollowOne(slot: u8, c: InventoryChange): Trail {
    match c
    case AddItem(_, _) => At(slot, false)
    case ChangeTypeData(changed, _, _) => At(slot, changed == slot)
    case MoveItem(source, target) => At(if source == slot then target else slot, false)
    case RemoveItem(removed) => if removed == slot then Gone else At(slot, false)
    case Swap(first, second) => At(if first == slot then second else if second == slot then first else slot, false)
  }

  /** What becomes of the item in a slot along a stretch of log. */
  function Follow(slot: u8, log: seq<InventoryChange>): Trail
    decreases log
  {
    if log == [] then At(slot, false)
    else
      var next := FollowOne(slot, log[0]);
      if next.Gone? then Gone
      else
        var later := Follow(next.slot, log[1..]);
        if later.Gone? then Gone else At(later.slot, next.touched || later.touched)
  }

  /** The item ends in another slot, with the data it had. */
  predicate Elsewhere(slot: u8, mids: seq<InventoryChange>) {
    var trail := Follow(slot, mids);
    trail.At? && !trail.touched && trail.slot != slot
  }

  /** `item`, at the slots `at`, may be folded into a later change across `mids`. An addition or a move must be
      clear of what it jumps over. A data change must change nothing, or its item must not end in another
      slot as it was: it is back, or gone, or its data is written again. */
  predicate Absorbable(at: Slots, item: InventoryChange, mids: seq<InventoryChange>) {
    match item
    case AddItem(_, _) => ClearOf(item, mids)
    case ChangeTypeData(slot, _, newItem) => (slot in at && at[slot].typeData == newItem) || !Elsewhere(slot, mids)
    case MoveItem(source, target) => source == target || ClearOf(item, mids)
    case RemoveItem(_) => ClearOf(item, mids)
    case Swap(first, second) => first != second && ClearOf(item, mids)
  }

  /** The table folds the two changes into what `Folded` says. */
  predicate Absorbs(item: InventoryChange, next: InventoryChange) {
    item.Merge(next).Merged? || item.Merge(next).Cancelled?
  }

  function Folded(item: InventoryChange, next: InventoryChange): seq<InventoryChange>
    requires Absorbs(item, next)
  {
    if item.Merge(next).Merged? then [item.Merge(next).merged] else []
  }

  // ---------------------------------------------------------------- One absorption

  lemma ReplayOne(items: Slots, c: InventoryChange)
    ensures ReplayFitting(items, [c]) == c.ApplyFitting(items)
  {
    ReplayPair(FittingKinds(), items, c, c);
  }

  /** A change that is clear of a stretch of log can be read behind it. */
  lemma SlideForward(items: Slots, item: InventoryChange, mids: seq<InventoryChange>, next: InventoryChange)
    returns (at: Slots)
    requires ClearOf(item, mids) && ReplayFitting(items, [item] + (mids + [next])).Some?
    ensures ReplayFitting(items, mids) == Some(at)
    ensures ReplayFitting(items, [item] + (mids + [next])) == Two(FittingKinds(), at, item, next)
  {
    var A := FittingKinds();
    forall s, i | 0 <= i < |mids| ensures Two(A, s, mids[i], item) == Two(A, s, item, mids[i]) {
      DisjointCommute(s, item, mids[i]);
    }
    Slide(A, items, mids, item);
    assert [item] + (mids + [next]) == ([item] + mids) + [next];
    ReplayConcat(A, items, [item] + mids, [next]);
    ReplayConcat(A, items, mids + [item], [next]);
    assert (mids + [item]) + [next] == mids + [item, next];
    ReplayConcat(A, items, mids, [item, next]);
    at := Replay(A, items, mids).value;
    ReplayPair(A, at, item, next);
  }

  /** An absorption that is clear of what it jumps over. */
  lemma ClearAbsorption(items: Slots, item: InventoryChange, mids: seq<InventoryChange>, next: InventoryChange)
    requires Absorbs(item, next) && ClearOf(item, mids) && (item.Swap? ==> item.first != item.second)
    requires ReplayFitting(items, [item] + (mids + [next])).Some?
    ensures ReplayFitting(items, mids + Folded(item, next)) == ReplayFitting(items, [item] + (mids + [next]))
  {
    var at := SlideForward(items, item, mids, next);
    FoldFits(at, item, next);
    ReplayConcat(FittingKinds(), items, mids, Folded(item, next));
    if item.Merge(next).Merged? {
      ReplayOne(at, item.Merge(next).merged);
    }
  }

  /** An addition or a proper move: what touches its slots next does not fit without it. */
  predicate Needed(item: InventoryChange) {
    item.AddItem? || (item.MoveItem? && item.source != item.target)
  }

  lemma TouchingNeeds(at: Slots, item: InventoryChange, m: InventoryChange)
    requires Needed(item) && Two(FittingKinds(), at, item, m).Some? && !(item.Footprint() !! m.Footprint())
    ensures !m.Fits(at)
  {
    assert item.Fits(at) && m.Fits(item.Effect(at));
    var slot :| slot in item.Footprint() && slot in m.Footprint();
    if item.AddItem? {
      assert slot !in at;
    } else {
      assert item.source in at && item.target !in at;
      assert item.source !in item.Effect(at) && item.target in item.Effect(at);
    }
  }

  lemma {:induction false} FirstTouching(item: InventoryChange, mids: seq<InventoryChange>) returns (first: nat)
    requires !ClearOf(item, mids)
    ensures first < |mids| && ClearOf(item, mids[..first])
    ensures !(item.Footprint() !! mids[first].Footprint())
  {
    var front, last := mids[..|mids| - 1], |mids| - 1;
    if ClearOf(item, front) {
      first := last;
    } else {
      first := FirstTouching(item, front);
      assert front[..first] == mids[..first];
    }
  }

  lemma StopsAt(items: Slots, before: seq<InventoryChange>, m: InventoryChange, after: seq<InventoryChange>, at: Slots)
    requires ReplayFitting(items, before) == Some(at) && !m.Fits(at)
    ensures ReplayFitting(items, before + ([m] + after)).None?
  {
    ReplayConcat(FittingKinds(), items, before, [m] + after);
    assert ([m] + after)[0] == m;
  }

  /** What jumps over a change of its slots leaves that change without what it needs. */
  lemma TouchedAbsorption(items: Slots, item: InventoryChange, mids: seq<InventoryChange>, next: InventoryChange)
    requires Absorbs(item, next) && Needed(item) && !ClearOf(item, mids)
    requires ReplayFitting(items, [item] + (mids + [next])).Some?
    ensures ReplayFitting(items, mids + Folded(item, next)).None?
  {
    var first := FirstTouching(item, mids);
    var before, m, after := mids[..first], mids[first], mids[first + 1..];
    assert mids == before + [m] + after;
    assert [item] + (mids + [next]) == ([item] + (before + [m])) + (after + [next]);
    ReplayConcat(FittingKinds(), items, [item] + (before + [m]), after + [next]);
    var at := SlideForward(items, item, before, m);
    TouchingNeeds(at, item, m);
    StopsAt(items, before, m, after + Folded(item, next), at);
    assert mids + Folded(item, next) == before + ([m] + (after + Folded(item, next)));
  }

  /** A move of a slot onto itself. */
  lemma SelfMoveAbsorption(items: Slots, item: InventoryChange, mids: seq<InventoryChange>, next: InventoryChange)
    requires Absorbs(item, next) && SelfMove(item)
    requires ReplayFitting(items, [item] + (mids + [next])).Some?
    ensures ReplayFitting(items, mids + Folded(item, next)) == ReplayFitting(items, [item] + (mids + [next]))
  {
    assert Folded(item, next) == [next];
    ReplayConcat(FittingKinds(), items, [item], mids + [next]);
    ReplayOne(items, item);
    assert item.Effect(items) == items;
  }

  // ---------------------------------------------------------------- A data change that is left out

  /** `items` with other data in one slot. */
  function WithData(items: Slots, slot: u8, data: ItemTypeData): Slots {
    if slot in items then items[slot := items[slot].(typeData := data)] else items
  }

  /** Two slot maps that differ in the data of one item at most go on alike: the item keeps its slot in both,
      and the difference lasts until the item goes or its data is written. */
  lemma TwinStep(a: Slots, slot: u8, data: ItemTypeData, c: InventoryChange)
    requires slot in a && c.Fits(a)
    ensures c.Fits(WithData(a, slot, data))
    ensures var trail := FollowOne(slot, c);
      if trail.At? && !trail.touched
      then trail.slot in c.Effect(a) && c.Effect(a)[trail.slot] == a[slot]
        && c.Effect(WithData(a, slot, data)) == WithData(c.Effect(a), trail.slot, data)
      else c.Effect(WithData(a, slot, data)) == c.Effect(a)
  {
    var b := WithData(a, slot, data);
    match c {
      case AddItem(_, _) => assert c.Effect(b) == WithData(c.Effect(a), slot, data);
      case ChangeTypeData(changed, _, _) =>
        assert changed != slot ==> c.Effect(b) == WithData(c.Effect(a), slot, data);
      case MoveItem(source, target) =>
        assert c.Effect(b) == WithData(c.Effect(a), if source == slot then target else slot, data);
      case RemoveItem(_) =>
      case Swap(_, _) =>
    }
  }

  lemma {:induction false} TwinRun(a: Slots, slot: u8, data: ItemTypeData, log: seq<InventoryChange>)
    requires slot in a && ReplayFitting(a, log).Some?
    ensures ReplayFitting(WithData(a, slot, data), log).Some?
    ensures var end, trail := ReplayFitting(a, log).value, Follow(slot, log);
      if trail.At? && !trail.touched
      then trail.slot in end && end[trail.slot] == a[slot]
        && ReplayFitting(WithData(a, slot, data), log).value == WithData(end, trail.slot, data)
      else ReplayFitting(WithData(a, slot, data), log).value == end
    decreases log
  {
    if log != [] {
      TwinStep(a, slot, data, log[0]);
      var next := FollowOne(slot, log[0]);
      if next.At? && !next.touched {
        TwinRun(log[0].Effect(a), next.slot, data, log[1..]);
      }
    }
  }

  /** The later change, where the data of one item may differ. */
  lemma TwinEnd(a: Slots, place: u8, data: ItemTypeData, item: InventoryChange, next: InventoryChange)
    requires Absorbs(item, next) && item.ChangeTypeData? && next.Fits(a) && place in a
    ensures ReplayFitting(a, Folded(item, next)) == Some(next.Effect(a))
    ensures ReplayFitting(WithData(a, place, data), Folded(item, next)) ==
      Some(if place == item.slot then next.Effect(a) else WithData(next.Effect(a), place, data))
  {
    var res, b := item.Merge(next).merged, WithData(a, place, data);
    ReplayOne(a, res);
    ReplayOne(b, res);
    if place == item.slot {
      assert res.Effect(b) == next.Effect(a);
    } else {
      assert res.Effect(b) == WithData(next.Effect(a), place, data);
    }
  }

  /** What is left of a data change at the end of the stretch when it is folded into the later one: where its
      item ends elsewhere, the old data. */
  lemma DataLeftBehind(items: Slots, item: InventoryChange, mids: seq<InventoryChange>, next: InventoryChange)
    returns (final: Slots)
    requires Absorbs(item, next) && item.ChangeTypeData?
    requires ReplayFitting(items, [item] + (mids + [next])).Some?
    ensures item.slot in items && ReplayFitting(items, [item] + (mids + [next])) == Some(final)
    ensures ReplayFitting(items, mids + Folded(item, next)) ==
      Some(if Elsewhere(item.slot, mids)
           then WithData(final, Follow(item.slot, mids).slot, items[item.slot].typeData)
           else final)
    ensures Elsewhere(item.slot, mids) ==>
      var place := Follow(item.slot, mids).slot;
      place in final && final[place] == items[item.slot].(typeData := item.newItem)
  {
    var A := FittingKinds();
    ReplayConcat(A, items, [item], mids + [next]);
    ReplayOne(items, item);
    var changed, oldData := item.Effect(items), items[item.slot].typeData;
    assert items == WithData(changed, item.slot, oldData);
    ReplayConcat(A, changed, mids, [next]);
    ReplayConcat(A, items, mids, Folded(item, next));
    TwinRun(changed, item.slot, oldData, mids);
    var a, trail := ReplayFitting(changed, mids).value, Follow(item.slot, mids);
    ReplayOne(a, next);
    final := next.Effect(a);
    if trail.At? && !trail.touched {
      TwinEnd(a, trail.slot, oldData, item, next);
    } else {
      FoldedAlone(a, item, next);
    }
  }

  lemma FoldedAlone(a: Slots, item: InventoryChange, next: InventoryChange)
    requires Absorbs(item, next) && item.ChangeTypeData? && next.Fits(a)
    ensures ReplayFitting(a, Folded(item, next)) == Some(next.Effect(a))
  {
    ReplayOne(a, item.Merge(next).merged);
  }

  lemma SameDataExactly(items: Slots, slot: u8, data: ItemTypeData)
    requires slot in items
    ensures WithData(items, slot, data) == items <==> items[slot].typeData == data
  {
    assert WithData(items, slot, data)[slot].typeData == data;
  }

  // ---------------------------------------------------------------- One absorption, exactly

  function StateAfter(items: Slots, log: seq<InventoryChange>): Slots {
    var end := ReplayFitting(items, log);
    if end.Some? then end.value else items
  }

  /** In a working list that fits, folding an addition, a data change or a move into a later change keeps the
      effect of the list if and only if it is absorbable. */
  lemma AbsorptionExact(items: Slots, rest: seq<InventoryChange>, item: InventoryChange, mids: seq<InventoryChange>,
                        next: InventoryChange)
    requires Absorbs(item, next) && !item.Swap?
    requires ReplayFitting(items, rest + ([item] + (mids + [next]))).Some?
    ensures ReplayFitting(items, rest + (mids + Folded(item, next)))
         == ReplayFitting(items, rest + ([item] + (mids + [next])))
      <==> Absorbable(StateAfter(items, rest), item, mids)
  {
    ReplayConcat(FittingKinds(), items, rest, [item] + (mids + [next]));
    ReplayConcat(FittingKinds(), items, rest, mids + Folded(item, next));
    var at := StateAfter(items, rest);
    if SelfMove(item) {
      SelfMoveAbsorption(at, item, mids, next);
    } else if item.ChangeTypeData? {
      var final := DataLeftBehind(at, item, mids, next);
      if Elsewhere(item.slot, mids) {
        SameDataExactly(final, Follow(item.slot, mids).slot, at[item.slot].typeData);
      }
    } else if ClearOf(item, mids) {
      ClearAbsorption(at, item, mids, next);
    } else {
      TouchedAbsorption(at, item, mids, next);
    }
  }

  /** Two swaps that cancel, across changes that the second one is indifferent to: right if and only
      if the first is not a swap of a slot with itself, or the second swaps like with like. */
  lemma CancelledSwapExact(items: Slots, swap: InventoryChange, mids: seq<InventoryChange>, next: InventoryChange)
    requires swap.Swap? && Absorbs(swap, next)
    requires forall i :: 0 <= i < |mids| ==> mids[i].Merge(next).Unchanged?
    requires ReplayFitting(items, [swap] + (mids + [next])).Some?
    ensures ReplayFitting(items, mids).Some?
    ensures ReplayFitting(items, mids) == ReplayFitting(items, [swap] + (mids + [next])) <==>
      var at := ReplayFitting(items, mids).value;
      swap.first != swap.second || (next.second in at && next.first in at && at[next.second] == at[next.first])
  {
    assert swap.Footprint() <= next.Footprint();
    var at := SlideForward(items, swap, mids, next);
    assert Two(AllKinds(), at, swap, next) == Two(FittingKinds(), at, swap, next);
    MergeTableSound(at, swap, next);
  }

  // ---------------------------------------------------------------- Whole runs

  /** The run of `merge_recursive` from this position absorbs only what is absorbable. */
  predicate RightWalk(items: Slots, todo: seq<InventoryChange>, tail: seq<InventoryChange>)
    decreases |todo|
  {
    if todo == [] || tail == [] then true
    else
      var rest, item := todo[..|todo| - 1], todo[|todo| - 1];
      var mids, next := tail[..|tail| - 1], tail[|tail| - 1];
      var answer := item.Merge(next);
      if answer.Unchanged? then RightWalk(items, rest, [answer.left] + mids + [answer.right])
      else
        answer.Incompatible?
        || (Absorbable(StateAfter(items, rest), item, mids) && RightWalk(items, rest, mids + Folded(item, next)))
  }

  /** So does the run of `optimize` on the rest of a log. */
  predicate RightRun(items: Slots, acc: seq<InventoryChange>, log: seq<InventoryChange>)
    decreases |log|
  {
    log == [] || (RightWalk(items, acc, [log[0]]) && RightRun(items, Walk(MergeChanges, acc, [log[0]]), log[1..]))
  }

  lemma AbsorbableIsRight(items: Slots, rest: seq<InventoryChange>, item: InventoryChange,
                          mids: seq<InventoryChange>, next: InventoryChange)
    requires Absorbs(item, next) && Absorbable(StateAfter(items, rest), item, mids)
    requires ReplayFitting(items, rest + ([item] + (mids + [next]))).Some?
    ensures ReplayFitting(items, rest + (mids + Folded(item, next)))
         == ReplayFitting(items, rest + ([item] + (mids + [next])))
  {
    if item.Swap? {
      ReplayConcat(FittingKinds(), items, rest, [item] + (mids + [next]));
      ReplayConcat(FittingKinds(), items, rest, mids + Folded(item, next));
      ClearAbsorption(StateAfter(items, rest), item, mids, next);
    } else {
      AbsorptionExact(items, rest, item, mids, next);
    }
  }

  lemma {:induction false} RightWalkIsSound(items: Slots, todo: seq<InventoryChange>, tail: seq<InventoryChange>)
    requires RightWalk(items, todo, tail) && ReplayFitting(items, todo + tail).Some?
    ensures ReplayFitting(items, Walk(MergeChanges, todo, tail)) == ReplayFitting(items, todo + tail)
    decreases |todo|
  {
    if todo == [] || tail == [] {
      assert todo + tail == if todo == [] then tail else todo;
    } else {
      var rest, item := todo[..|todo| - 1], todo[|todo| - 1];
      var mids, next := tail[..|tail| - 1], tail[|tail| - 1];
      assert todo + tail == rest + ([item] + (mids + [next]));
      assert [item] + (mids + [next]) == [item] + mids + [next];
      if item.Merge(next).Unchanged? {
        RightWalkIsSound(items, rest, [item] + mids + [next]);
      } else if Absorbs(item, next) {
        AbsorbableIsRight(items, rest, item, mids, next);
        assert mids + [] == mids;
        RightWalkIsSound(items, rest, mids + Folded(item, next));
      }
    }
  }

  lemma {:induction false} RightRunIsSound(items: Slots, acc: seq<InventoryChange>, log: seq<InventoryChange>)
    requires RightRun(items, acc, log) && ReplayFitting(items, acc + log).Some?
    ensures ReplayFitting(items, OptimizeFrom(MergeChanges, acc, log)) == ReplayFitting(items, acc + log)
    decreases |log|
  {
    if log == [] {
      assert acc + log == acc;
    } else {
      var acc', later := Walk(MergeChanges, acc, [log[0]]), log[1..];
      assert acc + log == (acc + [log[0]]) + later;
      ReplayConcat(FittingKinds(), items, acc + [log[0]], later);
      RightWalkIsSound(items, acc, [log[0]]);
      ReplayConcat(FittingKinds(), items, acc', later);
      RightRunIsSound(items, acc', later);
    }
  }

  /** Over all five kinds: a log that fits keeps its effect when every absorption along the run is right. */
  lemma AnyLogSoundWhenRight(items: Slots, log: seq<InventoryChange>)
    requires ReplayFitting(items, log).Some? && RightRun(items, [], log)
    ensures ReplayFitting(items, OptimizeChanges(log)) == ReplayFitting(items, log)
  {
    if |log| > 1 {
      assert [] + log == log;
      RightRunIsSound(items, [], log);
    }
  }

  // ---------------------------------------------------------------- Whole runs, exactly

  /** A swap that is cancelled is proper and clear of what stands before its counterpart. */
  predicate SwapsClearWalk(todo: seq<InventoryChange>, tail: seq<InventoryChange>)
    decreases |todo|
  {
    if todo == [] || tail == [] then true
    else
      var rest, item := todo[..|todo| - 1], todo[|todo| - 1];
      var mids, next := tail[..|tail| - 1], tail[|tail| - 1];
      var answer := item.Merge(next);
      if answer.Unchanged? then SwapsClearWalk(rest, [answer.left] + mids + [answer.right])
      else
        answer.Incompatible?
        || ((item.Swap? ==> item.first != item.second && ClearOf(item, mids))
            && SwapsClearWalk(rest, mids + Folded(item, next)))
  }

  predicate SwapsClear(acc: seq<InventoryChange>, log: seq<InventoryChange>)
    decreases |log|
  {
    log == [] || (SwapsClearWalk(acc, [log[0]]) && SwapsClear(Walk(MergeChanges, acc, [log[0]]), log[1..]))
  }

  /** Every working list on the way has the effect of the first one. */
  ghost predicate WalkKeeps(items: Slots, todo: seq<InventoryChange>, tail: seq<InventoryChange>)
    decreases |todo|
  {
    if todo == [] || tail == [] then true
    else
      var rest, item := todo[..|todo| - 1], todo[|todo| - 1];
      var mids, next := tail[..|tail| - 1], tail[|tail| - 1];
      var answer := item.Merge(next);
      if answer.Unchanged? then WalkKeeps(items, rest, [answer.left] + mids + [answer.right])
      else
        answer.Incompatible?
        || (ReplayFitting(items, rest + (mids + Folded(item, next))) == ReplayFitting(items, todo + tail)
            && WalkKeeps(items, rest, mids + Folded(item, next)))
  }

  ghost predicate RunKeeps(items: Slots, acc: seq<InventoryChange>, log: seq<InventoryChange>)
    decreases |log|
  {
    log == [] || (WalkKeeps(items, acc, [log[0]]) && RunKeeps(items, Walk(MergeChanges, acc, [log[0]]), log[1..]))
  }

  lemma {:induction false} WalkKeepsExactly(items: Slots, todo: seq<InventoryChange>, tail: seq<InventoryChange>)
    requires SwapsClearWalk(todo, tail) && ReplayFitting(items, todo + tail).Some?
    ensures WalkKeeps(items, todo, tail) <==> RightWalk(items, todo, tail)
    decreases |todo|
  {
    if todo != [] && tail != [] {
      var rest, item := todo[..|todo| - 1], todo[|todo| - 1];
      var mids, next := tail[..|tail| - 1], tail[|tail| - 1];
      assert todo + tail == rest + ([item] + (mids + [next]));
      if item.Merge(next).Unchanged? {
        assert [item] + (mids + [next]) == [item] + mids + [next];
        WalkKeepsExactly(items, rest, [item] + mids + [next]);
      } else if Absorbs(item, next) {
        IterationExact(items, rest, item, mids, next);
        if Absorbable(StateAfter(items, rest), item, mids) {
          WalkKeepsExactly(items, rest, mids + Folded(item, next));
        }
      }
    }
  }

  lemma IterationExact(items: Slots, rest: seq<InventoryChange>, item: InventoryChange, mids: seq<InventoryChange>,
                       next: InventoryChange)
    requires Absorbs(item, next) && (item.Swap? ==> Absorbable(StateAfter(items, rest), item, mids))
    requires ReplayFitting(items, rest + ([item] + (mids + [next]))).Some?
    ensures ReplayFitting(items, rest + (mids + Folded(item, next)))
         == ReplayFitting(items, rest + ([item] + (mids + [next])))
      <==> Absorbable(StateAfter(items, rest), item, mids)
  {
    if item.Swap? {
      AbsorbableIsRight(items, rest, item, mids, next);
    } else {
      AbsorptionExact(items, rest, item, mids, next);
    }
  }

  lemma {:induction false} RunKeepsExactly(items: Slots, acc: seq<InventoryChange>, log: seq<InventoryChange>)
    requires SwapsClear(acc, log) && ReplayFitting(items, acc + log).Some?
    ensures RunKeeps(items, acc, log) <==> RightRun(items, acc, log)
    decreases |log|
  {
    if log != [] {
      var acc', later := Walk(MergeChanges, acc, [log[0]]), log[1..];
      assert acc + log == (acc + [log[0]]) + later;
      ReplayConcat(FittingKinds(), items, acc + [log[0]], later);
      WalkKeepsExactly(items, acc, [log[0]]);
      if RightWalk(items, acc, [log[0]]) {
        RightWalkIsSound(items, acc, [log[0]]);
        ReplayConcat(FittingKinds(), items, acc', later);
        RunKeepsExactly(items, acc', later);
      }
    }
  }

  /** The whole run on a log that fits, exactly: every working list on the way keeps the effect of what it
      stands for if and only if every absorption is right. (Of swaps only clear ones may be cancelled.) */
  lemma EveryIterationKeepsEffect(items: Slots, log: seq<InventoryChange>)
    requires SwapsClear([], log) && ReplayFitting(items, log).Some?
    ensures RunKeeps(items, [], log) <==> RightRun(items, [], log)
  {
    assert [] + log == log;
    RunKeepsExactly(items, [], log);
  }
}
