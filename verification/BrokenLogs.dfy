/** Logs whose optimised form leaves the wrong table, and one that comes out right by luck. */
module BrokenLogs {
  import opened Wrappers
  import opened Words
  import opened Changes
  import opened InventoryChanges
  import opened Absorptions
  import opened ItemTables

  // ---------------------------------------------------------------- The walk over a few changes

  /** One entry of the working list that a new change passes over. */
  lemma PassOver(rest: seq<InventoryChange>, item: InventoryChange, mids: seq<InventoryChange>, c: InventoryChange)
    requires item.Merge(c) == Unchanged(item, c)
    ensures Walk(MergeChanges, rest + [item], mids + [c]) == Walk(MergeChanges, rest, [item] + mids + [c])
  {
    var todo, tail := rest + [item], mids + [c];
    assert todo[..|todo| - 1] == rest && tail[..|tail| - 1] == mids;
  }

  /** One entry that it is folded with. */
  lemma FoldedInto(rest: seq<InventoryChange>, item: InventoryChange, mids: seq<InventoryChange>, c: InventoryChange)
    requires Absorbs(item, c)
    ensures Walk(MergeChanges, rest + [item], mids + [c]) == Walk(MergeChanges, rest, mids + Folded(item, c))
  {
    var todo, tail := rest + [item], mids + [c];
    assert todo[..|todo| - 1] == rest && tail[..|tail| - 1] == mids;
    assert mids + [] == mids;
  }

  /** A second change that the table does not fold into the first. */
  lemma SecondStays(a: InventoryChange, b: InventoryChange)
    requires !Absorbs(a, b)
    ensures Walk(MergeChanges, [a], [b]) == [a, b]
  {
    assert a.Merge(b) == Unchanged(a, b) || a.Merge(b) == Incompatible(a, b);
    assert [a][..0] == [] && [b][..0] == [] && [a] + [] + [b] == [a, b] && [] + [a, b] == [a, b];
  }

  lemma ThirdStays(a: InventoryChange, b: InventoryChange, c: InventoryChange)
    requires b.Merge(c) == Unchanged(b, c) && a.Merge(c) == Unchanged(a, c)
    ensures Walk(MergeChanges, [a, b], [c]) == [a, b, c]
  {
    PassOver([a], b, [], c);
    assert [a, b] == [a] + [b] && [] + [c] == [c] && [b] + [] + [c] == [b] + [c];
    PassOver([], a, [b], c);
    assert [] + [a] == [a] && [a] + [b] + [c] == [a, b, c];
  }

  /** A third change that reaches the first over the second. */
  lemma ThirdFolded(a: InventoryChange, b: InventoryChange, c: InventoryChange)
    requires b.Merge(c) == Unchanged(b, c) && Absorbs(a, c)
    ensures Walk(MergeChanges, [a, b], [c]) == [b] + Folded(a, c)
  {
    PassOver([a], b, [], c);
    assert [a, b] == [a] + [b] && [] + [c] == [c] && [b] + [] + [c] == [b] + [c];
    FoldedInto([], a, [b], c);
    assert [] + [a] == [a];
  }

  /** A fourth change that reaches the first over the others. */
  lemma FourthFolded(a: InventoryChange, b: InventoryChange, c: InventoryChange, d: InventoryChange)
    requires c.Merge(d) == Unchanged(c, d) && b.Merge(d) == Unchanged(b, d) && Absorbs(a, d)
    ensures Walk(MergeChanges, [a, b, c], [d]) == [b, c] + Folded(a, d)
  {
    FourthPasses(a, b, c, d);
    FoldedInto([], a, [b, c], d);
    assert [] + [a] == [a] && [b, c] + [d] == [b, c, d];
  }

  lemma FourthPasses(a: InventoryChange, b: InventoryChange, c: InventoryChange, d: InventoryChange)
    requires c.Merge(d) == Unchanged(c, d) && b.Merge(d) == Unchanged(b, d)
    ensures Walk(MergeChanges, [a, b, c], [d]) == Walk(MergeChanges, [a], [b, c, d])
  {
    PassLast([a, b, c], [d], [a, b], c, [c, d]);
    PassLast([a, b], [c, d], [a], b, [b, c, d]);
  }

  /** One entry that a new change passes over, with the working lists given. */
  lemma PassLast(todo: seq<InventoryChange>, tail: seq<InventoryChange>, rest: seq<InventoryChange>,
                 item: InventoryChange, longer: seq<InventoryChange>)
    requires todo == rest + [item] && longer == [item] + tail && tail != []
    requires item.Merge(tail[|tail| - 1]) == Unchanged(item, tail[|tail| - 1])
    ensures Walk(MergeChanges, todo, tail) == Walk(MergeChanges, rest, longer)
  {
    var mids, c := tail[..|tail| - 1], tail[|tail| - 1];
    assert tail == mids + [c] && longer == [item] + mids + [c];
    PassOver(rest, item, mids, c);
  }

  /** The fold of `optimize` over three and over four changes. */
  lemma OptimizeThree(a: InventoryChange, b: InventoryChange, c: InventoryChange, two: seq<InventoryChange>,
                      three: seq<InventoryChange>)
    requires Walk(MergeChanges, [a], [b]) == two && Walk(MergeChanges, two, [c]) == three
    ensures OptimizeChanges([a, b, c]) == three
  {
    var log := [a, b, c];
    assert log[1..] == [b, c] && [b, c][1..] == [c] && [c][1..] == [];
    assert OptimizeFrom(MergeChanges, [], log) == OptimizeFrom(MergeChanges, [a], [b, c]);
    assert OptimizeFrom(MergeChanges, [a], [b, c]) == OptimizeFrom(MergeChanges, two, [c]);
    assert OptimizeFrom(MergeChanges, two, [c]) == OptimizeFrom(MergeChanges, three, []);
  }

  lemma OptimizeFour(a: InventoryChange, b: InventoryChange, c: InventoryChange, d: InventoryChange,
                     two: seq<InventoryChange>, three: seq<InventoryChange>, four: seq<InventoryChange>)
    requires Walk(MergeChanges, [a], [b]) == two && Walk(MergeChanges, two, [c]) == three
    requires Walk(MergeChanges, three, [d]) == four
    ensures OptimizeChanges([a, b, c, d]) == four
  {
    var log := [a, b, c, d];
    assert log[1..] == [b, c, d] && [b, c, d][1..] == [c, d] && [c, d][1..] == [d] && [d][1..] == [];
    assert OptimizeFrom(MergeChanges, [], log) == OptimizeFrom(MergeChanges, [a], [b, c, d]);
    assert OptimizeFrom(MergeChanges, [a], [b, c, d]) == OptimizeFrom(MergeChanges, two, [c, d]);
    assert OptimizeFrom(MergeChanges, two, [c, d]) == OptimizeFrom(MergeChanges, three, [d]);
    assert OptimizeFrom(MergeChanges, three, [d]) == OptimizeFrom(MergeChanges, four, []);
  }

  // ---------------------------------------------------------------- A few changes replayed

  lemma ReplayStep(items: Slots, c: InventoryChange, later: seq<InventoryChange>)
    ensures ReplayChanges(items, [c] + later) == if c.Legal(items) then ReplayChanges(c.Effect(items), later) else None
    ensures TableLog(items, [c] + later) == TableLog(TableEffect(items, c), later)
  {
    assert ([c] + later)[1..] == later;
  }

  lemma ReplayThree(items: Slots, a: InventoryChange, b: InventoryChange, c: InventoryChange)
    ensures TableLog(items, [a, b, c]) == TableEffect(TableEffect(TableEffect(items, a), b), c)
    ensures a.Legal(items) && b.Legal(a.Effect(items)) && c.Legal(b.Effect(a.Effect(items))) ==>
      ReplayChanges(items, [a, b, c]) == Some(c.Effect(b.Effect(a.Effect(items))))
  {
    assert [a, b, c] == [a] + [b, c] && [b, c] == [b] + [c] && [c] == [c] + [];
    ReplayStep(items, a, [b, c]);
    ReplayStep(TableEffect(items, a), b, [c]);
    ReplayStep(TableEffect(TableEffect(items, a), b), c, []);
    if a.Legal(items) && b.Legal(a.Effect(items)) {
      ReplayStep(a.Effect(items), b, [c]);
      ReplayStep(b.Effect(a.Effect(items)), c, []);
    }
  }

  lemma ReplayFour(items: Slots, a: InventoryChange, b: InventoryChange, c: InventoryChange, d: InventoryChange)
    requires a.Legal(items) && b.Legal(a.Effect(items)) && c.Legal(b.Effect(a.Effect(items)))
    requires d.Legal(c.Effect(b.Effect(a.Effect(items))))
    ensures ReplayChanges(items, [a, b, c, d]) == Some(d.Effect(c.Effect(b.Effect(a.Effect(items)))))
  {
    assert [a, b, c, d] == [a] + [b, c, d];
    ReplayStep(items, a, [b, c, d]);
    ReplayThree(a.Effect(items), b, c, d);
  }

  /** After applying the optimised log to rows that match, the table does not match the inventory. */
  ghost predicate LeavesWrongTable(items: Slots, log: seq<InventoryChange>) {
    && ReplayChanges(items, log).Some?
    && forall rows: Rows, character: u32 :: Matches(rows, character, items) ==>
         !Matches(ApplyLog(rows, character, OptimizeChanges(log)), character, ReplayChanges(items, log).value)
  }

  lemma WrongTable(items: Slots, log: seq<InventoryChange>, final: Slots)
    requires ReplayChanges(items, log) == Some(final) && !SameRows(TableLog(items, OptimizeChanges(log)), final)
    ensures LeavesWrongTable(items, log)
  {
    forall rows: Rows, character: u32 | Matches(rows, character, items)
      ensures !Matches(ApplyLog(rows, character, OptimizeChanges(log)), character, final)
    {
      LogDoes(rows, character, items, OptimizeChanges(log));
      MatchesBoth(ApplyLog(rows, character, OptimizeChanges(log)), character, TableLog(items, OptimizeChanges(log)), final);
    }
  }

  // ---------------------------------------------------------------- A move folded too far

  /** A move {1 -> 2}, an addition into the slot it freed and a removal of slot 2 come out as an addition to
      slot 1, still taken in the table, followed by its removal: the added item is lost. */
  lemma MovesBreakTheOptimizer(held: Item, added: Item)
    ensures
      var items: Slots := map[1 := held];
      var log := [MoveItem(1, 2), AddItem(1, added), RemoveItem(2)];
      && ReplayChanges(items, log) == Some(map[1 := added])
      && OptimizeChanges(log) == [AddItem(1, added), RemoveItem(1)]
      && TableLog(items, OptimizeChanges(log)) == map[]
      && LeavesWrongTable(items, log)
  {
    var items: Slots := map[1 := held];
    var m, a, r := MoveItem(1, 2), AddItem(1, added), RemoveItem(2);
    ReplayThree(items, m, a, r);
    assert r.Effect(a.Effect(m.Effect(items))) == map[1 := added];
    SecondStays(m, a);
    ThirdFolded(m, a, r);
    assert [a] + [RemoveItem(1)] == [a, RemoveItem(1)];
    OptimizeThree(m, a, r, [m, a], [a, RemoveItem(1)]);
    ReplayStep(items, a, [RemoveItem(1)]);
    ReplayStep(TableEffect(items, a), RemoveItem(1), []);
    assert [RemoveItem(1)] == [RemoveItem(1)] + [] && items[1 := added] - {1} == map[];
    WrongTable(items, [m, a, r], map[1 := added]);
  }

  // ---------------------------------------------------------------- A data change folded too far

  /** Ten items grow to fifteen and are moved away, others move in and grow: both data changes of the slot are
      folded, and the items that were moved away keep the old amount in the table. No move is absorbed. */
  lemma DataBreaksTheOptimizer(moved: Item, left: Item)
    requires moved.typeData == Consumable(15) && left.typeData == Consumable(10)
    ensures
      var items: Slots := map[13 := moved, 14 := left];
      var first := ChangeTypeData(14, Consumable(10), Consumable(15));
      var last := ChangeTypeData(14, Consumable(15), Consumable(20));
      var log := [first, MoveItem(14, 16), MoveItem(13, 14), last];
      var grown := moved.(typeData := Consumable(20));
      && ReplayChanges(items, log) == Some(map[14 := grown, 16 := left.(typeData := Consumable(15))])
      && OptimizeChanges(log) == [MoveItem(14, 16), MoveItem(13, 14), ChangeTypeData(14, Consumable(10), Consumable(20))]
      && TableLog(items, OptimizeChanges(log)) == map[14 := grown, 16 := left]
      && LeavesWrongTable(items, log)
  {
    var items: Slots := map[13 := moved, 14 := left];
    var first := ChangeTypeData(14, Consumable(10), Consumable(15));
    var last := ChangeTypeData(14, Consumable(15), Consumable(20));
    var away, there := MoveItem(14, 16), MoveItem(13, 14);
    DataReplays(items, first, away, there, last);
    DataFolded(first, away, there, last);
    var log := [first, away, there, last];
    WrongData(items, log, TableLog(items, OptimizeChanges(log)), ReplayChanges(items, log).value, 16);
  }

  lemma WrongData(items: Slots, log: seq<InventoryChange>, got: Slots, final: Slots, slot: u8)
    requires ReplayChanges(items, log) == Some(final) && TableLog(items, OptimizeChanges(log)) == got
    requires slot in got && slot in final && !SameColumns(got[slot].typeData, final[slot].typeData)
    ensures LeavesWrongTable(items, log)
  {
    assert !Alike(got[slot], final[slot]);
    WrongTable(items, log, final);
  }

  lemma DataReplays(items: Slots, first: InventoryChange, away: InventoryChange, there: InventoryChange,
                    last: InventoryChange)
    requires items.Keys == {13, 14} && items[13].typeData == Consumable(15) && items[14].typeData == Consumable(10)
    requires first == ChangeTypeData(14, Consumable(10), Consumable(15))
    requires last == ChangeTypeData(14, Consumable(15), Consumable(20))
    requires away == MoveItem(14, 16) && there == MoveItem(13, 14)
    ensures ReplayChanges(items, [first, away, there, last]) ==
      Some(map[14 := items[13].(typeData := Consumable(20)), 16 := items[14].(typeData := Consumable(15))])
    ensures TableLog(items, [away, there, ChangeTypeData(14, Consumable(10), Consumable(20))]) ==
      map[14 := items[13].(typeData := Consumable(20)), 16 := items[14]]
  {
    var grown := items[13].(typeData := Consumable(20));
    assert last.Effect(there.Effect(away.Effect(first.Effect(items))))
        == map[14 := grown, 16 := items[14].(typeData := Consumable(15))];
    ReplayFour(items, first, away, there, last);
    var folded := ChangeTypeData(14, Consumable(10), Consumable(20));
    ReplayThree(items, away, there, folded);
    assert TableEffect(TableEffect(TableEffect(items, away), there), folded) == map[14 := grown, 16 := items[14]];
  }

  lemma DataFolded(first: InventoryChange, away: InventoryChange, there: InventoryChange, last: InventoryChange)
    requires first.Merge(away) == Incompatible(first, away)
    requires first.Merge(there) == Unchanged(first, there) && away.Merge(there) == Unchanged(away, there)
    requires away.Merge(last) == Unchanged(away, last) && there.Merge(last) == Unchanged(there, last)
    requires first.Merge(last).Merged?
    ensures OptimizeChanges([first, away, there, last]) == [away, there, first.Merge(last).merged]
  {
    SecondStays(first, away);
    ThirdStays(first, away, there);
    FourthFolded(first, away, there, last);
    var folded := first.Merge(last).merged;
    assert [away, there] + [folded] == [away, there, folded];
    OptimizeFour(first, away, there, last, [first, away], [first, away, there], [away, there, folded]);
  }

  // ---------------------------------------------------------------- A slot refilled before a write without order

  lemma ThirdBehind(a: InventoryChange, b: InventoryChange, c: InventoryChange)
    requires b.Merge(c) == Unchanged(b, c) && a.Merge(c) == Incompatible(a, c)
    ensures Walk(MergeChanges, [a, b], [c]) == [a, b, c]
  {
    PassLast([a, b], [c], [a], b, [b, c]);
    assert [a][..0] == [] && [b, c][..1] == [b] && [] + ([a] + [b] + [c]) == [a, b, c];
  }

  /** A stack moved onto another one and an item picked up into the slot it left: the optimised log is the log,
      and with the removal last - the statements run side by side - the picked-up item is lost. */
  lemma RefilledSlotIsLost(away: Item, left: Item, found: Item)
    requires away.typeData == Consumable(5) && left.typeData == Consumable(10)
    ensures
      var items: Slots := map[14 := away, 15 := left];
      var grown := left.(typeData := Consumable(15));
      var remove, grow, add := RemoveItem(14), ChangeTypeData(15, Consumable(10), Consumable(15)), AddItem(14, found);
      && ReplayChanges(items, [remove, grow, add]) == Some(map[14 := found, 15 := grown])
      && OptimizeChanges([remove, grow, add]) == [remove, grow, add]
      && multiset([grow, add, remove]) == multiset([remove, grow, add])
      && TableLog(items, [grow, add, remove]) == map[15 := grown]
  {
    var items: Slots := map[14 := away, 15 := left];
    var remove, grow, add := RemoveItem(14), ChangeTypeData(15, Consumable(10), Consumable(15)), AddItem(14, found);
    RefillReplays(items, found, remove, grow, add);
    RefillStays(remove, grow, add);
    assert multiset([grow, add, remove]) == multiset{grow, add, remove} == multiset([remove, grow, add]);
  }

  lemma RefillReplays(items: Slots, found: Item, remove: InventoryChange, grow: InventoryChange, add: InventoryChange)
    requires items.Keys == {14, 15} && items[15].typeData == Consumable(10)
    requires remove == RemoveItem(14) && add == AddItem(14, found)
    requires grow == ChangeTypeData(15, Consumable(10), Consumable(15))
    ensures var grown := items[15].(typeData := Consumable(15));
      && ReplayChanges(items, [remove, grow, add]) == Some(map[14 := found, 15 := grown])
      && TableLog(items, [grow, add, remove]) == map[15 := grown]
  {
    var grown := items[15].(typeData := Consumable(15));
    assert remove.Effect(items) == map[15 := items[15]];
    assert grow.Effect(map[15 := items[15]]) == map[15 := grown];
    assert add.Effect(map[15 := grown]) == map[14 := found, 15 := grown];
    ReplayThree(items, remove, grow, add);
    assert TableEffect(items, grow) == map[14 := items[14], 15 := grown];
    assert TableEffect(map[14 := items[14], 15 := grown], add) == map[14 := found, 15 := grown];
    assert TableEffect(map[14 := found, 15 := grown], remove) == map[15 := grown];
    ReplayThree(items, grow, add, remove);
  }

  lemma RefillStays(remove: InventoryChange, grow: InventoryChange, add: InventoryChange)
    requires remove.Merge(grow) == Unchanged(remove, grow) && grow.Merge(add) == Unchanged(grow, add)
    requires remove.Merge(add) == Incompatible(remove, add)
    ensures OptimizeChanges([remove, grow, add]) == [remove, grow, add]
  {
    SecondStays(remove, grow);
    ThirdBehind(remove, grow, add);
    OptimizeThree(remove, grow, add, [remove, grow], [remove, grow, add]);
  }

  // ---------------------------------------------------------------- Wrong on the way, right in the end

  /** A wrong absorption may be made good by a later one: the move {1 -> 2} is folded over an addition to
      the slot it freed, and then that addition is cancelled. So no condition on single absorptions is
      necessary for whole runs. */
  lemma WrongAbsorptionsMayCancel(held: Item, added: Item)
    ensures
      var items: Slots := map[1 := held];
      var log := [MoveItem(1, 2), AddItem(1, added), MoveItem(2, 3), RemoveItem(1)];
      && ReplayChanges(items, log) == Some(map[3 := held])
      && OptimizeChanges(log) == [MoveItem(1, 3)]
      && ReplayChanges(items, OptimizeChanges(log)) == Some(map[3 := held])
      && !RightRun(items, [], log)
  {
    var items: Slots := map[1 := held];
    var m, a, n, r := MoveItem(1, 2), AddItem(1, added), MoveItem(2, 3), RemoveItem(1);
    assert r.Effect(n.Effect(a.Effect(m.Effect(items)))) == map[3 := held];
    ReplayFour(items, m, a, n, r);
    assert [MoveItem(1, 3)] == [MoveItem(1, 3)] + [] && MoveItem(1, 3).Effect(items) == map[3 := held];
    ReplayStep(items, MoveItem(1, 3), []);
    CancelFolded(m, a, n, r);
    WrongAtTheThird(items, m, a, n, r);
  }

  lemma CancelFolded(m: InventoryChange, a: InventoryChange, n: InventoryChange, r: InventoryChange)
    requires m.Merge(a) == Unchanged(m, a) && a.Merge(n) == Unchanged(a, n) && m.Merge(n).Merged?
    requires m.Merge(n).merged.Merge(r) == Unchanged(m.Merge(n).merged, r) && a.Merge(r).Cancelled?
    ensures OptimizeChanges([m, a, n, r]) == [m.Merge(n).merged]
  {
    var merged := m.Merge(n).merged;
    SecondStays(m, a);
    ThirdFolded(m, a, n);
    assert [a] + [merged] == [a, merged];
    ThirdFolded(a, merged, r);
    assert [merged] + [] == [merged];
    OptimizeFour(m, a, n, r, [m, a], [a, merged], [merged]);
  }

  lemma WrongAtTheThird(items: Slots, m: InventoryChange, a: InventoryChange, n: InventoryChange, r: InventoryChange)
    requires m.Merge(a) == Unchanged(m, a) && a.Merge(n) == Unchanged(a, n) && Absorbs(m, n)
    requires m.MoveItem? && m.source != m.target && !(m.Footprint() !! a.Footprint())
    ensures !RightRun(items, [], [m, a, n, r])
  {
    SecondStays(m, a);
    assert [a][0] == a;
    var log := [m, a, n, r];
    assert log[1..] == [a, n, r] && [a, n, r][1..] == [n, r] && Walk(MergeChanges, [], [m]) == [m];
    assert [m, a][..1] == [m] && [n][..0] == [] && [a] + [] + [n] == [a, n] && [a, n][..1] == [a] && [m][..0] == [];
    assert !RightWalk(items, [m], [a, n]);
    assert !RightWalk(items, [m, a], [n]);
    assert RightRun(items, [m, a], [n, r]) ==> RightWalk(items, [m, a], [n]);
    assert RightRun(items, [m], [a, n, r]) ==> RightRun(items, [m, a], [n, r]);
  }

  // ---------------------------------------------------------------- A walk that goes on after a cancellation

  /** A log with neither moves nor data changes that is broken: after the last pair has cancelled, the walk goes on
      with the removal in front of it, which cancels the first addition across the swap. */
  lemma CancellationGoesOn(x: Item, y: Item, z: Item)
    ensures
      var items: Slots := map[2 := z];
      var log := [AddItem(1, x), AddItem(5, y), Swap(1, 2), RemoveItem(1), RemoveItem(5)];
      && ReplayChanges(items, log) == Some(map[2 := x])
      && OptimizeChanges(log) == [Swap(1, 2)]
      && TableLog(items, OptimizeChanges(log)) == map[1 := z]
      && LeavesWrongTable(items, log)
  {
    var items: Slots := map[2 := z];
    var a, b, s, r, c := AddItem(1, x), AddItem(5, y), Swap(1, 2), RemoveItem(1), RemoveItem(5);
    var log := [a, b, s, r, c];
    FiveReplay(items, x, y, z, a, b, s, r, c);
    FiveWalks(a, b, s, r, c);
    assert TableEffect(items, s) == map[1 := z];
    ReplayStep(items, s, []);
    assert [s] == [s] + [];
    assert 2 in ReplayChanges(items, log).value && 2 !in TableLog(items, OptimizeChanges(log));
    WrongTable(items, log, map[2 := x]);
  }

  lemma FiveReplay(items: Slots, x: Item, y: Item, z: Item, a: InventoryChange, b: InventoryChange, s: InventoryChange,
                   r: InventoryChange, c: InventoryChange)
    requires items == map[2 := z] && a == AddItem(1, x) && b == AddItem(5, y) && s == Swap(1, 2)
    requires r == RemoveItem(1) && c == RemoveItem(5)
    ensures ReplayChanges(items, [a, b, s, r, c]) == Some(map[2 := x])
  {
    assert [a, b, s, r, c] == [a] + [b, s, r, c];
    ReplayStep(items, a, [b, s, r, c]);
    assert a.Effect(items) == map[1 := x, 2 := z];
    assert b.Effect(map[1 := x, 2 := z]) == map[1 := x, 2 := z, 5 := y];
    assert s.Effect(map[1 := x, 2 := z, 5 := y]) == map[1 := z, 2 := x, 5 := y];
    assert r.Effect(map[1 := z, 2 := x, 5 := y]) == map[2 := x, 5 := y];
    assert c.Effect(map[2 := x, 5 := y]) == map[2 := x];
    ReplayFour(map[1 := x, 2 := z], b, s, r, c);
  }

  /** The five walks, by what the table answers. */
  lemma FiveWalks(a: InventoryChange, b: InventoryChange, s: InventoryChange, r: InventoryChange, c: InventoryChange)
    requires a.Merge(b) == Unchanged(a, b) && b.Merge(s) == Unchanged(b, s) && a.Merge(s) == Incompatible(a, s)
    requires s.Merge(r) == Incompatible(s, r) && r.Merge(c) == Unchanged(r, c) && s.Merge(c) == Unchanged(s, c)
    requires b.Merge(c).Cancelled? && a.Merge(r).Cancelled?
    ensures OptimizeChanges([a, b, s, r, c]) == [s]
  {
    SecondStays(a, b);
    ThirdBehind(a, b, s);
    FourthStops(a, b, s, r);
    LastWalk(a, b, s, r, c);
    OptimizeFour(a, b, s, r, [a, b], [a, b, s], [a, b, s, r]);
    assert [a, b, s, r] + [c] == [a, b, s, r, c];
    OptimizeGrows(MergeChanges, [a, b, s, r], c);
  }

  lemma FourthStops(a: InventoryChange, b: InventoryChange, s: InventoryChange, r: InventoryChange)
    requires s.Merge(r) == Incompatible(s, r)
    ensures Walk(MergeChanges, [a, b, s], [r]) == [a, b, s, r]
  {
    LastAnswerDecides(MergeChanges, [a, b], s, [], r);
    assert [a, b] + [s] + [] == [a, b, s] && [a, b] + [s] + [] + [r] == [a, b, s, r];
  }

  lemma LastWalk(a: InventoryChange, b: InventoryChange, s: InventoryChange, r: InventoryChange, c: InventoryChange)
    requires r.Merge(c) == Unchanged(r, c) && s.Merge(c) == Unchanged(s, c) && b.Merge(c).Cancelled?
    requires a.Merge(r).Cancelled?
    ensures Walk(MergeChanges, [a, b, s, r], [c]) == [s]
  {
    LastAnswerDecides(MergeChanges, [a], b, [s, r], c);
    assert [a] + [b] + [s, r] == [a, b, s, r];
    OneAnswer(MergeChanges, [], a, [s], r);
    assert [] + [a] == [a] && [s] + [r] == [s, r];
    assert Walk(MergeChanges, [], [s]) == [s];
  }
}
