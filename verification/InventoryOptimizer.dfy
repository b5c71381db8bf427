/** What the optimiser does to inventory logs of additions, data changes and removals. */
module InventoryOptimizer {
  import opened Changes
  import opened InventoryChanges

  // ---------------------------------------------------------------- Logs of one-slot changes

  lemma OneSlotLaws()
    ensures Laws(OneSlotKinds())
  {
    var A := OneSlotKinds();
    forall s, a, b | A.key(a) != A.key(b) ensures Two(A, s, a, b) == Two(A, s, b, a) {
      OneSlotCommute(s, a, b);
    }
    forall s, s', a, b | A.key(a) != A.key(b) && A.apply(s, a).Some? && A.apply(s', b).Some?
      ensures A.merge(a, b) == Unchanged(a, b)
    {
      OneSlotIndifferent(a, b);
    }
    forall s, a, b | Two(A, s, a, b).Some? && A.key(a) == A.key(b) ensures SoundOnKey(A, s, a, b) {
      OneSlotSound(s, a, b);
    }
    forall a, b | A.merge(a, b).Incompatible? ensures A.merge(a, b) == Incompatible(a, b) {
      IncompatibleKeeps(a, b);
    }
    forall s, a, b, c | Two(A, s, a, b).Some? && A.key(a) == A.key(b) == A.key(c)
        && A.merge(a, b).Incompatible? && A.merge(b, c).Incompatible?
      ensures A.merge(a, c).Incompatible?
    {
      IncompatibleOneSlot(s, a, b);
      OneSlotChain(b, c);
    }
  }

  lemma OneSlotIndifferent(a: InventoryChange, b: InventoryChange)
    requires a.OneSlot() && b.OneSlot() && a.slot != b.slot
    ensures a.Merge(b) == Unchanged(a, b)
  {
  }

  lemma IncompatibleKeeps(a: InventoryChange, b: InventoryChange)
    requires a.Merge(b).Incompatible?
    ensures a.Merge(b) == Incompatible(a, b)
  {
  }

  /** An addition is incompatible with swaps only. */
  lemma OneSlotChain(b: InventoryChange, c: InventoryChange)
    requires b.AddItem? && b.Merge(c).Incompatible?
    ensures c.Swap?
  {
  }

  lemma OneSlotCommute(s: Slots, a: InventoryChange, b: InventoryChange)
    requires KeySlot(a) != KeySlot(b)
    ensures Two(OneSlotKinds(), s, a, b) == Two(OneSlotKinds(), s, b, a)
  {
    if a.OneSlot() && b.OneSlot() {
      DisjointCommute(s, a, b);
      assert Two(OneSlotKinds(), s, a, b) == Two(AllKinds(), s, a, b);
      assert Two(OneSlotKinds(), s, b, a) == Two(AllKinds(), s, b, a);
    }
  }

  lemma OneSlotSound(s: Slots, a: InventoryChange, b: InventoryChange)
    requires Two(OneSlotKinds(), s, a, b).Some? && KeySlot(a) == KeySlot(b)
    ensures SoundOnKey(OneSlotKinds(), s, a, b)
  {
    assert Two(OneSlotKinds(), s, a, b) == Two(AllKinds(), s, a, b);
    MergeTableSound(s, a, b);
    assert a.OneSlot() && b.OneSlot() && a.slot == b.slot;
    if a.Merge(b).Merged? {
      assert a.Merge(b).merged.OneSlot() && a.Merge(b).merged.slot == a.slot;
    } else if a.Merge(b).Unchanged? {
    }
  }

  ghost predicate OneSlotLog(log: seq<InventoryChange>) {
    forall i :: 0 <= i < |log| ==> log[i].OneSlot()
  }

  /** On one-slot logs both algebras agree. */
  lemma {:induction false} OneSlotReplay(items: Slots, log: seq<InventoryChange>)
    ensures OneSlotLog(log) ==> Replay(OneSlotKinds(), items, log) == ReplayChanges(items, log)
    ensures Replay(OneSlotKinds(), items, log).Some? ==> OneSlotLog(log)
    decreases log
  {
    if log != [] {
      var next := OneSlotKinds().apply(items, log[0]);
      if next.Some? {
        OneSlotReplay(next.value, log[1..]);
        assert forall i :: 1 <= i < |log| ==> log[i] == log[1..][i - 1];
      }
    }
  }

  /** Per slot an optimised log holds at most one entry, or a removal followed by an addition. */
  ghost predicate Compact(log: seq<InventoryChange>) {
    forall i, j :: 0 <= i < j < |log| && KeySlot(log[i]) == KeySlot(log[j]) ==> log[i].RemoveItem? && log[j].AddItem?
  }

  /** The promise of `optimize` for every log of additions, data changes and removals that is legal
      on some slot map. */
  lemma InventoryOptimizerSound(items: Slots, log: seq<InventoryChange>)
    requires OneSlotLog(log) && ReplayChanges(items, log).Some?
    ensures OneSlotLog(OptimizeChanges(log))
    ensures ReplayChanges(items, OptimizeChanges(log)) == ReplayChanges(items, log)
    ensures Compact(OptimizeChanges(log))
  {
    var A := OneSlotKinds();
    var out := OptimizeChanges(log);
    OneSlotLaws();
    OneSlotReplay(items, log);
    OptimizedIsSound(A, items, log);
    OneSlotReplay(items, out);
    forall i, j | 0 <= i < j < |out| && KeySlot(out[i]) == KeySlot(out[j])
      ensures out[i].RemoveItem? && out[j].AddItem?
    {
      NormalIsCompact(items, out, i, j);
    }
  }

  lemma NormalIsCompact(items: Slots, out: seq<InventoryChange>, i: nat, j: nat)
    requires Replay(OneSlotKinds(), items, out).Some? && Normal(OneSlotKinds(), out) && OneSlotLog(out)
    requires i < j < |out| && KeySlot(out[i]) == KeySlot(out[j])
    ensures out[i].RemoveItem? && out[j].AddItem?
  {
    OneSlotLaws();
    var m, at := NextOnKey(OneSlotKinds(), items, out, i, j);
    assert OneSlotKinds().merge(out[i], out[m]).Incompatible?;
    IncompatibleOneSlot(at, out[i], out[m]);
    if m < j {
      NotAfterAdd(items, out, m, j);
    }
  }

  lemma IncompatibleOneSlot(items: Slots, a: InventoryChange, b: InventoryChange)
    requires Two(OneSlotKinds(), items, a, b).Some? && KeySlot(a) == KeySlot(b)
    requires a.Merge(b).Incompatible?
    ensures a.RemoveItem? && b.AddItem?
  {
    assert a.OneSlot() && b.OneSlot() && a.slot == b.slot;
    assert a.Apply(items).Some? && b.Apply(a.Effect(items)).Some?;
    match a {
      case AddItem(_, _) =>
      case RemoveItem(slot) => assert slot !in a.Effect(items);
      case ChangeTypeData(_, _, _) =>
    }
  }

  lemma NotAfterAdd(items: Slots, out: seq<InventoryChange>, m: nat, j: nat)
    requires Normal(OneSlotKinds(), out) && OneSlotLog(out)
    requires m < j < |out| && KeySlot(out[m]) == KeySlot(out[j])
    ensures !out[m].AddItem?
  {
    assert OneSlotKinds().merge(out[m], out[j]).Incompatible?;
  }
}
