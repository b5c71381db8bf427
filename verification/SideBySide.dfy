/** Writing an optimised log without an order (silkroad-agent/src/persistence/mod.rs:138-157): the statements
    of its changes run side by side. */
module SideBySide {
  import opened Wrappers
  import opened Words
  import opened Changes
  import opened InventoryChanges
  import opened InventoryOptimizer
  import opened ItemTables

  // ---------------------------------------------------------------- Separate changes

  /** No two changes touch the same slot, and each of them is one statement. */
  predicate Separate(log: seq<InventoryChange>) {
    && (forall i :: 0 <= i < |log| ==> !log[i].Swap?)
    && (forall i, j :: 0 <= i < j < |log| ==> log[i].Footprint() !! log[j].Footprint())
  }

  function TableKinds(): Algebra<Slots, InventoryChange, u8> {
    Algebra(MergeChanges, (items: Slots, c: InventoryChange) => Some(TableEffect(items, c)), KeySlot)
  }

  lemma {:induction false} TableReplay(items: Slots, log: seq<InventoryChange>)
    ensures Replay(TableKinds(), items, log) == Some(TableLog(items, log))
    decreases log
  {
    if log != [] {
      TableReplay(TableEffect(items, log[0]), log[1..]);
    }
  }

  /** What a statement does is a matter of the slots of its change. */
  lemma TableEffectIsLocal(items: Slots, items': Slots, c: InventoryChange)
    requires forall slot <- c.Footprint() :: SameAt(items, items', slot)
    ensures forall slot: u8 :: slot !in c.Footprint() ==> SameAt(items, TableEffect(items, c), slot)
    ensures forall slot <- c.Footprint() :: SameAt(TableEffect(items, c), TableEffect(items', c), slot)
  {
    match c {
      case AddItem(slot, _) => assert SameAt(items, items', slot);
      case ChangeTypeData(slot, _, _) => assert SameAt(items, items', slot);
      case MoveItem(source, target) => assert SameAt(items, items', source) && SameAt(items, items', target);
      case RemoveItem(slot) => assert SameAt(items, items', slot);
      case Swap(first, second) => assert SameAt(items, items', first) && SameAt(items, items', second);
    }
  }

  lemma SeparateStatements(items: Slots, a: InventoryChange, b: InventoryChange)
    requires a.Footprint() !! b.Footprint()
    ensures TableEffect(TableEffect(items, a), b) == TableEffect(TableEffect(items, b), a)
  {
    var fa, fb := TableEffect(items, a), TableEffect(items, b);
    var ab, ba := TableEffect(fa, b), TableEffect(fb, a);
    TableEffectIsLocal(items, items, a);
    TableEffectIsLocal(items, items, b);
    TableEffectIsLocal(items, fa, b);
    TableEffectIsLocal(items, fb, a);
    TableEffectIsLocal(fa, fa, b);
    TableEffectIsLocal(fb, fb, a);
    forall slot: u8 ensures SameAt(ab, ba, slot) {
      if slot in a.Footprint() {
        assert SameAt(fa, ab, slot) && SameAt(fa, ba, slot);
      } else if slot in b.Footprint() {
        assert SameAt(fb, ba, slot) && SameAt(fb, ab, slot);
      } else {
        assert SameAt(items, fa, slot) && SameAt(fa, ab, slot);
        assert SameAt(items, fb, slot) && SameAt(fb, ba, slot);
      }
    }
    SameEverywhere(ab, ba);
  }

  /** Separate changes leave the same table in whatever order they are applied. */
  lemma SeparateInAnyOrder(items: Slots, log: seq<InventoryChange>, order: seq<InventoryChange>)
    requires Separate(log) && multiset(order) == multiset(log)
    ensures TableLog(items, order) == TableLog(items, log)
  {
    var A := TableKinds();
    forall s, i, j | 0 <= i < j < |log| ensures Two(A, s, log[i], log[j]) == Two(A, s, log[j], log[i]) {
      SeparateStatements(s, log[i], log[j]);
    }
    AnyOrder(A, items, log, order);
    TableReplay(items, log);
    TableReplay(items, order);
  }

  /** For one-slot changes, separate means that no slot occurs twice. */
  lemma SeparateIsDistinct(log: seq<InventoryChange>)
    requires OneSlotLog(log)
    ensures Separate(log) <==> DistinctKeys(OneSlotKinds(), log)
  {
    forall i, j | 0 <= i < j < |log|
      ensures log[i].Footprint() !! log[j].Footprint() <==> KeySlot(log[i]) != KeySlot(log[j])
    {
      assert log[i].OneSlot() && log[j].OneSlot();
    }
    if Separate(log) {
      forall i, j | 0 <= i < j < |log| ensures OneSlotKinds().key(log[i]) != OneSlotKinds().key(log[j]) {
        assert log[i].Footprint() !! log[j].Footprint();
      }
    }
    if DistinctKeys(OneSlotKinds(), log) {
      forall i, j | 0 <= i < j < |log| ensures log[i].Footprint() !! log[j].Footprint() {
        assert OneSlotKinds().key(log[i]) != OneSlotKinds().key(log[j]);
      }
    }
  }

  // ---------------------------------------------------------------- A slot that occurs twice

  /** Other slots' changes leave a held slot held. */
  lemma {:induction false} StaysHeld(items: Slots, log: seq<InventoryChange>, slot: u8)
    requires slot in items && OneSlotLog(log) && ReplayChanges(items, log).Some?
    requires forall i :: 0 <= i < |log| ==> KeySlot(log[i]) != slot
    ensures slot in ReplayChanges(items, log).value
    decreases log
  {
    if log != [] {
      assert log[0].OneSlot() && KeySlot(log[0]) != slot;
      assert forall i :: 0 <= i < |log[1..]| ==> log[1..][i] == log[i + 1];
      StaysHeld(log[0].Effect(items), log[1..], slot);
    }
  }

  /** The slot of an addition that nothing follows there is held in the end. */
  lemma AddedIsHeld(items: Slots, out: seq<InventoryChange>, j: nat)
    requires OneSlotLog(out) && Compact(out) && ReplayChanges(items, out).Some?
    requires j < |out| && out[j].AddItem?
    ensures out[j].slot in ReplayChanges(items, out).value
  {
    var front, add, back := out[..j], out[j], out[j + 1..];
    assert out == front + ([add] + back);
    ReplayConcat(AllKinds(), items, front, [add] + back);
    var at := ReplayChanges(items, front).value;
    ReplayConcat(AllKinds(), at, [add], back);
    ReplayPair(AllKinds(), at, add, add);
    forall i | 0 <= i < |back| ensures KeySlot(back[i]) != add.slot && back[i].OneSlot() {
      assert back[i] == out[j + 1 + i];
    }
    StaysHeld(add.Effect(at), back, add.slot);
  }

  /** With the removal of a slot put last, the slot is empty in the table. */
  lemma RemovedLast(items: Slots, out: seq<InventoryChange>, i: nat) returns (order: seq<InventoryChange>)
    requires i < |out| && out[i].RemoveItem?
    ensures multiset(order) == multiset(out) && out[i].slot !in TableLog(items, order)
  {
    var others := out[..i] + out[i + 1..];
    order := others + [out[i]];
    assert out == out[..i] + [out[i]] + out[i + 1..];
    EndsWith(items, others, out[i]);
  }

  lemma {:induction false} EndsWith(items: Slots, front: seq<InventoryChange>, last: InventoryChange)
    ensures TableLog(items, front + [last]) == TableEffect(TableLog(items, front), last)
    decreases front
  {
    if front == [] {
      assert [] + [last] == [last] && [last][1..] == [];
      assert TableLog(TableEffect(items, last), []) == TableEffect(items, last);
    } else {
      assert (front + [last])[1..] == front[1..] + [last];
      EndsWith(TableEffect(items, front[0]), front[1..], last);
    }
  }

  // ---------------------------------------------------------------- Exactly

  ghost predicate RightInAnyOrder(rows: Rows, character: u32, out: seq<InventoryChange>, final: Slots) {
    forall order: seq<InventoryChange> {:trigger ApplyLog(rows, character, order)} ::
      multiset(order) == multiset(out) ==> Matches(ApplyLog(rows, character, order), character, final)
  }

  /** A legal log of additions, data changes and removals, written side by side: the table matches the
      inventory in every order if and only if no slot occurs twice in the optimised log, that is, no slot was
      emptied and filled again. */
  lemma SideBySideExact(rows: Rows, character: u32, items: Slots, log: seq<InventoryChange>)
    requires Matches(rows, character, items) && OneSlotLog(log) && ReplayChanges(items, log).Some?
    ensures RightInAnyOrder(rows, character, OptimizeChanges(log), ReplayChanges(items, log).value)
      <==> DistinctKeys(OneSlotKinds(), OptimizeChanges(log))
  {
    var out, final := OptimizeChanges(log), ReplayChanges(items, log).value;
    InventoryOptimizerSound(items, log);
    SeparateIsDistinct(out);
    LegalFits(items, out);
    if DistinctKeys(OneSlotKinds(), out) {
      forall order: seq<InventoryChange> | multiset(order) == multiset(out)
        ensures Matches(ApplyLog(rows, character, order), character, final)
      {
        SeparateOnTable(rows, character, items, out, order);
      }
    } else {
      RepeatedSlotLost(rows, character, items, out);
    }
  }

  lemma SeparateOnTable(rows: Rows, character: u32, items: Slots, out: seq<InventoryChange>,
                        order: seq<InventoryChange>)
    requires Matches(rows, character, items) && ReplayFitting(items, out).Some?
    requires Separate(out) && multiset(order) == multiset(out)
    ensures Matches(ApplyLog(rows, character, order), character, ReplayFitting(items, out).value)
    ensures OthersKept(rows, ApplyLog(rows, character, order), character)
  {
    SeparateInAnyOrder(items, out, order);
    FittingLog(items, out);
    LogDoes(rows, character, items, order);
  }

  lemma RepeatedSlotLost(rows: Rows, character: u32, items: Slots, out: seq<InventoryChange>)
    requires Matches(rows, character, items) && OneSlotLog(out) && Compact(out) && ReplayChanges(items, out).Some?
    requires !DistinctKeys(OneSlotKinds(), out)
    ensures !RightInAnyOrder(rows, character, out, ReplayChanges(items, out).value)
  {
    var i, j :| 0 <= i < j < |out| && OneSlotKinds().key(out[i]) == OneSlotKinds().key(out[j]);
    assert KeySlot(out[i]) == KeySlot(out[j]);
    AddedIsHeld(items, out, j);
    var order := RemovedLast(items, out, i);
    LogDoes(rows, character, items, order);
    MatchesBoth(ApplyLog(rows, character, order), character, TableLog(items, order), ReplayChanges(items, out).value);
    assert !Matches(ApplyLog(rows, character, order), character, ReplayChanges(items, out).value);
  }
}
