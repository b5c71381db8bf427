/** The change log optimiser (silkroad-game-base/src/changes.rs).

    A log is rewritten by folding every change into the part already optimised. The loop walks
    that part from its end and asks `merge` about each entry; a merged entry is put back *last*,
    so the rewrite silently assumes that the absorbed entry commutes with everything it jumps
    over. `Laws` states what a change type has to satisfy for that to be true, and
    `OptimizedIsSound` proves it for every log.
 */
module Changes {
  import opened Wrappers

  datatype MergeResult<+T> =
    | Unchanged(left: T, right: T)
    | Incompatible(left: T, right: T)
    | Merged(merged: T)
    | Cancelled

  /** A change type `T` acting on states `S`. `apply` answers None for a change that is not legal
      in the state; `key` names the part of the state a change is about. */
  datatype Algebra<!S, !T, !K> = Algebra(
    merge: (T, T) -> MergeResult<T>,
    apply: (S, T) -> Option<S>,
    key: T -> K)

  // ---------------------------------------------------------------- Replay

  /** The state after applying a whole log, or None when some entry is not legal in its place. */
  function Replay<S, T, K>(A: Algebra<S, T, K>, s: S, log: seq<T>): (r: Option<S>)
  {
    if log == [] then Some(s)
    else
      var next := A.apply(s, log[0]);
      if next.None? then None else Replay(A, next.value, log[1..])
  }

  /** Two changes applied one after the other. */
  function Two<S, T, K>(A: Algebra<S, T, K>, s: S, a: T, b: T): Option<S>
  {
    var next := A.apply(s, a);
    if next.None? then None else A.apply(next.value, b)
  }

  function Resume<S, T, K>(A: Algebra<S, T, K>, s: Option<S>, log: seq<T>): Option<S>
  {
    if s.None? then None else Replay(A, s.value, log)
  }

  lemma {:induction false} ReplayConcat<S, T, K>(A: Algebra<S, T, K>, s: S, front: seq<T>, back: seq<T>)
    ensures Replay(A, s, front + back) == Resume(A, Replay(A, s, front), back)
  {
    if front == [] {
      assert front + back == back;
    } else {
      assert (front + back)[1..] == front[1..] + back;
      var next := A.apply(s, front[0]);
      if next.Some? {
        ReplayConcat(A, next.value, front[1..], back);
      }
    }
  }

  /** Replaying [a, b] is `Two`. */
  lemma {:induction false} ReplayPair<S, T, K>(A: Algebra<S, T, K>, s: S, a: T, b: T)
    ensures Replay(A, s, [a]) == A.apply(s, a)
    ensures Replay(A, s, [a, b]) == Two(A, s, a, b)
  {
    assert Replay(A, s, [a]) == A.apply(s, a);
    assert [a, b] == [a] + [b];
    ReplayConcat(A, s, [a], [b]);
    var next := A.apply(s, a);
    assert next.Some? ==> Replay(A, next.value, [b]) == A.apply(next.value, b);
  }

  /** Replacing the middle of a log by something with the same effect keeps the whole effect. */
  lemma ReplayMiddle<S(!new), T, K>(A: Algebra<S, T, K>, s: S, front: seq<T>, mid: seq<T>, mid': seq<T>, back: seq<T>)
    requires Replay(A, s, front).Some? ==>
      Replay(A, Replay(A, s, front).value, mid) == Replay(A, Replay(A, s, front).value, mid')
    ensures Replay(A, s, front + mid + back) == Replay(A, s, front + mid' + back)
  {
    ReplayConcat(A, s, front + mid, back);
    ReplayConcat(A, s, front + mid', back);
    ReplayConcat(A, s, front, mid);
    ReplayConcat(A, s, front, mid');
  }

  // ---------------------------------------------------------------- The optimiser

  /** One pass of the loop of `merge_recursive`: `todo` is what is left of the optimised log,
      `tail` is the working list in log order (the source keeps it reversed in a linked list). */
  function Walk<T>(merge: (T, T) -> MergeResult<T>, todo: seq<T>, tail: seq<T>): (r: seq<T>)
    ensures |r| <= |todo| + |tail|
    decreases |todo|
  {
    if todo == [] then tail
    else if tail == [] then todo
    else
      var rest, item := todo[..|todo| - 1], todo[|todo| - 1];
      var mids, next := tail[..|tail| - 1], tail[|tail| - 1];
      match merge(item, next)
      case Unchanged(left, right) => Walk(merge, rest, [left] + mids + [right])
      case Incompatible(left, right) => rest + ([left] + mids + [right])
      case Merged(res) => Walk(merge, rest, mids + [res])
      case Cancelled => Walk(merge, rest, mids)
  }

  function OptimizeFrom<T>(merge: (T, T) -> MergeResult<T>, acc: seq<T>, log: seq<T>): (r: seq<T>)
    ensures |r| <= |acc| + |log|
    decreases |log|
  {
    if log == [] then acc else OptimizeFrom(merge, Walk(merge, acc, [log[0]]), log[1..])
  }

  function Optimized<T>(merge: (T, T) -> MergeResult<T>, log: seq<T>): (r: seq<T>)
    ensures |r| <= |log|
  {
    if |log| <= 1 then log else OptimizeFrom(merge, [], log)
  }

  function Reversed<T>(s: seq<T>): (r: seq<T>)
    ensures |r| == |s|
    ensures forall i :: 0 <= i < |s| ==> r[i] == s[|s| - 1 - i]
  {
    seq(|s|, i requires 0 <= i < |s| => s[|s| - 1 - i])
  }

  lemma ReversedCons<T>(x: T, s: seq<T>)
    ensures Reversed([x] + s) == Reversed(s) + [x]
  {
  }

  lemma ReversedSnoc<T>(s: seq<T>, x: T)
    ensures Reversed(s + [x]) == [x] + Reversed(s)
  {
  }

  /** `merge_recursive`, with the vector popped at its end and the linked list used at both ends. */
  method MergeRecursive<T>(merge: (T, T) -> MergeResult<T>, items: seq<T>, change: T) returns (r: seq<T>)
    ensures r == Walk(merge, items, [change])
  {
    var toDo := items;
    var stack := [change];
    assert Reversed(stack) == [change];
    while toDo != []
      invariant Walk(merge, toDo, Reversed(stack)) == Walk(merge, items, [change])
      decreases |toDo|
    {
      var item := toDo[|toDo| - 1];
      toDo := toDo[..|toDo| - 1];
      if stack == [] {
        assert toDo + [item] == toDo + Reversed([item]);
        stack := [item];
        break;
      }
      var goOn;
      goOn, stack := MergeNext(merge, item, stack);
      if !goOn {
        break;
      }
    }
    r := toDo + Reversed(stack);
  }

  /** The body of the loop: merges an entry with the front of the working list. */
  method MergeNext<T>(merge: (T, T) -> MergeResult<T>, item: T, before: seq<T>) returns (goOn: bool, stack: seq<T>)
    requires before != []
    ensures var tail := Reversed(before); var mids, next := tail[..|tail| - 1], tail[|tail| - 1];
      match merge(item, next)
      case Unchanged(left, right) => goOn && Reversed(stack) == [left] + mids + [right]
      case Incompatible(left, right) => !goOn && Reversed(stack) == [left] + mids + [right]
      case Merged(res) => goOn && Reversed(stack) == mids + [res]
      case Cancelled => goOn && Reversed(stack) == mids
  {
    var next := before[0];
    stack := before[1..];
    ReversedCons(next, stack);
    assert before == [next] + stack;
    goOn := true;
    match merge(item, next) {
      case Unchanged(left, right) =>
        ReversedSnoc(stack, left);
        stack := stack + [left];
        ReversedCons(right, stack);
        stack := [right] + stack;
      case Incompatible(left, right) =>
        ReversedSnoc(stack, left);
        stack := stack + [left];
        ReversedCons(right, stack);
        stack := [right] + stack;
        goOn := false;
      case Merged(res) =>
        ReversedCons(res, stack);
        stack := [res] + stack;
      case Cancelled =>
    }
  }

  method Optimize<T>(merge: (T, T) -> MergeResult<T>, log: seq<T>) returns (r: seq<T>)
    ensures r == Optimized(merge, log)
  {
    if |log| <= 1 {
      return log;
    }
    r := [];
    for i := 0 to |log|
      invariant OptimizeFrom(merge, r, log[i..]) == OptimizeFrom(merge, [], log)
    {
      assert log[i..][1..] == log[i + 1..];
      r := MergeRecursive(merge, r, log[i]);
    }
  }

  // ---------------------------------------------------------------- What one walk does

  /** The entries that a change is left alone with are passed over. */
  lemma {:induction false} WalkPasses<T>(merge: (T, T) -> MergeResult<T>, front: seq<T>, skip: seq<T>, mids: seq<T>, c: T)
    requires forall i :: 0 <= i < |skip| ==> merge(skip[i], c) == Unchanged(skip[i], c)
    ensures Walk(merge, front + skip, mids + [c]) == Walk(merge, front, skip + mids + [c])
    decreases |skip|
  {
    if skip == [] {
      assert front + skip == front && skip + mids + [c] == mids + [c];
    } else {
      var fewer, item := skip[..|skip| - 1], skip[|skip| - 1];
      PassOne(merge, front + fewer, item, mids, c);
      assert front + skip == (front + fewer) + [item];
      assert forall i :: 0 <= i < |fewer| ==> fewer[i] == skip[i];
      WalkPasses(merge, front, fewer, [item] + mids, c);
      assert fewer + ([item] + mids) + [c] == skip + mids + [c];
    }
  }

  lemma PassOne<T>(merge: (T, T) -> MergeResult<T>, rest: seq<T>, item: T, mids: seq<T>, c: T)
    requires merge(item, c) == Unchanged(item, c)
    ensures Walk(merge, rest + [item], mids + [c]) == Walk(merge, rest, ([item] + mids) + [c])
  {
    var todo, tail := rest + [item], mids + [c];
    assert todo[..|todo| - 1] == rest && tail[..|tail| - 1] == mids;
  }

  /** A new change that every entry is left alone with goes to the end. */
  lemma WalkAppends<T>(merge: (T, T) -> MergeResult<T>, todo: seq<T>, c: T)
    requires forall i :: 0 <= i < |todo| ==> merge(todo[i], c) == Unchanged(todo[i], c)
    ensures Walk(merge, todo, [c]) == todo + [c]
  {
    WalkPasses(merge, [], todo, [], c);
    assert [] + todo == todo && [] + [c] == [c] && todo + [] + [c] == todo + [c];
  }

  /** Otherwise the last entry that it is not left alone with decides. Incompatible: the change goes to the end
      and nothing else is looked at. Merged: the entry goes, and the walk goes on from there with the merged
      change last. Cancelled: both go, and the walk goes on with what stood between. */
  lemma LastAnswerDecides<T>(merge: (T, T) -> MergeResult<T>, rest: seq<T>, item: T, skip: seq<T>, c: T)
    requires forall i :: 0 <= i < |skip| ==> merge(skip[i], c) == Unchanged(skip[i], c)
    ensures merge(item, c) == Incompatible(item, c) ==> Walk(merge, rest + [item] + skip, [c]) == rest + [item] + skip + [c]
    ensures merge(item, c).Merged? ==>
      Walk(merge, rest + [item] + skip, [c]) == Walk(merge, rest, skip + [merge(item, c).merged])
    ensures merge(item, c).Cancelled? ==> Walk(merge, rest + [item] + skip, [c]) == Walk(merge, rest, skip)
  {
    ReachesEntry(merge, rest + [item], skip, c);
    OneAnswer(merge, rest, item, skip, c);
    SameParts(rest, [item], skip, [c]);
  }

  lemma SameParts<T>(a: seq<T>, b: seq<T>, c: seq<T>, d: seq<T>)
    ensures a + (b + c + d) == a + b + c + d
  {
  }

  lemma ReachesEntry<T>(merge: (T, T) -> MergeResult<T>, front: seq<T>, skip: seq<T>, c: T)
    requires forall i :: 0 <= i < |skip| ==> merge(skip[i], c) == Unchanged(skip[i], c)
    ensures Walk(merge, front + skip, [c]) == Walk(merge, front, skip + [c])
  {
    WalkPasses(merge, front, skip, [], c);
    assert [] + [c] == [c] && skip + [] + [c] == skip + [c];
  }

  lemma OneAnswer<T>(merge: (T, T) -> MergeResult<T>, rest: seq<T>, item: T, mids: seq<T>, c: T)
    ensures merge(item, c) == Incompatible(item, c) ==>
      Walk(merge, rest + [item], mids + [c]) == rest + ([item] + mids + [c])
    ensures merge(item, c).Merged? ==>
      Walk(merge, rest + [item], mids + [c]) == Walk(merge, rest, mids + [merge(item, c).merged])
    ensures merge(item, c).Cancelled? ==> Walk(merge, rest + [item], mids + [c]) == Walk(merge, rest, mids)
  {
    var todo, tail := rest + [item], mids + [c];
    assert todo[..|todo| - 1] == rest && tail[..|tail| - 1] == mids;
  }

  /** Optimising a longer log folds its last change into what the rest was optimised to. */
  lemma OptimizeGrows<T>(merge: (T, T) -> MergeResult<T>, log: seq<T>, c: T)
    ensures Optimized(merge, log + [c]) == Walk(merge, Optimized(merge, log), [c])
  {
    if log == [] {
      assert [] + [c] == [c];
    } else {
      OptimizeFromGrows(merge, [], log, c);
      if |log| == 1 {
        assert log == [log[0]] && log[1..] == [];
        assert OptimizeFrom(merge, [], log) == OptimizeFrom(merge, [log[0]], []);
      }
    }
  }

  lemma {:induction false} OptimizeFromGrows<T>(merge: (T, T) -> MergeResult<T>, acc: seq<T>, log: seq<T>, c: T)
    ensures OptimizeFrom(merge, acc, log + [c]) == Walk(merge, OptimizeFrom(merge, acc, log), [c])
    decreases |log|
  {
    if log == [] {
      assert [] + [c] == [c] && [c][1..] == [];
      assert OptimizeFrom(merge, Walk(merge, acc, [c]), []) == Walk(merge, acc, [c]);
    } else {
      assert (log + [c])[1..] == log[1..] + [c];
      OptimizeFromGrows(merge, Walk(merge, acc, [log[0]]), log[1..], c);
    }
  }

  // ---------------------------------------------------------------- The laws

  /** What a change type has to satisfy. Every clause is about changes that are legal where they
      stand: a merge table may answer anything for sequences that cannot happen. */
  ghost predicate Laws<S(!new), T(!new), K>(A: Algebra<S, T, K>)
  {
    && (forall s, a, b {:trigger Two(A, s, a, b)} :: A.key(a) != A.key(b) ==> Two(A, s, a, b) == Two(A, s, b, a))
    && (forall s, s', a, b {:trigger A.apply(s, a), A.apply(s', b)} ::
         A.key(a) != A.key(b) && A.apply(s, a).Some? && A.apply(s', b).Some? ==> A.merge(a, b) == Unchanged(a, b))
    && (forall s, a, b {:trigger Two(A, s, a, b)} ::
         Two(A, s, a, b).Some? && A.key(a) == A.key(b) ==> SoundOnKey(A, s, a, b))
    && (forall a, b {:trigger A.merge(a, b)} :: A.merge(a, b).Incompatible? ==> A.merge(a, b) == Incompatible(a, b))
    && (forall s, a, b, c {:trigger Two(A, s, a, b), A.merge(b, c)} ::
         Two(A, s, a, b).Some? && A.key(a) == A.key(b) == A.key(c)
         && A.merge(a, b).Incompatible? && A.merge(b, c).Incompatible?
         ==> A.merge(a, c).Incompatible?)
  }

  /** The answer of `merge` on two changes of one key that are legal in sequence. */
  ghost predicate SoundOnKey<S, T, K>(A: Algebra<S, T, K>, s: S, a: T, b: T)
  {
    match A.merge(a, b)
    case Unchanged(_, _) => false
    case Incompatible(_, _) => true
    case Merged(c) => A.key(c) == A.key(a) && A.apply(s, c) == Two(A, s, a, b)
    case Cancelled => Two(A, s, a, b) == Some(s)
  }

  /** No two entries of one key are left that could still be merged. */
  ghost predicate Normal<S, T, K>(A: Algebra<S, T, K>, log: seq<T>)
  {
    forall i, j {:trigger A.merge(log[i], log[j])} :: 0 <= i < j < |log| && A.key(log[i]) == A.key(log[j]) ==>
      A.merge(log[i], log[j]).Incompatible?
  }

  ghost predicate Avoids<S, T, K>(A: Algebra<S, T, K>, log: seq<T>, k: K)
  {
    forall i :: 0 <= i < |log| ==> A.key(log[i]) != k
  }

  ghost predicate CommutesWith<S(!new), T, K>(A: Algebra<S, T, K>, mids: seq<T>, x: T)
  {
    forall s, i {:trigger Two(A, s, mids[i], x)} :: 0 <= i < |mids| ==> Two(A, s, mids[i], x) == Two(A, s, x, mids[i])
  }

  /** A change that commutes with every entry of a stretch of log can be read before or after it. */
  lemma {:induction false} Slide<S(!new), T(!new), K>(A: Algebra<S, T, K>, s: S, mids: seq<T>, x: T)
    requires CommutesWith(A, mids, x)
    ensures Replay(A, s, mids + [x]) == Replay(A, s, [x] + mids)
  {
    if mids == [] {
      assert mids + [x] == [x] + mids;
    } else {
      var m, back := mids[0], mids[1..];
      forall s', i | 0 <= i < |back| ensures Two(A, s', back[i], x) == Two(A, s', x, back[i]) {
        assert mids[i + 1] == back[i];
      }
      forall s' ensures Replay(A, s', back + [x]) == Replay(A, s', [x] + back) {
        Slide(A, s', back, x);
      }
      assert mids + [x] == [m] + (back + [x]) + [] && [m] + ([x] + back) + [] == [] + [m, x] + back;
      ReplayMiddle(A, s, [m], back + [x], [x] + back, []);
      ReplayPair(A, s, mids[0], x);
      ReplayPair(A, s, x, mids[0]);
      ReplayMiddle(A, s, [], [m, x], [x, m], back);
      assert [] + [x, m] + back == [x] + mids;
    }
  }

  lemma AvoidsCommutes<S(!new), T(!new), K>(A: Algebra<S, T, K>, mids: seq<T>, x: T)
    requires Laws(A) && Avoids(A, mids, A.key(x))
    ensures CommutesWith(A, mids, x)
  {
  }

  /** In a legal log, entry `i` and a later entry `j` with no entry of its key in between can be
      read as neighbours. */
  lemma Neighbours<S(!new), T(!new), K>(A: Algebra<S, T, K>, s: S, front: seq<T>, a: T, mids: seq<T>, b: T) returns (at: S)
    requires Laws(A) && Avoids(A, mids, A.key(b))
    requires Replay(A, s, front + [a] + mids + [b]).Some?
    ensures Replay(A, s, front) == Some(at)
    ensures Replay(A, at, [a, b] + mids) == Replay(A, s, front + [a] + mids + [b])
    ensures Two(A, at, a, b).Some?
  {
    var whole := front + [a] + mids + [b];
    assert whole == (front + [a]) + (mids + [b]) + [];
    AvoidsCommutes(A, mids, b);
    forall s' ensures Replay(A, s', mids + [b]) == Replay(A, s', [b] + mids) {
      Slide(A, s', mids, b);
    }
    ReplayMiddle(A, s, front + [a], mids + [b], [b] + mids, []);
    assert (front + [a]) + ([b] + mids) + [] == front + ([a, b] + mids);
    ReplayConcat(A, s, front, [a, b] + mids);
    at := Replay(A, s, front).value;
    ReplayConcat(A, at, [a, b], mids);
    ReplayPair(A, at, a, b);
  }

  /** Every entry of a legal log is legal somewhere. */
  lemma LiveAt<S, T, K>(A: Algebra<S, T, K>, s: S, log: seq<T>, i: nat) returns (at: S)
    requires i < |log| && Replay(A, s, log).Some?
    ensures A.apply(at, log[i]).Some?
  {
    assert log == log[..i] + log[i..];
    ReplayConcat(A, s, log[..i], log[i..]);
    at := Replay(A, s, log[..i]).value;
  }

  // ---------------------------------------------------------------- Soundness

  /** After a cancellation the walk goes on with the last entry of an already normal log: it
      changes nothing any more. */
  lemma {:induction false} WalkSettled<S(!new), T(!new), K>(A: Algebra<S, T, K>, s: S, todo: seq<T>, tail: seq<T>)
    requires Laws(A) && Normal(A, todo + tail) && Replay(A, s, todo + tail).Some?
    ensures Walk(A.merge, todo, tail) == todo + tail
    decreases |todo|
  {
    if todo == [] || tail == [] {
      assert todo + tail == if todo == [] then tail else todo;
    } else {
      var rest, item := todo[..|todo| - 1], todo[|todo| - 1];
      var mids, next := tail[..|tail| - 1], tail[|tail| - 1];
      var log := todo + tail;
      assert log[|todo| - 1] == item && log[|log| - 1] == next;
      var s1 := LiveAt(A, s, log, |todo| - 1);
      var s2 := LiveAt(A, s, log, |log| - 1);
      assert tail == mids + [next] && todo == rest + [item];
      assert log == rest + ([item] + mids + [next]);
      if A.key(item) != A.key(next) {
        assert A.merge(item, next) == Unchanged(item, next);
        WalkSettled(A, s, rest, [item] + mids + [next]);
      } else {
        assert A.merge(log[|todo| - 1], log[|log| - 1]).Incompatible?;
      }
    }
  }

  /** The next entry of the key of entry `i`, no later than `j`: the two are legal in sequence. */
  lemma NextOnKey<S(!new), T(!new), K>(A: Algebra<S, T, K>, s: S, log: seq<T>, i: nat, j: nat) returns (m: nat, at: S)
    requires Laws(A) && Replay(A, s, log).Some?
    requires i < j < |log| && A.key(log[i]) == A.key(log[j])
    ensures i < m <= j && A.key(log[m]) == A.key(log[i])
    ensures Two(A, at, log[i], log[m]).Some?
  {
    m := i + 1;
    while A.key(log[m]) != A.key(log[i])
      invariant i < m <= j
      invariant forall k :: i < k < m ==> A.key(log[k]) != A.key(log[i])
      decreases j - m
    {
      m := m + 1;
    }
    var front, mids, back := log[..i], log[i + 1..m], log[m + 1..];
    assert log[..m + 1] == front + [log[i]] + mids + [log[m]];
    assert log == log[..m + 1] + back;
    ReplayConcat(A, s, front + [log[i]] + mids + [log[m]], back);
    at := Neighbours(A, s, front, log[i], mids, log[m]);
  }

  /** The entries kept so far that share the key of `next` are incompatible with it, once one of
      them is. */
  lemma {:induction false} Chain<S(!new), T(!new), K>(A: Algebra<S, T, K>, s: S, log: seq<T>, i: nat, j: nat, next: T)
    requires Laws(A) && Normal(A, log) && Replay(A, s, log).Some?
    requires i <= j < |log| && A.key(log[i]) == A.key(log[j]) == A.key(next)
    requires A.merge(log[j], next).Incompatible?
    ensures A.merge(log[i], next).Incompatible?
    decreases j - i
  {
    if i < j {
      var m, at := NextOnKey(A, s, log, i, j);
      Chain(A, s, log, m, j, next);
      assert A.merge(log[i], log[m]).Incompatible?;
    }
  }

  /** A normal log stays normal when entries are dropped. */
  lemma NormalDrop<S, T, K>(A: Algebra<S, T, K>, front: seq<T>, x: T, back: seq<T>)
    requires Normal(A, front + [x] + back)
    ensures Normal(A, front + back)
  {
    var log, rest := front + [x] + back, front + back;
    forall i, j | 0 <= i < j < |rest| && A.key(rest[i]) == A.key(rest[j])
      ensures A.merge(rest[i], rest[j]).Incompatible?
    {
      var i', j' := if i < |front| then i else i + 1, if j < |front| then j else j + 1;
      assert log[i'] == rest[i] && log[j'] == rest[j];
    }
  }

  /** Appending an entry of a key that the log avoids, up to an incompatible one, stays normal. */
  lemma NormalAppend<S(!new), T(!new), K>(A: Algebra<S, T, K>, s: S, todo: seq<T>, mids: seq<T>, next: T)
    requires Laws(A) && Normal(A, todo + mids) && Avoids(A, mids, A.key(next))
    requires Replay(A, s, todo + mids + [next]).Some?
    requires todo != [] ==> A.key(todo[|todo| - 1]) == A.key(next) && A.merge(todo[|todo| - 1], next).Incompatible?
    ensures Normal(A, todo + mids + [next])
  {
    var log := todo + mids + [next];
    ReplayConcat(A, s, todo + mids, [next]);
    forall k | |todo| <= k < |todo + mids| ensures A.key(log[k]) != A.key(next) {
      assert mids[k - |todo|] == log[k];
    }
    forall i, j | 0 <= i < j < |log| && A.key(log[i]) == A.key(log[j])
      ensures A.merge(log[i], log[j]).Incompatible?
    {
      if j < |todo + mids| {
        assert (todo + mids)[i] == log[i] && (todo + mids)[j] == log[j];
      } else if i >= |todo| {
        assert false;
      } else {
        assert (todo + mids)[i] == log[i] && (todo + mids)[|todo| - 1] == todo[|todo| - 1];
        Chain(A, s, todo + mids, i, |todo| - 1, next);
      }
    }
  }

  /** The invariant of the walk while the new change is still being placed. */
  ghost predicate Placing<S, T, K>(A: Algebra<S, T, K>, s: S, todo: seq<T>, mids: seq<T>, next: T)
  {
    && Normal(A, todo + mids)
    && Avoids(A, mids, A.key(next))
    && Replay(A, s, todo + mids + [next]).Some?
  }

  /** The merged change has the effect of both even behind what the absorbed one stood before. */
  lemma MergedGoesLast<S(!new), T(!new), K>(A: Algebra<S, T, K>, at: S, mids: seq<T>, item: T, next: T, res: T)
    requires Laws(A) && Two(A, at, item, next).Some? && A.key(item) == A.key(next) && A.merge(item, next) == Merged(res)
    requires Avoids(A, mids, A.key(next))
    ensures A.key(res) == A.key(next)
    ensures Replay(A, at, mids + [res]) == Resume(A, Two(A, at, item, next), mids)
  {
    assert SoundOnKey(A, at, item, next);
    AvoidsCommutes(A, mids, res);
    Slide(A, at, mids, res);
    ReplayConcat(A, at, [res], mids);
    ReplayPair(A, at, res, res);
  }

  /** One call of `merge_recursive` on a normal log keeps the effect of the log and leaves a
      normal log. */
  lemma {:induction false} WalkIsSound<S(!new), T(!new), K>(A: Algebra<S, T, K>, s: S, todo: seq<T>, mids: seq<T>, next: T)
    requires Laws(A) && Placing(A, s, todo, mids, next)
    ensures Replay(A, s, Walk(A.merge, todo, mids + [next])) == Replay(A, s, todo + mids + [next])
    ensures Normal(A, Walk(A.merge, todo, mids + [next]))
    decreases |todo|
  {
    var tail := mids + [next];
    assert tail[..|tail| - 1] == mids;
    if todo == [] {
      NormalAppend(A, s, todo, mids, next);
      assert todo + mids + [next] == tail;
    } else {
      var rest, item := todo[..|todo| - 1], todo[|todo| - 1];
      assert todo == rest + [item];
      assert todo + mids == rest + ([item] + mids) && todo + mids + [next] == rest + [item] + mids + [next];
      var at := Neighbours(A, s, rest, item, mids, next);
      ReplayConcat(A, s, rest, [item, next] + mids);
      ReplayConcat(A, at, [item, next], mids);
      ReplayPair(A, at, item, next);
      NormalDrop(A, rest, item, mids);
      assert rest + [item] + mids == todo + mids;
      match A.merge(item, next) {
        case Unchanged(_, _) =>
          var s2 := LiveAt(A, s, todo + mids + [next], |todo| - 1);
          var s3 := LiveAt(A, s, todo + mids + [next], |todo + mids|);
          assert A.merge(item, next) == Unchanged(item, next);
          assert rest + ([item] + mids) + [next] == todo + mids + [next];
          WalkIsSound(A, s, rest, [item] + mids, next);
        case Incompatible(_, _) =>
          NormalAppend(A, s, todo, mids, next);
          assert rest + ([item] + mids + [next]) == todo + mids + [next];
        case Merged(res) =>
          MergedGoesLast(A, at, mids, item, next, res);
          ReplayConcat(A, s, rest, mids + [res]);
          assert rest + (mids + [res]) == rest + mids + [res];
          WalkIsSound(A, s, rest, mids, res);
        case Cancelled =>
          ReplayConcat(A, s, rest, mids);
          WalkSettled(A, s, rest, mids);
      }
    }
  }

  lemma {:induction false} OptimizeFromIsSound<S(!new), T(!new), K>(A: Algebra<S, T, K>, s: S, acc: seq<T>, log: seq<T>)
    requires Laws(A) && Normal(A, acc) && Replay(A, s, acc + log).Some?
    ensures Replay(A, s, OptimizeFrom(A.merge, acc, log)) == Replay(A, s, acc + log)
    ensures Normal(A, OptimizeFrom(A.merge, acc, log))
    decreases |log|
  {
    if log == [] {
      assert acc + log == acc;
    } else {
      var change, later := log[0], log[1..];
      assert acc + [] == acc;
      assert acc + log == (acc + [] + [change]) + later;
      ReplayConcat(A, s, acc + [] + [change], later);
      WalkIsSound(A, s, acc, [], change);
      assert [] + [change] == [change];
      var acc' := Walk(A.merge, acc, [change]);
      ReplayConcat(A, s, acc', later);
      OptimizeFromIsSound(A, s, acc', later);
    }
  }

  /** The promise of `ToOptimizedChange`: the optimised log has the effect of the log itself, on
      every state the log is legal in; and no two entries of one key that it keeps could still be
      merged. (`Optimized` itself states that it is never longer.) */
  lemma OptimizedIsSound<S(!new), T(!new), K>(A: Algebra<S, T, K>, s: S, log: seq<T>)
    requires Laws(A) && Replay(A, s, log).Some?
    ensures Replay(A, s, Optimized(A.merge, log)) == Replay(A, s, log)
    ensures Normal(A, Optimized(A.merge, log))
  {
    if |log| > 1 {
      assert [] + log == log;
      OptimizeFromIsSound(A, s, [], log);
    }
  }

  // ---------------------------------------------------------------- Logs applied in any order

  ghost predicate DistinctKeys<S, T, K>(A: Algebra<S, T, K>, log: seq<T>)
  {
    forall i, j :: 0 <= i < j < |log| ==> A.key(log[i]) != A.key(log[j])
  }

  /** An occurrence of an entry, and what is around it. */
  lemma {:induction false} TakeOut<T(!new)>(log: seq<T>, x: T) returns (front: seq<T>, back: seq<T>)
    requires x in multiset(log)
    ensures log == front + [x] + back
  {
    var i :| 0 <= i < |log| && log[i] == x;
    front, back := log[..i], log[i + 1..];
  }

  lemma BringForward<S(!new), T(!new), K>(A: Algebra<S, T, K>, s: S, front: seq<T>, x: T, back: seq<T>)
    requires CommutesWith(A, front, x)
    ensures Replay(A, s, front + [x] + back) == Resume(A, A.apply(s, x), front + back)
  {
    Slide(A, s, front, x);
    assert front + [x] + back == [] + (front + [x]) + back;
    ReplayMiddle(A, s, [], front + [x], [x] + front, back);
    assert [] + ([x] + front) + back == [x] + (front + back);
    ReplayConcat(A, s, [x], front + back);
    ReplayPair(A, s, x, x);
  }

  /** Taking an entry out of a log and out of a reordering of it leaves reorderings. */
  lemma RearrangedRest<T>(x: T, rest: seq<T>, front: seq<T>, back: seq<T>)
    requires multiset([x] + rest) == multiset(front + [x] + back)
    ensures multiset(rest) == multiset(front + back)
  {
    assert multiset([x] + rest) == multiset{x} + multiset(rest);
    assert multiset(front + [x] + back) == multiset{x} + multiset(front + back);
    assert multiset(rest) == multiset([x] + rest) - multiset{x};
  }

  /** Any two entries can be applied in either order. */
  ghost predicate PairwiseCommute<S(!new), T(!new), K>(A: Algebra<S, T, K>, log: seq<T>)
  {
    forall s, i, j {:trigger Two(A, s, log[i], log[j])} :: 0 <= i < j < |log| ==>
      Two(A, s, log[i], log[j]) == Two(A, s, log[j], log[i])
  }

  lemma RearrangedCommutes<S(!new), T(!new), K>(A: Algebra<S, T, K>, x: T, rest: seq<T>, front: seq<T>, back: seq<T>)
    requires PairwiseCommute(A, [x] + rest) && multiset(rest) == multiset(front + back)
    ensures CommutesWith(A, front, x)
  {
    var log := [x] + rest;
    forall s, k | 0 <= k < |front| ensures Two(A, s, front[k], x) == Two(A, s, x, front[k]) {
      assert (front + back)[k] == front[k] && front[k] in multiset(front + back);
      var n :| 0 <= n < |rest| && rest[n] == front[k];
      assert Two(A, s, log[0], log[n + 1]) == Two(A, s, log[n + 1], log[0]);
    }
  }

  lemma CommuteRest<S(!new), T(!new), K>(A: Algebra<S, T, K>, log: seq<T>)
    requires PairwiseCommute(A, log) && log != []
    ensures PairwiseCommute(A, log[1..])
  {
    var rest := log[1..];
    forall s, i, j | 0 <= i < j < |rest| ensures Two(A, s, rest[i], rest[j]) == Two(A, s, rest[j], rest[i]) {
      assert Two(A, s, log[i + 1], log[j + 1]) == Two(A, s, log[j + 1], log[i + 1]);
    }
  }

  /** Changes that commute have the same effect in whatever order they are applied. */
  lemma {:induction false} AnyOrder<S(!new), T(!new), K>(A: Algebra<S, T, K>, s: S, log: seq<T>, log': seq<T>)
    requires PairwiseCommute(A, log) && multiset(log) == multiset(log')
    ensures Replay(A, s, log') == Replay(A, s, log)
    decreases |log|
  {
    if log == [] {
      assert |log'| == |multiset(log')| == 0;
    } else {
      var x, rest := log[0], log[1..];
      assert log == [x] + rest && log[0] in multiset(log);
      var front, back := TakeOut(log', x);
      RearrangedRest(x, rest, front, back);
      RearrangedCommutes(A, x, rest, front, back);
      CommuteRest(A, log);
      BringForward(A, s, front, x, back);
      var next := A.apply(s, x);
      if next.Some? {
        AnyOrder(A, next.value, rest, front + back);
      }
    }
  }

  /** Changes of distinct keys have the same effect in whatever order they are applied. */
  lemma OrderIsIrrelevant<S(!new), T(!new), K>(A: Algebra<S, T, K>, s: S, log: seq<T>, log': seq<T>)
    requires Laws(A) && DistinctKeys(A, log) && multiset(log) == multiset(log')
    ensures Replay(A, s, log') == Replay(A, s, log)
  {
    forall s', i, j | 0 <= i < j < |log| ensures Two(A, s', log[i], log[j]) == Two(A, s', log[j], log[i]) {
      assert A.key(log[i]) != A.key(log[j]);
    }
    AnyOrder(A, s, log, log');
  }
}
