/** Login admission (silkroad-agent/src/population/queue.rs and capacity.rs) as a machine of atomic
    steps. One caller at a time holds the mutex of the reservation list; the two counters are atomics
    that a dropped play token changes at any moment, lock or no lock. */
module Admission {
  import opened Words

  const MAX_TOKEN_TRIES := 10

  datatype Reservation = Reservation(token: u32, user: int, timeout: int)

  datatype Call = Reserve(user: int) | HandIn(token: u32)

  /** Where the holder of the lock is; `Free` when nobody holds it. Each phase ends with one access to
      the counters or to the list. */
  datatype Phase =
    | Free
    | Sweep(call: Call, now: int, index: nat)                // cleanup_registrations
    | CheckUser(user: int)
    | LoadQueued(user: int)                                  // current_total, first load
    | LoadPlaying(user: int, q: int)                         // current_total, second load
    | Decide(user: int, q: int, p: int)                      // available() > 0
    | AddQueued(user: int)
    | Draw(user: int, tries: nat)
    | Try(user: int, id: u32, tries: nat)
    | DropToken                                              // AllTokensTaken: the queue token is dropped
    | FindToken(token: u32)
    | AddPlaying(index: nat)
    | TakeOut(index: nat)
    | DropSpot                                               // the spot token of the handed-in reservation
    | Returning                                              // the play token leaves with the caller
    | Done

  /** `outstanding` counts the play tokens that callers own and may drop. */
  datatype State = State(max: u16, queued: int, playing: int, outstanding: int,
                         reservations: seq<Reservation>, phase: Phase)

  function Without(reservations: seq<Reservation>, index: nat): seq<Reservation>
    requires index < |reservations|
  {
    reservations[..index] + reservations[index + 1..]
  }

  predicate HasUser(reservations: seq<Reservation>, user: int) {
    exists i :: 0 <= i < |reservations| && reservations[i].user == user
  }

  predicate HasToken(reservations: seq<Reservation>, token: u32) {
    exists i :: 0 <= i < |reservations| && reservations[i].token == token
  }

  // ---------------------------------------------------------------- Steps

  /** A player leaves. */
  predicate PlayTokenDrops(s: State, s': State) {
    s.outstanding > 0 && s' == s.(playing := s.playing - 1, outstanding := s.outstanding - 1)
  }

  predicate HolderSteps(s: State, s': State) {
    match s.phase
    case Free => s'.phase.Sweep? && s'.phase.index == 0 && s' == s.(phase := s'.phase)
    case Sweep(call, now, index) =>
      if index < |s.reservations| then
        if s.reservations[index].timeout > now then s' == s.(phase := Sweep(call, now, index + 1))
        else s' == s.(reservations := Without(s.reservations, index), queued := s.queued - 1)
      else s' == s.(phase := if call.Reserve? then CheckUser(call.user) else FindToken(call.token))
    case CheckUser(user) => s' == s.(phase := if HasUser(s.reservations, user) then Done else LoadQueued(user))
    case LoadQueued(user) => s' == s.(phase := LoadPlaying(user, s.queued))
    case LoadPlaying(user, q) => s' == s.(phase := Decide(user, q, s.playing))
    case Decide(user, q, p) => s' == s.(phase := if s.max - (q + p) > 0 then AddQueued(user) else Done)
    case AddQueued(user) => s' == s.(queued := s.queued + 1, phase := Draw(user, 0))
    case Draw(user, tries) => s'.phase.Try? && s' == s.(phase := Try(user, s'.phase.id, tries))
    case Try(user, id, tries) =>
      if HasToken(s.reservations, id) then
        s' == s.(phase := if tries >= MAX_TOKEN_TRIES then DropToken else Draw(user, tries + 1))
      else
        && |s'.reservations| == |s.reservations| + 1
        && var added := s'.reservations[|s.reservations|];
           added.token == id && added.user == user
           && s' == s.(reservations := s.reservations + [added], phase := Done)
    case DropToken => s' == s.(queued := s.queued - 1, phase := Done)
    case FindToken(token) =>
      if HasToken(s.reservations, token) then
        && s'.phase.AddPlaying? && s'.phase.index < |s.reservations|
        && s.reservations[s'.phase.index].token == token && s' == s.(phase := s'.phase)
      else s' == s.(phase := Done)
    case AddPlaying(index) => s' == s.(playing := s.playing + 1, phase := TakeOut(index))
    case TakeOut(index) =>
      index < |s.reservations| && s' == s.(reservations := Without(s.reservations, index), phase := DropSpot)
    case DropSpot => s' == s.(queued := s.queued - 1, phase := Returning)
    case Returning => s' == s.(outstanding := s.outstanding + 1, phase := Free)
    case Done => s' == s.(phase := Free)
  }

  predicate Next(s: State, s': State) {
    PlayTokenDrops(s, s') || HolderSteps(s, s')
  }

  predicate Init(s: State) {
    s.queued == 0 && s.playing == 0 && s.outstanding == 0 && s.reservations == [] && s.phase == Free
  }

  predicate StepAt(trace: seq<State>, i: nat) {
    0 < i < |trace| && Next(trace[i - 1], trace[i])
  }

  ghost predicate IsRun(trace: seq<State>) {
    && |trace| > 0
    && Init(trace[0])
    && forall i :: 0 < i < |trace| ==> StepAt(trace, i)
  }

  // ---------------------------------------------------------------- What every step keeps

  /** Queue tokens that exist outside the list. */
  function LooseQueueTokens(phase: Phase): nat {
    if phase.Draw? || phase.Try? || phase.DropToken? || phase.DropSpot? then 1 else 0
  }

  /** A play token on its way to the caller. */
  function PlayTokenInHand(phase: Phase): nat {
    if phase.TakeOut? || phase.DropSpot? || phase.Returning? then 1 else 0
  }

  ghost predicate AllDistinct(reservations: seq<Reservation>) {
    forall i, j :: 0 <= i < j < |reservations| ==>
      reservations[i].token != reservations[j].token && reservations[i].user != reservations[j].user
  }

  ghost predicate Inv(s: State) {
    && s.queued == |s.reservations| + LooseQueueTokens(s.phase)
    && s.playing == s.outstanding + PlayTokenInHand(s.phase)
    && s.outstanding >= 0
    && s.queued + s.playing <= s.max + (if s.phase.TakeOut? || s.phase.DropSpot? then 1 else 0)
    && AllDistinct(s.reservations)
    && match s.phase
       case LoadQueued(user) => !HasUser(s.reservations, user)
       case LoadPlaying(user, q) => !HasUser(s.reservations, user) && q == s.queued
       case Decide(user, q, p) => !HasUser(s.reservations, user) && q == s.queued && s.playing <= p && q + p <= s.max
       case AddQueued(user) => !HasUser(s.reservations, user) && s.queued + s.playing < s.max
       case Draw(user, _) => !HasUser(s.reservations, user)
       case Try(user, _, _) => !HasUser(s.reservations, user)
       case AddPlaying(index) => index < |s.reservations|
       case TakeOut(index) => index < |s.reservations|
       case _ => true
  }

  lemma WithoutKeeps(reservations: seq<Reservation>, index: nat)
    requires index < |reservations| && AllDistinct(reservations)
    ensures AllDistinct(Without(reservations, index)) && |Without(reservations, index)| == |reservations| - 1
  {
    var rest := Without(reservations, index);
    forall i, j | 0 <= i < j < |rest| ensures rest[i].token != rest[j].token && rest[i].user != rest[j].user {
      var i', j' := if i < index then i else i + 1, if j < index then j else j + 1;
      assert rest[i] == reservations[i'] && rest[j] == reservations[j'];
    }
  }

  /** Steps that take a reservation out of the list. */
  lemma RemovalKeepsInv(s: State, s': State)
    requires Inv(s) && HolderSteps(s, s') && (s.phase.Sweep? || s.phase.TakeOut?)
    ensures Inv(s')
  {
    if s.phase.index < |s.reservations| {
      WithoutKeeps(s.reservations, s.phase.index);
    }
  }

  /** The step that may put one in. */
  lemma TryKeepsInv(s: State, s': State)
    requires Inv(s) && HolderSteps(s, s') && s.phase.Try?
    ensures Inv(s')
  {
  }

  /** Every other step of the lock holder. */
  lemma CountingKeepsInv(s: State, s': State)
    requires Inv(s) && HolderSteps(s, s') && !s.phase.Sweep? && !s.phase.TakeOut? && !s.phase.Try?
    ensures Inv(s')
  {
  }

  /** Every atomic step - of the lock holder or of a leaving player - keeps the invariant. */
  lemma StepKeepsInv(s: State, s': State)
    requires Inv(s) && Next(s, s')
    ensures Inv(s')
  {
    if !PlayTokenDrops(s, s') {
      match s.phase {
        case Sweep(_, _, _) => RemovalKeepsInv(s, s');
        case TakeOut(_) => RemovalKeepsInv(s, s');
        case Try(_, _, _) => TryKeepsInv(s, s');
        case _ => CountingKeepsInv(s, s');
      }
    }
  }

  lemma {:induction false} RunKeepsInv(trace: seq<State>, i: nat)
    requires IsRun(trace) && i < |trace|
    ensures Inv(trace[i])
  {
    if i > 0 {
      RunKeepsInv(trace, i - 1);
      assert StepAt(trace, i);
      StepKeepsInv(trace[i - 1], trace[i]);
    }
  }

  // ---------------------------------------------------------------- The promises

  /** In every state of every interleaving: the counters never exceed the capacity while the lock is
      free, and by at most one otherwise; the subtraction of `available` does not underflow; what is
      queued is what is stored, at every unlock; and no token or user is stored twice. */
  lemma AdmissionIsSafe(trace: seq<State>, i: nat)
    requires IsRun(trace) && i < |trace|
    ensures var s := trace[i];
      && 0 <= s.queued && 0 <= s.playing && s.queued + s.playing <= s.max + 1
      && (s.phase.Free? ==> s.queued + s.playing <= s.max && s.queued == |s.reservations| && s.playing == s.outstanding)
      && (s.phase.Decide? ==> s.max - (s.phase.q + s.phase.p) >= 0)
      && AllDistinct(s.reservations)
  {
    RunKeepsInv(trace, i);
  }

  lemma Extend(trace: seq<State>, s: State)
    requires IsRun(trace) && Next(trace[|trace| - 1], s)
    ensures IsRun(trace + [s])
  {
    var longer := trace + [s];
    forall i | 0 < i < |longer| ensures StepAt(longer, i) {
      assert i < |trace| ==> StepAt(trace, i);
    }
  }

  /** A run that stores one reservation on an empty server with one place. */
  lemma OneReservation(user: int, token: u32) returns (trace: seq<State>)
    ensures IsRun(trace)
    ensures trace[|trace| - 1] == State(1, 1, 0, 0, [Reservation(token, user, 1)], Free)
  {
    trace := OneDrawing(user);
    var s := trace[|trace| - 1];
    Extend(trace, s.(phase := Try(user, token, 0)));
    trace := trace + [s.(phase := Try(user, token, 0))];
    s := s.(reservations := [Reservation(token, user, 1)], phase := Done);
    assert [] + [Reservation(token, user, 1)] == s.reservations;
    Extend(trace, s);
    trace := trace + [s];
    Extend(trace, s.(phase := Free));
    trace := trace + [s.(phase := Free)];
  }

  lemma OneDrawing(user: int) returns (trace: seq<State>)
    ensures IsRun(trace)
    ensures trace[|trace| - 1] == State(1, 1, 0, 0, [], Draw(user, 0))
  {
    trace := OneChecking(user);
    var s := trace[|trace| - 1];
    Extend(trace, s.(phase := LoadPlaying(user, 0)));
    trace := trace + [s.(phase := LoadPlaying(user, 0))];
    Extend(trace, s.(phase := Decide(user, 0, 0)));
    trace := trace + [s.(phase := Decide(user, 0, 0))];
    Extend(trace, s.(phase := AddQueued(user)));
    trace := trace + [s.(phase := AddQueued(user))];
    s := s.(queued := 1, phase := Draw(user, 0));
    Extend(trace, s);
    trace := trace + [s];
  }

  lemma OneChecking(user: int) returns (trace: seq<State>)
    ensures IsRun(trace)
    ensures trace[|trace| - 1] == State(1, 0, 0, 0, [], LoadQueued(user))
  {
    var s := State(1, 0, 0, 0, [], Free);
    trace := [s];
    Extend(trace, s.(phase := Sweep(Reserve(user), 0, 0)));
    trace := trace + [s.(phase := Sweep(Reserve(user), 0, 0))];
    Extend(trace, s.(phase := CheckUser(user)));
    trace := trace + [s.(phase := CheckUser(user))];
    Extend(trace, s.(phase := LoadQueued(user)));
    trace := trace + [s.(phase := LoadQueued(user))];
  }

  /** The bound is met: handing in the only reservation of a full server passes through a state one
      above the capacity. */
  lemma OneAboveIsReached(user: int, token: u32) returns (trace: seq<State>)
    ensures IsRun(trace)
    ensures var s := trace[|trace| - 1]; s.queued + s.playing == s.max + 1
  {
    trace := OneReservation(user, token);
    var s := trace[|trace| - 1];
    assert s.reservations[0].token == token;
    Extend(trace, s.(phase := Sweep(HandIn(token), 0, 0)));
    trace := trace + [s.(phase := Sweep(HandIn(token), 0, 0))];
    Extend(trace, s.(phase := Sweep(HandIn(token), 0, 1)));
    trace := trace + [s.(phase := Sweep(HandIn(token), 0, 1))];
    Extend(trace, s.(phase := FindToken(token)));
    trace := trace + [s.(phase := FindToken(token))];
    Extend(trace, s.(phase := AddPlaying(0)));
    trace := trace + [s.(phase := AddPlaying(0))];
    Extend(trace, s.(playing := 1, phase := TakeOut(0)));
    trace := trace + [s.(playing := 1, phase := TakeOut(0))];
  }
}
