/** The login queue as the code runs it (silkroad-agent/src/population/queue.rs and capacity.rs):
    statements over the counters and the list, with leaving players in between. Every call extends a
    recorded run of the machine of module Admission, so its promises hold at each of those points. */
module LoginQueues {
  import opened Wrappers
  import opened Words
  import opened Admission

  datatype ReservationError = NoSpotsAvailable | AlreadyHasReservation | AllTokensTaken | NoSuchToken

  /** The shared counters. `outstanding` is not in the code: it counts the play tokens that are out. */
  class Capacity {
    const max: u16
    var queued: int
    var playing: int
    var outstanding: int

    constructor (max: u16)
      ensures this.max == max && queued == 0 && playing == 0 && outstanding == 0
    {
      this.max := max;
      queued, playing, outstanding := 0, 0, 0;
    }
  }

  /** What `cleanup_registrations` retains. */
  function Kept(reservations: seq<Reservation>, now: int): (r: seq<Reservation>)
    ensures forall x :: x in r <==> x in reservations && x.timeout > now
  {
    if reservations == [] then []
    else
      var last := reservations[|reservations| - 1];
      Kept(reservations[..|reservations| - 1], now) + if last.timeout > now then [last] else []
  }

  /** `seen` reservations have been looked at; `index` of them are left. */
  ghost predicate Swept(was: seq<Reservation>, seen: nat, current: seq<Reservation>, index: nat, now: int) {
    && seen <= |was| && index <= |current|
    && current[..index] == Kept(was[..seen], now) && current[index..] == was[seen..]
  }

  lemma SweptOneMore(was: seq<Reservation>, seen: nat, current: seq<Reservation>, index: nat, now: int)
    requires Swept(was, seen, current, index, now) && index < |current|
    ensures if current[index].timeout > now then Swept(was, seen + 1, current, index + 1, now)
      else Swept(was, seen + 1, Without(current, index), index, now)
  {
    assert current[index] == current[index..][0] == was[seen];
    assert was[..seen + 1][..seen] == was[..seen];
    assert current[..index + 1] == current[..index] + [current[index]];
    assert current[index + 1..] == current[index..][1..] == was[seen + 1..];
    var fewer := Without(current, index);
    assert fewer[..index] == current[..index] && fewer[index..] == current[index + 1..];
  }

  lemma SweptAll(was: seq<Reservation>, seen: nat, current: seq<Reservation>, index: nat, now: int)
    requires Swept(was, seen, current, index, now) && index == |current|
    ensures current == Kept(was, now)
  {
    assert was[..seen] == was && current[..index] == current;
  }

  /** One reservation of the token is gone, and it was the user's. */
  ghost predicate TakenOut(before: seq<Reservation>, after: seq<Reservation>, token: u32, user: int) {
    exists i :: 0 <= i < |before| && before[i] == Reservation(token, user, before[i].timeout) && after == Without(before, i)
  }

  /** The decision of `available() > 0` on the two loaded counters. */
  predicate FoundFull(s: State, user: int) {
    s.phase.Decide? && s.phase.user == user && s.max <= s.phase.q + s.phase.p
  }

  predicate FoundSpot(s: State, user: int) {
    s.phase.Decide? && s.phase.user == user && s.max > s.phase.q + s.phase.p
  }

  /** The id is the first of the draws that is not in use, and one of the first eleven. */
  ghost predicate FirstUnused(reservations: seq<Reservation>, draws: seq<u32>, id: u32) {
    exists n :: 0 <= n <= 10 && n < |draws| && draws[n] == id && !HasToken(reservations, id)
      && forall i :: 0 <= i < n ==> HasToken(reservations, draws[i])
  }

  ghost predicate AllUsed(reservations: seq<Reservation>, draws: seq<u32>)
    requires |draws| > MAX_TOKEN_TRIES
  {
    forall i :: 0 <= i <= 10 ==> HasToken(reservations, draws[i])
  }

  class LoginQueue {
    const capacity: Capacity
    /** The lifetime of a reservation, in seconds. */
    const validTime: nat
    var reservations: seq<Reservation>
    /** Every state the counters and the list went through. */
    ghost var trace: seq<State>

    ghost function Snapshot(phase: Phase): State
      reads this, capacity
    {
      State(capacity.max, capacity.queued, capacity.playing, capacity.outstanding, reservations, phase)
    }

    /** The recorded run ends here. */
    ghost predicate At(phase: Phase)
      reads this, capacity
    {
      IsRun(trace) && trace[|trace| - 1] == Snapshot(phase) && Inv(Snapshot(phase))
    }

    constructor (capacity: Capacity, validTime: nat)
      requires capacity.queued == capacity.playing == capacity.outstanding == 0
      ensures this.capacity == capacity && this.validTime == validTime && reservations == [] && At(Free)
    {
      this.capacity := capacity;
      this.validTime := validTime;
      reservations := [];
      trace := [State(capacity.max, 0, 0, 0, [], Free)];
    }

    /** Records that the next state of the run has been reached. */
    ghost method Record(phase: Phase)
      requires IsRun(trace) && Inv(trace[|trace| - 1]) && Next(trace[|trace| - 1], Snapshot(phase))
      modifies this`trace
      ensures At(phase) && old(trace) <= trace
    {
      Extend(trace, Snapshot(phase));
      StepKeepsInv(trace[|trace| - 1], Snapshot(phase));
      trace := trace + [Snapshot(phase)];
    }

    /** Other threads: any number of players leave. */
    method PlayersLeave(ghost phase: Phase)
      requires At(phase)
      modifies capacity, this`trace
      ensures At(phase) && old(trace) <= trace && capacity.queued == old(capacity.queued)
    {
      var leaving: nat := *;
      while leaving > 0 && capacity.outstanding > 0
        invariant At(phase) && old(trace) <= trace && capacity.queued == old(capacity.queued)
        decreases leaving
      {
        capacity.playing := capacity.playing - 1;
        capacity.outstanding := capacity.outstanding - 1;
        Record(phase);
        leaving := leaving - 1;
      }
    }

    /** `cleanup_registrations`. */
    method Cleanup(call: Call, now: int)
      requires At(Sweep(call, now, 0))
      modifies this, capacity
      ensures At(if call.Reserve? then CheckUser(call.user) else FindToken(call.token))
      ensures old(trace) <= trace && reservations == Kept(old(reservations), now)
    {
      ghost var was, seen: nat := reservations, 0;
      var index: nat := 0;
      while index < |reservations|
        invariant Swept(was, seen, reservations, index, now)
        invariant At(Sweep(call, now, index)) && old(trace) <= trace
        decreases |reservations| - index
      {
        index := SweepOne(call, now, index, was, seen);
        seen := seen + 1;
      }
      SweptAll(was, seen, reservations, index, now);
      Record(if call.Reserve? then CheckUser(call.user) else FindToken(call.token));
    }

    /** An expired reservation drops its queue token when it is removed. */
    method SweepOne(call: Call, now: int, index: nat, ghost was: seq<Reservation>, ghost seen: nat) returns (next: nat)
      requires index < |reservations| && At(Sweep(call, now, index)) && Swept(was, seen, reservations, index, now)
      modifies this, capacity
      ensures At(Sweep(call, now, next)) && old(trace) <= trace && Swept(was, seen + 1, reservations, next, now)
      ensures |reservations| - next < old(|reservations|) - index
    {
      PlayersLeave(Sweep(call, now, index));
      SweptOneMore(was, seen, reservations, index, now);
      next := index;
      if reservations[index].timeout > now {
        next := index + 1;
        Record(Sweep(call, now, next));
      } else {
        Expire(call, now, index);
      }
    }

    method Expire(call: Call, now: int, index: nat)
      requires index < |reservations| && reservations[index].timeout <= now && At(Sweep(call, now, index))
      modifies this, capacity
      ensures At(Sweep(call, now, index)) && old(trace) <= trace && reservations == Without(old(reservations), index)
    {
      reservations := Without(reservations, index);
      capacity.queued := capacity.queued - 1;
      Record(Sweep(call, now, index));
    }

    /** `current_total`: the counters are loaded one after the other. */
    method CurrentTotal(user: int) returns (q: int, p: int)
      requires At(LoadQueued(user))
      modifies this`trace, capacity
      ensures At(Decide(user, q, p)) && old(trace) < trace
    {
      PlayersLeave(LoadQueued(user));
      q := capacity.queued;
      Record(LoadPlaying(user, q));
      PlayersLeave(LoadPlaying(user, q));
      p := capacity.playing;
      Record(Decide(user, q, p));
    }

    /** `add_queue`: the check, then the increment. `decided` is where the check stands in the run. */
    method AddQueue(user: int) returns (queued: bool, ghost decided: nat)
      requires At(LoadQueued(user))
      modifies this`trace, capacity
      ensures At(if queued then Draw(user, 0) else Done) && old(trace) <= trace
      ensures |old(trace)| <= decided < |trace|
      ensures if queued then FoundSpot(trace[decided], user) else FoundFull(trace[decided], user)
    {
      var q, p := CurrentTotal(user);
      decided := |trace| - 1;
      PlayersLeave(Decide(user, q, p));
      queued := capacity.max - (q + p) > 0;
      Record(if queued then AddQueued(user) else Done);
      if queued {
        CountQueued(user);
      }
    }

    method CountQueued(user: int)
      requires At(AddQueued(user))
      modifies this`trace, capacity
      ensures At(Draw(user, 0)) && old(trace) <= trace
    {
      PlayersLeave(AddQueued(user));
      capacity.queued := capacity.queued + 1;
      Record(Draw(user, 0));
    }

    method DrawOnce(user: int, tries: nat, drawn: u32)
      requires At(Draw(user, tries))
      modifies this`trace, capacity
      ensures At(Try(user, drawn, tries)) && old(trace) <= trace
    {
      PlayersLeave(Draw(user, tries));
      Record(Try(user, drawn, tries));
    }

    /** Draws a token id that is not in use, at most eleven times. `draws` are the random values. */
    method DrawToken(user: int, draws: seq<u32>) returns (id: Option<u32>, ghost last: nat)
      requires At(Draw(user, 0)) && |draws| > MAX_TOKEN_TRIES
      modifies this`trace, capacity
      ensures id.Some? ==> FirstUnused(reservations, draws, id.value) && At(Try(user, id.value, last))
      ensures id.None? ==> At(DropToken) && AllUsed(reservations, draws)
      ensures old(trace) <= trace
    {
      var tries := 0;
      while true
        invariant 0 <= tries <= MAX_TOKEN_TRIES && At(Draw(user, tries)) && old(trace) <= trace
        invariant forall i :: 0 <= i < tries ==> HasToken(reservations, draws[i])
        decreases MAX_TOKEN_TRIES - tries
      {
        var drawn := draws[tries];
        DrawOnce(user, tries, drawn);
        if !HasToken(reservations, drawn) {
          return Some(drawn), tries;
        }
        if tries >= MAX_TOKEN_TRIES {
          Record(DropToken);
          return None, tries;
        }
        tries := tries + 1;
        Record(Draw(user, tries));
      }
    }

    /** The guard of the mutex goes out of scope. */
    method Unlock()
      requires At(Done)
      modifies capacity, this`trace
      ensures At(Free) && old(trace) <= trace
    {
      PlayersLeave(Done);
      Record(Free);
    }

    /** AllTokensTaken: the queue token that was just taken is dropped again. */
    method DropQueueToken()
      requires At(DropToken)
      modifies capacity, this`trace
      ensures At(Free) && old(trace) <= trace
    {
      PlayersLeave(DropToken);
      capacity.queued := capacity.queued - 1;
      Record(Done);
      Unlock();
    }

    method Store(id: u32, user: int, timeout: int, ghost tries: nat)
      requires At(Try(user, id, tries)) && !HasToken(reservations, id)
      modifies this, capacity
      ensures At(Free) && old(trace) <= trace && reservations == old(reservations) + [Reservation(id, user, timeout)]
    {
      reservations := reservations + [Reservation(id, user, timeout)];
      Record(Done);
      Unlock();
    }

    /** What `reserve_spot` answers about the reservations that have not timed out. */
    ghost predicate Reserved(kept: seq<Reservation>, user: int, current: int, draws: seq<u32>, decision: State,
                             r: Result<(u32, nat), ReservationError>)
      requires |draws| > MAX_TOKEN_TRIES
      reads this
    {
      match r
      case Ok((id, lifetime)) =>
        && reservations == kept + [Reservation(id, user, current + validTime)] && lifetime == validTime - 1
        && !HasUser(kept, user) && FoundSpot(decision, user) && FirstUnused(kept, draws, id)
      case Err(error) =>
        && reservations == kept
        && match error
           case AlreadyHasReservation => HasUser(kept, user)
           case NoSpotsAvailable => !HasUser(kept, user) && FoundFull(decision, user)
           case AllTokensTaken => !HasUser(kept, user) && FoundSpot(decision, user) && AllUsed(kept, draws)
           case NoSuchToken => false
    }

    /** `reserve_spot`, with the two readings of the clock and the random draws as parameters. `decided` is
        where the check of the capacity stands in the run. */
    method ReserveSpot(user: int, now: int, current: int, draws: seq<u32>)
      returns (r: Result<(u32, nat), ReservationError>, ghost decided: nat)
      requires At(Free) && |draws| > MAX_TOKEN_TRIES && validTime > 0
      modifies this, capacity
      ensures At(Free) && old(trace) <= trace && |old(trace)| <= decided < |trace|
      ensures Reserved(Kept(old(reservations), now), user, current, draws, trace[decided], r)
    {
      Record(Sweep(Reserve(user), now, 0));
      Cleanup(Reserve(user), now);
      if HasUser(reservations, user) {
        decided := |trace| - 1;
        Record(Done);
        Unlock();
        return Err(AlreadyHasReservation), decided;
      }
      Record(LoadQueued(user));
      r, decided := ReserveFor(user, current, draws);
    }

    /** The part of `reserve_spot` behind the check of the user. */
    method ReserveFor(user: int, current: int, draws: seq<u32>)
      returns (r: Result<(u32, nat), ReservationError>, ghost decided: nat)
      requires At(LoadQueued(user)) && |draws| > MAX_TOKEN_TRIES && validTime > 0
      modifies this, capacity
      ensures At(Free) && old(trace) <= trace && |old(trace)| <= decided < |trace|
      ensures Reserved(old(reservations), user, current, draws, trace[decided], r)
    {
      var queued;
      queued, decided := AddQueue(user);
      if !queued {
        Unlock();
        return Err(NoSpotsAvailable), decided;
      }
      var timeout := current + validTime;
      var id, tries := DrawToken(user, draws);
      if id.None? {
        DropQueueToken();
        return Err(AllTokensTaken), decided;
      }
      Store(id.value, user, timeout, tries);
      return Ok((id.value, validTime - 1)), decided;
    }

    /** The index that `position` finds, or the length of the list. */
    method Position(token: u32) returns (index: nat)
      ensures index <= |reservations|
      ensures index < |reservations| ==> reservations[index].token == token
      ensures index == |reservations| ==> !HasToken(reservations, token)
    {
      index := 0;
      while index < |reservations| && reservations[index].token != token
        invariant 0 <= index <= |reservations|
        invariant forall i :: 0 <= i < index ==> reservations[i].token != token
      {
        index := index + 1;
      }
    }

    /** `hand_in_reservation`. */
    method HandInReservation(token: u32, now: int) returns (r: Result<int, ReservationError>)
      requires At(Free)
      modifies this, capacity
      ensures At(Free) && old(trace) <= trace
      ensures var kept := Kept(old(reservations), now);
        match r
        case Ok(user) => TakenOut(kept, reservations, token, user)
        case Err(error) => error == NoSuchToken && reservations == kept && !HasToken(kept, token)
    {
      Record(Sweep(HandIn(token), now, 0));
      Cleanup(HandIn(token), now);
      r := HandInKept(token);
    }

    /** The part of `hand_in_reservation` behind the cleanup. */
    method HandInKept(token: u32) returns (r: Result<int, ReservationError>)
      requires At(FindToken(token))
      modifies this, capacity
      ensures At(Free) && old(trace) <= trace
      ensures match r
        case Ok(user) => TakenOut(old(reservations), reservations, token, user)
        case Err(error) => error == NoSuchToken && reservations == old(reservations) && !HasToken(reservations, token)
    {
      PlayersLeave(FindToken(token));
      var index := Position(token);
      if index == |reservations| {
        Record(Done);
        Unlock();
        return Err(NoSuchToken);
      }
      Record(AddPlaying(index));
      var user := Admit(index);
      return Ok(user);
    }

    /** The play token is counted before the reservation is removed and its queue token dropped. */
    method Admit(index: nat) returns (user: int)
      requires At(AddPlaying(index)) && index < |reservations|
      modifies this, capacity
      ensures At(Free) && old(trace) <= trace
      ensures user == old(reservations[index].user) && reservations == Without(old(reservations), index)
    {
      PlayersLeave(AddPlaying(index));
      capacity.playing := capacity.playing + 1;
      Record(TakeOut(index));
      PlayersLeave(TakeOut(index));
      user := reservations[index].user;
      reservations := Without(reservations, index);
      Record(DropSpot);
      DropSpotToken();
    }

    method DropSpotToken()
      requires At(DropSpot)
      modifies capacity, this`trace
      ensures At(Free) && old(trace) <= trace
    {
      PlayersLeave(DropSpot);
      capacity.queued := capacity.queued - 1;
      Record(Returning);
      PlayersLeave(Returning);
      capacity.outstanding := capacity.outstanding + 1;
      Record(Free);
    }
  }
}
