/** How a client is kept up to date about what it sees (silkroad-agent/src/game/visibility.rs): the
    difference to the last tick is listed, sent and cleared. */
module VisibilityDeltas {
  import opened Wrappers

  /** What one send tells the client. */
  datatype Delta = Delta(spawns: set<int>, despawns: set<int>)

  /** What a client makes of what it is told: spawns first, then despawns. */
  function Followed(known: set<int>, deltas: seq<Delta>): set<int>
    decreases |deltas|
  {
    if deltas == [] then known
    else
      var last := deltas[|deltas| - 1];
      (Followed(known, deltas[..|deltas| - 1]) + last.spawns) - last.despawns
  }

  lemma FollowedOneMore(known: set<int>, deltas: seq<Delta>, last: Delta)
    ensures Followed(known, deltas + [last]) == (Followed(known, deltas) + last.spawns) - last.despawns
  {
    assert (deltas + [last])[..|deltas|] == deltas;
  }

  lemma {:induction false} FollowedInParts(known: set<int>, front: seq<Delta>, back: seq<Delta>)
    ensures Followed(known, front + back) == Followed(Followed(known, front), back)
    decreases |back|
  {
    if back == [] {
      assert front + back == front;
    } else {
      var fewer, last := back[..|back| - 1], back[|back| - 1];
      assert front + back == (front + fewer) + [last] && back == fewer + [last];
      FollowedInParts(known, front, fewer);
      FollowedOneMore(known, front + fewer, last);
    }
  }

  /** One frame: a look at the neighbourhood, with the differences in the order their hash sets give
      them, or none when no region nearby is active. */
  datatype Look = Idle | Seen(inRange: set<int>, removed: seq<int>, added: seq<int>)

  ghost predicate Listed(current: set<int>, look: Look) {
    look.Seen? ==> Lists(look.removed, current - look.inRange) && Lists(look.added, look.inRange - current)
  }

  function AfterLook(current: set<int>, look: Look): set<int> {
    if look.Seen? then look.inRange else current
  }

  function AfterLooks(current: set<int>, looks: seq<Look>): set<int>
    decreases looks
  {
    if looks == [] then current else AfterLooks(AfterLook(current, looks[0]), looks[1..])
  }

  ghost predicate AllListed(current: set<int>, looks: seq<Look>)
    decreases looks
  {
    looks == [] || (Listed(current, looks[0]) && AllListed(AfterLook(current, looks[0]), looks[1..]))
  }

  class Visibility {
    var entitiesInRadius: set<int>
    var added: seq<int>
    var removed: seq<int>
    /** Everything the client has been told. */
    ghost var sent: seq<Delta>

    /** What the client takes to be in the radius. */
    ghost function Known(): set<int>
      reads this
    {
      Followed({}, sent)
    }

    /** The lists tell the client everything about entities that were not removed since it was last told. */
    ghost predicate Valid()
      reads this
    {
      forall e :: e !in removed ==> (e in entitiesInRadius <==> e in Known() || e in added)
    }

    constructor ()
      ensures Valid() && entitiesInRadius == {} && sent == [] && added == removed == []
    {
      entitiesInRadius, sent := {}, [];
      added, removed := [], [];
    }

    /** The part of `visibility_update` behind the lookup; the two lists are the differences in the
        order their hash sets give them. */
    method Update(inRange: set<int>, removedNow: seq<int>, addedNow: seq<int>)
      requires Valid() && Lists(removedNow, entitiesInRadius - inRange) && Lists(addedNow, inRange - entitiesInRadius)
      modifies this
      ensures Valid() && entitiesInRadius == inRange && sent == old(sent)
      ensures added == old(added) + addedNow && removed == old(removed) + removedNow
    {
      ghost var before := entitiesInRadius;
      assert forall e :: e in removedNow <==> e in before && e !in inRange;
      assert forall e :: e in addedNow <==> e in inRange && e !in before;
      for i := 0 to |removedNow|
        invariant forall e :: e in entitiesInRadius <==> e in before && e !in removedNow[..i]
        invariant added == old(added) && removed == old(removed) && sent == old(sent)
      {
        entitiesInRadius := entitiesInRadius - {removedNow[i]};
        assert removedNow[..i + 1] == removedNow[..i] + [removedNow[i]];
      }
      assert removedNow[..|removedNow|] == removedNow;
      assert forall e :: e in entitiesInRadius <==> e in before && e in inRange;
      assert entitiesInRadius == before * inRange;
      for i := 0 to |addedNow|
        invariant forall e :: e in entitiesInRadius <==> e in before * inRange || e in addedNow[..i]
        invariant added == old(added) && removed == old(removed) && sent == old(sent)
      {
        entitiesInRadius := entitiesInRadius + {addedNow[i]};
        assert addedNow[..i + 1] == addedNow[..i] + [addedNow[i]];
      }
      assert addedNow[..|addedNow|] == addedNow;
      assert forall e :: e in entitiesInRadius <==> e in inRange;
      added := added + addedNow;
      removed := removed + removedNow;
    }

    /** `player_visibility_update`: the spawns are sent first, then the despawns; both lists are cleared.
        What the client then knows is what is in the radius, exactly when nothing that was removed came
        back before it was told. */
    method Send()
      requires Valid()
      modifies this
      ensures sent == old(sent) + [Delta(set e | e in old(added), set e | e in old(removed))]
      ensures added == removed == [] && entitiesInRadius == old(entitiesInRadius)
      ensures Known() == entitiesInRadius <==> forall e <- old(removed) :: e !in entitiesInRadius
      ensures Known() == entitiesInRadius ==> Valid()
    {
      ghost var now := Delta(set e | e in added, set e | e in removed);
      FollowedOneMore({}, sent, now);
      sent := sent + [now];
      assert forall e :: e in Known() <==> e in entitiesInRadius && e !in removed;
      if forall e <- removed :: e !in entitiesInRadius {
        assert Known() == entitiesInRadius;
      }
      added, removed := [], [];
    }

    /** One frame: an update, when a region nearby is active, and a send. The client ends with exactly what
        is in the radius. */
    method Tick(look: Look)
      requires Valid() && added == removed == [] && Listed(entitiesInRadius, look)
      modifies this
      ensures Valid() && added == removed == []
      ensures Known() == entitiesInRadius == AfterLook(old(entitiesInRadius), look)
      ensures |sent| == |old(sent)| + 1 && sent[..|old(sent)|] == old(sent)
    {
      if look.Seen? {
        Update(look.inRange, look.removed, look.added);
      }
      Send();
    }

    /** Over every run of frames: following what was sent on the way, from what was in the radius before,
        reproduces what is in the radius after. */
    method Ticks(looks: seq<Look>)
      requires Valid() && added == removed == [] && AllListed(entitiesInRadius, looks)
      modifies this
      ensures Valid() && added == removed == []
      ensures entitiesInRadius == AfterLooks(old(entitiesInRadius), looks)
      ensures |sent| == |old(sent)| + |looks| && sent[..|old(sent)|] == old(sent)
      ensures Followed(old(entitiesInRadius), sent[|old(sent)|..]) == entitiesInRadius
    {
      assert forall e :: e !in removed && (e in entitiesInRadius <==> e in Known());
      assert Known() == entitiesInRadius;
      for i := 0 to |looks|
        invariant Valid() && added == removed == [] && Known() == entitiesInRadius
        invariant AllListed(entitiesInRadius, looks[i..])
        invariant AfterLooks(entitiesInRadius, looks[i..]) == AfterLooks(old(entitiesInRadius), looks)
        invariant |sent| == |old(sent)| + i && sent[..|old(sent)|] == old(sent)
      {
        assert looks[i..][1..] == looks[i + 1..];
        ghost var before := sent;
        Tick(looks[i]);
        assert sent[..|old(sent)|] == sent[..|before|][..|old(sent)|];
      }
      FollowedInParts({}, old(sent), sent[|old(sent)|..]);
      assert sent == old(sent) + sent[|old(sent)|..];
    }

    /** `clear_visibility`, for entities that are not players. */
    method Clear()
      modifies this`added, this`removed
      ensures added == removed == []
    {
      added, removed := [], [];
    }
  }
}
