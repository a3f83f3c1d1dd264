/** Migration 0077: bind each open activity session to the running activation of its room, then
    close what nothing claims. */
module SessionAdoption {
  import opened Base

  type Id = nat

  datatype Activation = Activation(activityType: Id, room: Id, active: bool)

  datatype Session = Session(
    activityType: Id,
    room: Id,
    subject: Id,
    open: bool,
    closedAt: Option<int>,
    activation: Option<Id>)

  type Sessions = map<Id, Session>
  type Activations = map<Id, Activation>

  /** At most one open session for a type, room and subject. */
  ghost predicate UniqueOpen(s: Sessions) {
    forall a, b :: a in s && b in s && a != b && s[a].open && s[b].open ==>
      !(s[a].activityType == s[b].activityType && s[a].room == s[b].room && s[a].subject == s[b].subject)
  }

  /** At most one active activation for a room. */
  ghost predicate UniqueActive(acts: Activations) {
    forall a, b :: a in acts && b in acts && a != b && acts[a].active && acts[b].active ==>
      acts[a].room != acts[b].room
  }

  /** The new index: nulls are distinct from one another. */
  ghost predicate UniqueActivationSubject(s: Sessions) {
    forall a, b :: a in s && b in s && a != b && s[a].activation.Some? && s[a].activation == s[b].activation ==>
      s[a].subject != s[b].subject
  }

  /** The join condition of the backfill. */
  predicate Claims(acts: Activations, id: Id, s: Session) {
    && id in acts && s.open && acts[id].active
    && acts[id].room == s.room && acts[id].activityType == s.activityType
  }

  predicate Claimed(acts: Activations, s: Session) {
    exists id :: id in acts && Claims(acts, id, s)
  }

  /** What `UPDATE ... FROM` promises: a row with matches takes one of them, whichever it is. */
  ghost predicate IsBackfill(s: Sessions, acts: Activations, out: Sessions) {
    && out.Keys == s.Keys
    && forall k :: k in s ==>
         if Claimed(acts, s[k])
         then out[k].activation.Some? && Claims(acts, out[k].activation.value, s[k])
              && out[k] == s[k].(activation := out[k].activation)
         else out[k] == s[k]
  }

  /** With one active activation per room the join cannot match twice, so the outcome is the same
      whichever match is taken. */
  lemma BackfillIsDeterministic(s: Sessions, acts: Activations, out1: Sessions, out2: Sessions)
    requires UniqueActive(acts) && IsBackfill(s, acts, out1) && IsBackfill(s, acts, out2)
    ensures out1 == out2
  {
    forall k | k in s ensures out1[k] == out2[k] {
      if Claimed(acts, s[k]) {
        assert Claims(acts, out1[k].activation.value, s[k]) && Claims(acts, out2[k].activation.value, s[k]);
      }
    }
  }

  method Backfill(s: Sessions, acts: Activations) returns (out: Sessions)
    ensures IsBackfill(s, acts, out)
  {
    out := s;
    var todo := s.Keys;
    while todo != {}
      invariant todo <= s.Keys
      invariant out.Keys == s.Keys
      invariant forall k :: k in todo ==> out[k] == s[k]
      invariant forall k :: k in s && k !in todo ==>
                  if Claimed(acts, s[k])
                  then out[k].activation.Some? && Claims(acts, out[k].activation.value, s[k])
                       && out[k] == s[k].(activation := out[k].activation)
                  else out[k] == s[k]
      decreases todo
    {
      var k :| k in todo;
      if Claimed(acts, s[k]) {
        var id :| id in acts && Claims(acts, id, s[k]);
        out := out[k := s[k].(activation := Some(id))];
      }
      todo := todo - {k};
    }
  }

  function CloseUnclaimed(s: Sessions, now: int): Sessions {
    map k | k in s :: if s[k].open && s[k].activation.None? then s[k].(open := false, closedAt := Some(now)) else s[k]
  }

  /** Every session still open points to the active activation of its own room and type, every
      other formerly open one is closed, closed ones are untouched, and both unique indexes hold. */
  method Upgrade(s: Sessions, acts: Activations, now: int) returns (out: Sessions)
    requires UniqueOpen(s) && UniqueActive(acts)
    requires forall k :: k in s ==> s[k].activation.None?
    ensures out.Keys == s.Keys
    ensures forall k :: k in s ==>
              if !s[k].open then out[k] == s[k]
              else if exists id :: id in acts && acts[id].active && acts[id].room == s[k].room
                                   && acts[id].activityType == s[k].activityType then
                && out[k].activation.Some? && out[k].activation.value in acts
                && var a := acts[out[k].activation.value];
                && a.active && a.room == s[k].room && a.activityType == s[k].activityType
                && out[k] == s[k].(activation := out[k].activation)
              else out[k] == s[k].(open := false, closedAt := Some(now))
    ensures UniqueActivationSubject(out) && UniqueOpen(out)
  {
    out := Backfill(s, acts);
    forall k | k in s && s[k].open
      ensures Claimed(acts, s[k]) <==> exists id :: id in acts && acts[id].active && acts[id].room == s[k].room
                                                    && acts[id].activityType == s[k].activityType
    {
      if id :| id in acts && acts[id].active && acts[id].room == s[k].room
               && acts[id].activityType == s[k].activityType {
        assert Claims(acts, id, s[k]);
      }
    }
    out := CloseUnclaimed(out, now);
    forall a, b | a in out && b in out && a != b && out[a].activation.Some? && out[a].activation == out[b].activation
      ensures out[a].subject != out[b].subject
    {
      assert Claimed(acts, s[a]) && Claimed(acts, s[b]);
    }
  }

  /** The order matters: closing first leaves no session open and adopts none. */
  lemma ClosingFirstAdoptsNothing(s: Sessions, acts: Activations, now: int, out: Sessions)
    requires forall k :: k in s ==> s[k].activation.None?
    requires IsBackfill(CloseUnclaimed(s, now), acts, out)
    ensures forall k :: k in out ==> !out[k].open && out[k].activation.None?
  {
    var closed := CloseUnclaimed(s, now);
    forall k | k in out ensures !out[k].open && out[k].activation.None? {
      assert !closed[k].open;
      assert !Claimed(acts, closed[k]);
    }
  }
}
