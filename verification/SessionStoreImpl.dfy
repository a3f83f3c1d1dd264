/** The store as code: each method issues the commands of one pipeline in order, is proved equal to
    the operation on values, and says what every later read sees. */
module SessionStoreImpl {
  import opened Base
  import opened SessionStore

  class RefreshStore {
    var clock: int
    var sessions: map<Hash, Stamped<Record>>
    var families: map<Uuid, Stamped<set<Hash>>>
    var index: map<Hash, Stamped<Uuid>>

    ghost function View(): Store
      reads this
    {
      Store(clock, sessions, families, index)
    }

    constructor (now: int)
      ensures View() == Store(now, map[], map[], map[])
    {
      clock := now;
      sessions, families, index := map[], map[], map[];
    }

    method GetSession(h: Hash) returns (r: Option<Record>)
      ensures r == SessionAt(View(), h)
    {
      if h in sessions && clock < sessions[h].deadline {
        return Some(sessions[h].value);
      }
      return None;
    }

    method SMembers(f: Uuid) returns (hs: set<Hash>)
      ensures hs == Members(View(), f)
    {
      if f in families && clock < families[f].deadline {
        return families[f].value;
      }
      return {};
    }

    method CreateSession(h: Hash, user: Uuid, session: Uuid, family: Uuid, jti: Option<Uuid>, ttl: int)
      returns (r: Record)
      modifies this
      ensures View() == Create(old(View()), h, user, session, family, jti, ttl)
      ensures r == Record(session, user, family, jti, old(clock), old(clock) + ttl, old(clock))
      ensures Added(old(View()), View(), h, r)
    {
      r := Record(session, user, family, jti, clock, clock + ttl, clock);
      var deadline := clock + TtlSeconds(r.expiresAt - clock) * SECOND;
      sessions := sessions[h := Stamped(r, deadline)];
      var hs := SMembers(family);
      families := families[family := Stamped(hs + {h}, deadline)];
      index := index[h := Stamped(family, deadline)];
    }

    method RotateSession(spent: Hash, newHash: Hash, jti: Uuid) returns (result: RotateResult)
      modifies this
      ensures (View(), result) == Rotate(old(View()), spent, newHash, jti)
      ensures result.Rotated? && spent != newHash ==> Replaced(old(View()), View(), spent, newHash, result.record)
      ensures
        match SessionAt(old(View()), spent)
        case None =>
          && result == Refused(Missing)
          && (match FamilyOf(old(View()), spent)
              case None => View() == old(View())
              case Some(f) => Killed(old(View()), View(), f))
        case Some(r) =>
          if r.expiresAt < old(clock) then result == Refused(Expired) && Dropped(old(View()), View(), spent)
          else
            result == Rotated(newHash, Record(r.sessionId, r.userId, r.familyId, Some(jti),
                                              r.issuedAt, r.expiresAt, old(clock)))
    {
      var raw := GetSession(spent);
      if raw == None {
        KillFamilyByHash(spent);
        return Refused(Missing);
      }
      var record := raw.value;
      if record.expiresAt < clock {
        sessions := sessions - {spent};
        return Refused(Expired);
      }
      var newRecord := Record(record.sessionId, record.userId, record.familyId, Some(jti),
                              record.issuedAt, record.expiresAt, clock);
      var deadline := clock + TtlSeconds(record.expiresAt - clock) * SECOND;
      sessions := sessions - {spent};
      sessions := sessions[newHash := Stamped(newRecord, deadline)];
      var hs := SMembers(record.familyId);
      families := families[record.familyId := Stamped(hs - {spent} + {newHash}, deadline)];
      index := index[newHash := Stamped(record.familyId, deadline)];
      return Rotated(newHash, newRecord);
    }

    method RevokeSession(h: Hash) returns (result: Option<Record>)
      modifies this
      ensures (View(), result) == Revoke(old(View()), h)
      ensures result == SessionAt(old(View()), h)
      ensures result.Some? ==> Forgotten(old(View()), View(), h, result.value.familyId)
      ensures result.None? ==> View() == old(View()) && SessionAt(View(), h) == None
    {
      result := GetSession(h);
      if result == None {
        return;
      }
      var family := result.value.familyId;
      sessions := sessions - {h};
      index := index - {h};
      var hs := SMembers(family);
      if hs - {h} == {} {
        families := families - {family};
      } else {
        families := families[family := Stamped(hs - {h}, families[family].deadline)];
      }
    }

    /** Deletes the members one by one, then the set itself. */
    method KillFamily(family: Uuid) returns (killed: nat)
      modifies this
      ensures View() == Kill(old(View()), family)
      ensures killed == |Members(old(View()), family)|
      ensures Killed(old(View()), View(), family)
    {
      var hashes := SMembers(family);
      if hashes == {} {
        return 0;
      }
      var todo := hashes;
      while todo != {}
        invariant todo <= hashes
        invariant sessions == old(sessions) - (hashes - todo)
        invariant index == old(index) - (hashes - todo)
        invariant families == old(families) && clock == old(clock)
        decreases todo
      {
        var h :| h in todo;
        sessions := sessions - {h};
        index := index - {h};
        todo := todo - {h};
      }
      families := families - {family};
      return |hashes|;
    }

    method KillFamilyByHash(h: Hash)
      modifies this
      ensures View() == KillByHash(old(View()), h)
      ensures FamilyOf(old(View()), h).None? ==> View() == old(View())
      ensures FamilyOf(old(View()), h).Some? ==> Killed(old(View()), View(), FamilyOf(old(View()), h).value)
    {
      if h in index && clock < index[h].deadline {
        var _ := KillFamily(index[h].value);
      }
    }
  }
}
