/** The refresh-token session store: three Redis keyspaces whose keys expire on their own,
    and the operations that read and write them.

    Time is counted in integer microseconds. A key is visible at time `t` while
    `t < deadline`; an expired key stays in the map but no read sees it. A token is identified
    with its hash, because the hash is taken to be injective. */
module SessionStore {
  import opened Base

  type Hash = string
  type Uuid = nat

  const SECOND := 1_000_000

  datatype Record = Record(
    sessionId: Uuid,
    userId: Uuid,
    familyId: Uuid,
    lastJti: Option<Uuid>,
    issuedAt: int,
    expiresAt: int,
    lastSeenAt: int)

  datatype Stamped<T> = Stamped(value: T, deadline: int)

  datatype Store = Store(
    now: int,
    sessions: map<Hash, Stamped<Record>>,
    families: map<Uuid, Stamped<set<Hash>>>,
    index: map<Hash, Stamped<Uuid>>)

  datatype RotateError = Missing | Expired

  datatype RotateResult = Rotated(newHash: Hash, record: Record) | Refused(error: RotateError)

  datatype Lookup = Found(record: Record) | GaveUp(after: Store, error: RotateError)

  // ----- What a read sees -----

  function SessionAt(s: Store, h: Hash): Option<Record> {
    if h in s.sessions && s.now < s.sessions[h].deadline then Some(s.sessions[h].value) else None
  }

  predicate Live(s: Store, h: Hash) {
    SessionAt(s, h).Some?
  }

  function Members(s: Store, f: Uuid): set<Hash> {
    if f in s.families && s.now < s.families[f].deadline then s.families[f].value else {}
  }

  function FamilyOf(s: Store, h: Hash): Option<Uuid> {
    if h in s.index && s.now < s.index[h].deadline then Some(s.index[h].value) else None
  }

  /** No session of family `f` is visible. */
  ghost predicate NoLive(s: Store, f: Uuid) {
    forall h :: SessionAt(s, h).Some? ==> SessionAt(s, h).value.familyId != f
  }

  // ----- Time to live -----

  /** Whole seconds, at least one. Truncation and floor agree once one is the minimum. */
  function TtlSeconds(remaining: int): (r: int)
    ensures r >= 1
    ensures r * SECOND > remaining - SECOND
    ensures remaining >= SECOND ==> r * SECOND <= remaining
  {
    Max(1, remaining / SECOND)
  }

  function Deadline(written: int, expiresAt: int): (d: int)
    ensures d > expiresAt - SECOND
    ensures d >= written + SECOND
    ensures written <= expiresAt - SECOND ==> d <= expiresAt
  {
    written + TtlSeconds(expiresAt - written) * SECOND
  }

  // ----- Operations on values -----

  /** Removing the last member of a set removes its key. */
  function RemoveMember(s: Store, f: Uuid, h: Hash): map<Uuid, Stamped<set<Hash>>> {
    var left := Members(s, f) - {h};
    if left == {} then s.families - {f} else s.families[f := Stamped(left, s.families[f].deadline)]
  }

  function WriteSession(s: Store, h: Hash, r: Record): Store {
    var d := Deadline(s.now, r.expiresAt);
    s.(sessions := s.sessions[h := Stamped(r, d)],
       families := s.families[r.familyId := Stamped(Members(s, r.familyId) + {h}, d)],
       index := s.index[h := Stamped(r.familyId, d)])
  }

  function NewRecord(now: int, user: Uuid, session: Uuid, family: Uuid, jti: Option<Uuid>, ttl: int): Record {
    Record(session, user, family, jti, now, now + ttl, now)
  }

  function Create(s: Store, h: Hash, user: Uuid, session: Uuid, family: Uuid, jti: Option<Uuid>, ttl: int): Store {
    WriteSession(s, h, NewRecord(s.now, user, session, family, jti, ttl))
  }

  /** The pipeline that ends a rotation, given the record read at its start. */
  function CommitRotation(s: Store, spent: Hash, r: Record, newHash: Hash, jti: Uuid): Store {
    var d := Deadline(s.now, r.expiresAt);
    var r' := r.(lastJti := Some(jti), lastSeenAt := s.now);
    s.(sessions := (s.sessions - {spent})[newHash := Stamped(r', d)],
       families := s.families[r.familyId := Stamped(Members(s, r.familyId) - {spent} + {newHash}, d)],
       index := s.index[newHash := Stamped(r.familyId, d)])
  }

  function Kill(s: Store, f: Uuid): Store {
    var hs := Members(s, f);
    if hs == {} then s else
      s.(sessions := s.sessions - hs, index := s.index - hs, families := s.families - {f})
  }

  function KillByHash(s: Store, h: Hash): Store {
    match FamilyOf(s, h)
    case Some(f) => Kill(s, f)
    case None => s
  }

  /** The first half of a rotation: what it reads, and the effect of giving up there. */
  function ReadForRotation(s: Store, spent: Hash): Lookup {
    match SessionAt(s, spent)
    case None => GaveUp(KillByHash(s, spent), Missing)
    case Some(r) =>
      if r.expiresAt < s.now then GaveUp(s.(sessions := s.sessions - {spent}), Expired) else Found(r)
  }

  function Rotate(s: Store, spent: Hash, newHash: Hash, jti: Uuid): (Store, RotateResult) {
    match ReadForRotation(s, spent)
    case GaveUp(s', error) => (s', Refused(error))
    case Found(r) =>
      (CommitRotation(s, spent, r, newHash, jti),
       Rotated(newHash, r.(lastJti := Some(jti), lastSeenAt := s.now)))
  }

  function Revoke(s: Store, h: Hash): (Store, Option<Record>) {
    match SessionAt(s, h)
    case None => (s, None)
    case Some(r) =>
      (s.(sessions := s.sessions - {h},
          index := s.index - {h},
          families := RemoveMember(s, r.familyId, h)),
       Some(r))
  }

  // ----- What each operation changes, as reads see it -----

  /** Reads of every hash outside `hs` and of every family other than `f` are unchanged. */
  ghost predicate SameElsewhere(s: Store, s': Store, hs: set<Hash>, f: Uuid) {
    && s'.now == s.now
    && (forall h :: h !in hs ==> SessionAt(s', h) == SessionAt(s, h) && FamilyOf(s', h) == FamilyOf(s, h))
    && (forall g :: g != f ==> Members(s', g) == Members(s, g))
  }

  /** `h` has the record `r`, is indexed and is listed in its family. */
  ghost predicate Added(s: Store, s': Store, h: Hash, r: Record) {
    && SessionAt(s', h) == Some(r) && FamilyOf(s', h) == Some(r.familyId)
    && Members(s', r.familyId) == Members(s, r.familyId) + {h}
    && SameElsewhere(s, s', {h}, r.familyId)
  }

  /** `spent` is no longer live or listed and keeps its index entry, which is what makes a replay
      traceable; `newHash` carries its record on. */
  ghost predicate Replaced(s: Store, s': Store, spent: Hash, newHash: Hash, r: Record) {
    && SessionAt(s', spent) == None && FamilyOf(s', spent) == FamilyOf(s, spent)
    && SessionAt(s', newHash) == Some(r) && FamilyOf(s', newHash) == Some(r.familyId)
    && Members(s', r.familyId) == Members(s, r.familyId) - {spent} + {newHash}
    && SameElsewhere(s, s', {spent, newHash}, r.familyId)
  }

  /** `h` is no longer live, and no other read changed. */
  ghost predicate Dropped(s: Store, s': Store, h: Hash) {
    && SessionAt(s', h) == None && s'.now == s.now
    && (forall h' :: h' != h ==> SessionAt(s', h') == SessionAt(s, h'))
    && (forall h' :: FamilyOf(s', h') == FamilyOf(s, h'))
    && (forall f :: Members(s', f) == Members(s, f))
  }

  /** `h` is neither live nor traceable nor listed. */
  ghost predicate Forgotten(s: Store, s': Store, h: Hash, f: Uuid) {
    && SessionAt(s', h) == None && FamilyOf(s', h) == None && Members(s', f) == Members(s, f) - {h}
    && SameElsewhere(s, s', {h}, f)
  }

  /** Exactly the listed hashes lost their session and their index entry. */
  ghost predicate Killed(s: Store, s': Store, f: Uuid) {
    && Members(s', f) == {}
    && (forall h :: h in Members(s, f) ==> SessionAt(s', h) == None && FamilyOf(s', h) == None)
    && SameElsewhere(s, s', Members(s, f), f)
  }
}
