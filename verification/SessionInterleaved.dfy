/** Runs in which a rotation is two steps, a read and a later commit, and any other step may fall
    between them. Create, revoke and kill remain atomic. */
module SessionInterleaved {
  import opened Base
  import opened SessionStore
  import opened SessionRuns

  /** A rotation that has read its record and not yet written. */
  datatype Pending = Pending(spent: Hash, record: Record)

  /** `issued` remembers every hash ever issued and its family. */
  datatype SplitWorld = SplitWorld(
    store: Store,
    issued: map<Hash, Uuid>,
    births: map<Uuid, Birth>,
    pending: map<nat, Pending>)

  datatype SplitOp =
    | CreateStep(hash: Hash, user: Uuid, session: Uuid, family: Uuid, jti0: Option<Uuid>, ttl: int)
    | ReadStep(id: nat, presented: Hash)
    | CommitStep(id: nat, newHash: Hash, jti: Uuid)
    | RevokeStep(hash: Hash)
    | KillStep(family: Uuid)
    | TickStep(dt: nat)

  function SplitInit(now: int): SplitWorld {
    SplitWorld(Store(now, map[], map[], map[]), map[], map[], map[])
  }

  predicate SplitEnabled(w: SplitWorld, op: SplitOp) {
    match op
    case CreateStep(h, _, _, f, _, _) => h !in w.issued && f !in w.births
    case ReadStep(id, _) => id !in w.pending
    case CommitStep(id, newHash, _) => id in w.pending && newHash !in w.issued
    case _ => true
  }

  function SplitNext(w: SplitWorld, op: SplitOp): SplitWorld
    requires SplitEnabled(w, op)
  {
    match op
    case CreateStep(h, user, session, f, jti, ttl) =>
      w.(store := Create(w.store, h, user, session, f, jti, ttl),
         issued := w.issued[h := f],
         births := w.births[f := Birth(user, session, w.store.now, w.store.now + ttl)])
    case ReadStep(id, h) =>
      (match ReadForRotation(w.store, h)
       case Found(r) => w.(pending := w.pending[id := Pending(h, r)])
       case GaveUp(s, _) => w.(store := s))
    case CommitStep(id, newHash, jti) =>
      var p := w.pending[id];
      w.(store := CommitRotation(w.store, p.spent, p.record, newHash, jti),
         issued := w.issued[newHash := p.record.familyId],
         pending := w.pending - {id})
    case RevokeStep(h) => w.(store := Revoke(w.store, h).0)
    case KillStep(f) => w.(store := Kill(w.store, f))
    case TickStep(dt) => w.(store := w.store.(now := w.store.now + dt))
  }

  ghost predicate SplitTrace(ws: seq<SplitWorld>, ops: seq<SplitOp>) {
    && |ws| == |ops| + 1
    && ws[0] == SplitInit(ws[0].store.now)
    && forall i :: 0 <= i < |ops| ==> SplitEnabled(ws[i], ops[i]) && ws[i + 1] == SplitNext(ws[i], ops[i])
  }

  // ----- The invariant -----

  ghost predicate SessionOk(w: SplitWorld, h: Hash) {
    h in w.store.sessions ==>
      var r := w.store.sessions[h].value;
      && h in w.issued && w.issued[h] == r.familyId
      && r.familyId in w.births && Matches(r, w.births[r.familyId])
      && r.expiresAt - SECOND < w.store.sessions[h].deadline
  }

  ghost predicate FamilyOk(w: SplitWorld, f: Uuid) {
    f in w.store.families ==>
      && f in w.births && w.births[f].expiresAt - SECOND < w.store.families[f].deadline
      && forall h :: h in w.store.families[f].value ==> h in w.issued && w.issued[h] == f
  }

  ghost predicate IndexOk(w: SplitWorld, h: Hash) {
    h in w.store.index ==>
      var f := w.store.index[h].value;
      && h in w.issued && w.issued[h] == f
      && f in w.births && w.births[f].expiresAt - SECOND < w.store.index[h].deadline
  }

  ghost predicate PendingOk(w: SplitWorld, id: nat) {
    id in w.pending ==>
      var r := w.pending[id].record;
      && r.familyId in w.births && Matches(r, w.births[r.familyId])
      && w.pending[id].spent in w.issued && w.issued[w.pending[id].spent] == r.familyId
  }

  /** A visible session is listed in its family set and its index entry names that family. */
  ghost predicate Agrees(w: SplitWorld, h: Hash) {
    SessionAt(w.store, h).Some? ==>
      var r := SessionAt(w.store, h).value;
      w.store.now <= r.expiresAt - SECOND ==>
        h in Members(w.store, r.familyId) && FamilyOf(w.store, h) == Some(r.familyId)
  }

  ghost predicate SplitInv(w: SplitWorld) {
    && (forall h :: SessionOk(w, h))
    && (forall f :: FamilyOk(w, f))
    && (forall h :: IndexOk(w, h))
    && (forall id :: PendingOk(w, id))
    && (forall h :: Agrees(w, h))
  }

  // ----- Every step keeps it -----

  lemma CreateStepKeeps(w: SplitWorld, op: SplitOp)
    requires SplitInv(w) && op.CreateStep? && SplitEnabled(w, op)
    ensures SplitInv(SplitNext(w, op))
  {
    var w' := SplitNext(w, op);
    assert FamilyOk(w, op.family);
    forall h ensures SessionOk(w', h) { assert SessionOk(w, h); }
    forall f ensures FamilyOk(w', f) { assert FamilyOk(w, f); }
    forall h ensures IndexOk(w', h) { assert IndexOk(w, h); }
    forall id ensures PendingOk(w', id) { assert PendingOk(w, id); }
    forall h ensures Agrees(w', h) { assert Agrees(w, h) && SessionOk(w, h); }
  }

  lemma CommitStepKeeps(w: SplitWorld, op: SplitOp)
    requires SplitInv(w) && op.CommitStep? && SplitEnabled(w, op)
    ensures SplitInv(SplitNext(w, op))
  {
    var w' := SplitNext(w, op);
    var p := w.pending[op.id];
    assert PendingOk(w, op.id);
    forall h ensures SessionOk(w', h) { assert SessionOk(w, h); }
    forall f ensures FamilyOk(w', f) { assert FamilyOk(w, f); }
    forall h ensures IndexOk(w', h) { assert IndexOk(w, h); }
    forall id ensures PendingOk(w', id) { assert PendingOk(w, id); }
    forall h ensures Agrees(w', h) { assert Agrees(w, h) && SessionOk(w, h); }
  }

  lemma KillStepKeeps(w: SplitWorld, f: Uuid)
    requires SplitInv(w)
    ensures SplitInv(w.(store := Kill(w.store, f)))
  {
    var w' := w.(store := Kill(w.store, f));
    forall h ensures SessionOk(w', h) { assert SessionOk(w, h); }
    forall g ensures FamilyOk(w', g) { assert FamilyOk(w, g); }
    forall h ensures IndexOk(w', h) { assert IndexOk(w, h); }
    forall id ensures PendingOk(w', id) { assert PendingOk(w, id); }
    forall h ensures Agrees(w', h) { assert Agrees(w, h); }
  }

  lemma RevokeStepKeeps(w: SplitWorld, h0: Hash)
    requires SplitInv(w)
    ensures SplitInv(w.(store := Revoke(w.store, h0).0))
  {
    var w' := w.(store := Revoke(w.store, h0).0);
    forall h ensures SessionOk(w', h) { assert SessionOk(w, h); }
    forall f ensures FamilyOk(w', f) { assert FamilyOk(w, f); }
    forall h ensures IndexOk(w', h) { assert IndexOk(w, h); }
    forall id ensures PendingOk(w', id) { assert PendingOk(w, id); }
    forall h ensures Agrees(w', h) { assert Agrees(w, h); }
  }

  /** Time moving on, or one session key going, keeps the invariant: every deadline of a family
      lies past the last moment at which agreement is claimed. */
  lemma FadeKeeps(w: SplitWorld, s: Store)
    requires SplitInv(w)
    requires w.store.now <= s.now && s.families == w.store.families && s.index == w.store.index
    requires forall h :: h in s.sessions ==> h in w.store.sessions && s.sessions[h] == w.store.sessions[h]
    ensures SplitInv(w.(store := s))
  {
    var w' := w.(store := s);
    forall h ensures SessionOk(w', h) { assert SessionOk(w, h); }
    forall f ensures FamilyOk(w', f) { assert FamilyOk(w, f); }
    forall h ensures IndexOk(w', h) { assert IndexOk(w, h); }
    forall id ensures PendingOk(w', id) { assert PendingOk(w, id); }
    forall h ensures Agrees(w', h) {
      if SessionAt(s, h).Some? {
        assert Agrees(w, h) && SessionOk(w, h) && IndexOk(w, h) && FamilyOk(w, SessionAt(s, h).value.familyId);
      }
    }
  }

  lemma SplitStepKeeps(w: SplitWorld, op: SplitOp)
    requires SplitInv(w) && SplitEnabled(w, op)
    ensures SplitInv(SplitNext(w, op))
  {
    match op
    case CreateStep(_, _, _, _, _, _) => CreateStepKeeps(w, op);
    case CommitStep(_, _, _) => CommitStepKeeps(w, op);
    case ReadStep(id, h) =>
      if SessionAt(w.store, h).Some? {
        if ReadForRotation(w.store, h).Found? {
          var w' := SplitNext(w, op);
          forall h' ensures SessionOk(w', h') { assert SessionOk(w, h'); }
          forall f ensures FamilyOk(w', f) { assert FamilyOk(w, f); }
          forall h' ensures IndexOk(w', h') { assert IndexOk(w, h'); }
          forall i ensures PendingOk(w', i) { assert PendingOk(w, i) && SessionOk(w, h); }
          forall h' ensures Agrees(w', h') { assert Agrees(w, h'); }
        } else {
          FadeKeeps(w, w.store.(sessions := w.store.sessions - {h}));
        }
      } else if FamilyOf(w.store, h).Some? {
        KillStepKeeps(w, FamilyOf(w.store, h).value);
      }
    case RevokeStep(h) => RevokeStepKeeps(w, h);
    case KillStep(f) => KillStepKeeps(w, f);
    case TickStep(dt) => FadeKeeps(w, w.store.(now := w.store.now + dt));
  }

  lemma {:induction false} SplitTraceInv(ws: seq<SplitWorld>, ops: seq<SplitOp>, i: nat)
    requires SplitTrace(ws, ops) && i < |ws|
    ensures SplitInv(ws[i])
  {
    if i == 0 {
    } else {
      SplitTraceInv(ws, ops, i - 1);
      assert ws[i] == SplitNext(ws[i - 1], ops[i - 1]);
      SplitStepKeeps(ws[i - 1], ops[i - 1]);
    }
  }

  // ----- What interleaving keeps -----

  /** Up to one second before the family's expiry, every visible session of it is in its set and
      indexed under it, so a kill leaves none. */
  lemma KillReachesEveryLiveSession(ws: seq<SplitWorld>, ops: seq<SplitOp>, i: nat, f: Uuid)
    requires SplitTrace(ws, ops) && i < |ws| && f in ws[i].births
    requires ws[i].store.now <= ws[i].births[f].expiresAt - SECOND
    ensures
      forall h :: SessionAt(ws[i].store, h).Some? && SessionAt(ws[i].store, h).value.familyId == f ==>
        h in Members(ws[i].store, f) && FamilyOf(ws[i].store, h) == Some(f)
    ensures NoLive(Kill(ws[i].store, f), f)
  {
    SplitTraceInv(ws, ops, i);
    var s := ws[i].store;
    forall h | SessionAt(s, h).Some? && SessionAt(s, h).value.familyId == f
      ensures h in Members(s, f) && FamilyOf(s, h) == Some(f)
    {
      assert Agrees(ws[i], h) && SessionOk(ws[i], h);
    }
  }

  /** A presented hash that is not live but is still indexed kills its family. */
  lemma IndexedReplayKillsTheFamily(ws: seq<SplitWorld>, ops: seq<SplitOp>, i: nat, h: Hash, f: Uuid)
    requires SplitTrace(ws, ops) && i < |ws| && f in ws[i].births
    requires ws[i].store.now <= ws[i].births[f].expiresAt - SECOND
    requires !Live(ws[i].store, h) && FamilyOf(ws[i].store, h) == Some(f)
    ensures ReadForRotation(ws[i].store, h).GaveUp? && NoLive(ReadForRotation(ws[i].store, h).after, f)
  {
    KillReachesEveryLiveSession(ws, ops, i, f);
  }

  // ----- What it gives up -----

  ghost predicate NonePending(w: SplitWorld, f: Uuid) {
    forall id :: id in w.pending ==> w.pending[id].record.familyId != f
  }

  lemma QuietStep(w: SplitWorld, op: SplitOp, f: Uuid)
    requires SplitInv(w) && SplitEnabled(w, op) && f in w.births && NoLive(w.store, f) && NonePending(w, f)
    ensures
      var w' := SplitNext(w, op);
      f in w'.births && NoLive(w'.store, f) && NonePending(w', f)
  {
    var s, s' := w.store, SplitNext(w, op).store;
    forall h | SessionAt(s', h).Some?
      ensures SessionAt(s', h).value.familyId != f
    {
      if SessionAt(s, h).Some? { assert SessionAt(s, h).value.familyId != f; }
    }
  }

  /** A family with no live session and no rotation under way stays empty in every continuation. */
  lemma {:induction false} EmptyFamilyStaysEmptyWhenQuiet(
      ws: seq<SplitWorld>, ops: seq<SplitOp>, i: nat, j: nat, f: Uuid)
    requires SplitTrace(ws, ops) && i <= j < |ws|
    requires f in ws[i].births && NoLive(ws[i].store, f) && NonePending(ws[i], f)
    ensures f in ws[j].births && NoLive(ws[j].store, f) && NonePending(ws[j], f)
  {
    if i == j {
    } else {
      EmptyFamilyStaysEmptyWhenQuiet(ws, ops, i, j - 1, f);
      SplitTraceInv(ws, ops, j - 1);
      assert ws[j] == SplitNext(ws[j - 1], ops[j - 1]);
      QuietStep(ws[j - 1], ops[j - 1], f);
    }
  }

  /** A family with no live session can come back in the next step exactly when some rotation of
      it has read and not yet committed. */
  lemma EmptyFamilyRevivableIffPending(ws: seq<SplitWorld>, ops: seq<SplitOp>, i: nat, f: Uuid, newHash: Hash)
    requires SplitTrace(ws, ops) && i < |ws| && f in ws[i].births && NoLive(ws[i].store, f)
    requires newHash !in ws[i].issued
    ensures !NonePending(ws[i], f) <==>
            exists op :: SplitEnabled(ws[i], op) && !NoLive(SplitNext(ws[i], op).store, f)
  {
    var w := ws[i];
    SplitTraceInv(ws, ops, i);
    if NonePending(w, f) {
      forall op | SplitEnabled(w, op) ensures NoLive(SplitNext(w, op).store, f) { QuietStep(w, op, f); }
    } else {
      var id :| id in w.pending && w.pending[id].record.familyId == f;
      var op := CommitStep(id, newHash, 0);
      assert SplitEnabled(w, op) && SessionAt(SplitNext(w, op).store, newHash).Some?;
    }
  }

  // ----- When a chain forks -----

  ghost predicate LiveIn(s: Store, f: Uuid, h: Hash) {
    SessionAt(s, h).Some? && SessionAt(s, h).value.familyId == f
  }

  ghost predicate AtMostOneLive(s: Store, f: Uuid) {
    forall a, b :: LiveIn(s, f, a) && LiveIn(s, f, b) ==> a == b
  }

  /** The commit of a rotation of `f` while a hash other than the one it spends is live. */
  ghost predicate ForkingCommit(w: SplitWorld, op: SplitOp, f: Uuid) {
    && op.CommitStep? && op.id in w.pending && w.pending[op.id].record.familyId == f
    && exists h :: LiveIn(w.store, f, h) && h != w.pending[op.id].spent
  }

  lemma CommitForksExactly(w: SplitWorld, op: SplitOp, f: Uuid)
    requires SplitInv(w) && op.CommitStep? && SplitEnabled(w, op) && AtMostOneLive(w.store, f)
    ensures !AtMostOneLive(SplitNext(w, op).store, f) <==> ForkingCommit(w, op, f)
  {
    var p := w.pending[op.id];
    var s, s' := w.store, SplitNext(w, op).store;
    assert PendingOk(w, op.id);
    forall h ensures LiveIn(s', f, h) <==>
                     if h == op.newHash then p.record.familyId == f else LiveIn(s, f, h) && h != p.spent
    {
      assert SessionOk(w, h);
    }
    if ForkingCommit(w, op, f) {
      var h :| LiveIn(s, f, h) && h != p.spent;
      assert SessionOk(w, h);
      assert LiveIn(s', f, h) && LiveIn(s', f, op.newHash);
    }
  }

  /** From a state with at most one live session of a family, a step leaves two if and only if it is
      a forking commit. */
  lemma StepForksExactly(w: SplitWorld, op: SplitOp, f: Uuid)
    requires SplitInv(w) && SplitEnabled(w, op) && AtMostOneLive(w.store, f)
    ensures !AtMostOneLive(SplitNext(w, op).store, f) <==> ForkingCommit(w, op, f)
  {
    var s, s' := w.store, SplitNext(w, op).store;
    if op.CommitStep? {
      CommitForksExactly(w, op, f);
    } else if op.CreateStep? {
        forall h | LiveIn(s', f, h) ensures if h == op.hash then f == op.family else LiveIn(s, f, h) {
      }
      forall h ensures !LiveIn(s, op.family, h) { assert SessionOk(w, h); }
    } else {
      forall h | LiveIn(s', f, h) ensures LiveIn(s, f, h) {
      }
    }
  }

  /** A run has two live sessions of a family in some state if and only if one of its steps is a
      forking commit of that family. */
  lemma {:induction false} RunForksExactly(ws: seq<SplitWorld>, ops: seq<SplitOp>, n: nat, f: Uuid)
    requires SplitTrace(ws, ops) && n < |ws|
    ensures (exists j :: 0 <= j <= n && !AtMostOneLive(ws[j].store, f)) <==>
            exists i :: 0 <= i < n && ForkingCommit(ws[i], ops[i], f)
  {
    if n == 0 {
    } else {
      RunForksExactly(ws, ops, n - 1, f);
      SplitTraceInv(ws, ops, n - 1);
      assert ws[n] == SplitNext(ws[n - 1], ops[n - 1]);
      if AtMostOneLive(ws[n - 1].store, f) {
        StepForksExactly(ws[n - 1], ops[n - 1], f);
      }
    }
  }

  lemma TwoReads(w: SplitWorld, r: Record)
    requires w.pending == map[] && SessionAt(w.store, "a") == Some(r) && w.store.now <= r.expiresAt
    ensures SplitEnabled(w, ReadStep(0, "a"))
    ensures
      var w1 := SplitNext(w, ReadStep(0, "a"));
      && SplitEnabled(w1, ReadStep(1, "a"))
      && SplitNext(w1, ReadStep(1, "a")) == w.(pending := map[0 := Pending("a", r), 1 := Pending("a", r)])
  {
  }

  lemma TwoCommits(w: SplitWorld, r: Record)
    requires w.pending == map[0 := Pending("a", r), 1 := Pending("a", r)] && "b" !in w.issued && "c" !in w.issued
    ensures SplitEnabled(w, CommitStep(0, "b", 3))
    ensures
      var w1 := SplitNext(w, CommitStep(0, "b", 3));
      && SplitEnabled(w1, CommitStep(1, "c", 4))
      && var w2 := SplitNext(w1, CommitStep(1, "c", 4));
      LiveIn(w2.store, r.familyId, "b") && LiveIn(w2.store, r.familyId, "c")
  {
  }

  lemma SplitTraceExtends(ws: seq<SplitWorld>, ops: seq<SplitOp>, op: SplitOp)
    requires SplitTrace(ws, ops) && SplitEnabled(ws[|ops|], op)
    ensures SplitTrace(ws + [SplitNext(ws[|ops|], op)], ops + [op])
  {
  }

  /** One step from `SplitInit(0)`: a family with one session. */
  lemma OneSession(h: Hash, f: Uuid) returns (ws: seq<SplitWorld>, ops: seq<SplitOp>, r: Record)
    ensures SplitTrace(ws, ops) && |ws| == 2 && r.familyId == f
    ensures
      var w := ws[1];
      && w.pending == map[] && w.issued.Keys == {h} && w.store.index.Keys == {h}
      && SessionAt(w.store, h) == Some(r) && w.store.now <= r.expiresAt && Members(w.store, f) == {h}
  {
    var op := CreateStep(h, 1, 2, f, None, 60_000_000);
    SplitTraceExtends([SplitInit(0)], [], op);
    ws, ops, r := [SplitInit(0)] + [SplitNext(SplitInit(0), op)], [] + [op], NewRecord(0, 1, 2, f, None, 60_000_000);
  }

  /** Two rotations of one token that both read before either commits leave two live sessions. */
  lemma TwoReadersForkTheChain() returns (ws: seq<SplitWorld>, ops: seq<SplitOp>)
    ensures SplitTrace(ws, ops) && |ws| == 6
    ensures LiveIn(ws[5].store, 7, "b") && LiveIn(ws[5].store, 7, "c")
  {
    var r: Record;
    ws, ops, r := OneSession("a", 7);
    TwoReads(ws[1], r);
    SplitTraceExtends(ws, ops, ReadStep(0, "a"));
    ws, ops := ws + [SplitNext(ws[1], ReadStep(0, "a"))], ops + [ReadStep(0, "a")];
    SplitTraceExtends(ws, ops, ReadStep(1, "a"));
    ws, ops := ws + [SplitNext(ws[2], ReadStep(1, "a"))], ops + [ReadStep(1, "a")];
    TwoCommits(ws[3], r);
    SplitTraceExtends(ws, ops, CommitStep(0, "b", 3));
    ws, ops := ws + [SplitNext(ws[3], CommitStep(0, "b", 3))], ops + [CommitStep(0, "b", 3)];
    SplitTraceExtends(ws, ops, CommitStep(1, "c", 4));
    ws, ops := ws + [SplitNext(ws[4], CommitStep(1, "c", 4))], ops + [CommitStep(1, "c", 4)];
  }

  // ----- When a consumed token stays traceable -----

  /** `h` was issued, is no longer a session and is listed in no family. */
  ghost predicate Detached(w: SplitWorld, h: Hash) {
    && h in w.issued && h !in w.store.sessions
    && forall f :: f in w.store.families ==> h !in w.store.families[f].value
  }

  /** A detached hash stays detached, and no step touches its index entry. */
  lemma DetachedStep(w: SplitWorld, op: SplitOp, h: Hash)
    requires SplitInv(w) && SplitEnabled(w, op) && Detached(w, h)
    ensures
      var w' := SplitNext(w, op);
      && Detached(w', h)
      && (h in w'.store.index <==> h in w.store.index)
      && (h in w.store.index ==> w'.store.index[h] == w.store.index[h])
  {
    if op.CommitStep? { assert PendingOk(w, op.id); }
  }

  lemma CommitDetaches(w: SplitWorld, op: SplitOp)
    requires SplitInv(w) && op.CommitStep? && SplitEnabled(w, op)
    ensures
      var w', h := SplitNext(w, op), w.pending[op.id].spent;
      && Detached(w', h)
      && (h in w'.store.index <==> h in w.store.index)
      && (h in w.store.index ==> w'.store.index[h] == w.store.index[h])
  {
    var p := w.pending[op.id];
    var w' := SplitNext(w, op);
    assert PendingOk(w, op.id);
    forall f | f in w'.store.families ensures p.spent !in w'.store.families[f].value {
      assert FamilyOk(w, f);
    }
  }

  /** `h` is detached, with the index entry it had in `s`, if any. */
  ghost predicate DetachedSince(w: SplitWorld, h: Hash, s: Store) {
    && Detached(w, h)
    && (h in w.store.index <==> h in s.index)
    && (h in s.index ==> w.store.index[h] == s.index[h])
  }

  lemma DetachedTraceStep(ws: seq<SplitWorld>, ops: seq<SplitOp>, j: nat, h: Hash, s: Store)
    requires SplitTrace(ws, ops) && j < |ops| && DetachedSince(ws[j], h, s)
    ensures DetachedSince(ws[j + 1], h, s)
  {
    SplitTraceInv(ws, ops, j);
    DetachedStep(ws[j], ops[j], h);
    assert ws[j + 1] == SplitNext(ws[j], ops[j]);
  }

  lemma CommitTraceStep(ws: seq<SplitWorld>, ops: seq<SplitOp>, i: nat)
    requires SplitTrace(ws, ops) && i < |ops| && ops[i].CommitStep? && ops[i].id in ws[i].pending
    ensures DetachedSince(ws[i + 1], ws[i].pending[ops[i].id].spent, ws[i].store)
  {
    SplitTraceInv(ws, ops, i);
    CommitDetaches(ws[i], ops[i]);
    assert ws[i + 1] == SplitNext(ws[i], ops[i]);
  }

  lemma {:induction false} ConsumedKeepsItsEntry(ws: seq<SplitWorld>, ops: seq<SplitOp>, i: nat, j: nat)
    requires SplitTrace(ws, ops) && i < j < |ws| && ops[i].CommitStep? && ops[i].id in ws[i].pending
    ensures DetachedSince(ws[j], ws[i].pending[ops[i].id].spent, ws[i].store)
  {
    if i + 1 == j {
      CommitTraceStep(ws, ops, i);
    } else {
      ConsumedKeepsItsEntry(ws, ops, i, j - 1);
      DetachedTraceStep(ws, ops, j - 1, ws[i].pending[ops[i].id].spent, ws[i].store);
    }
  }

  lemma {:induction false} SplitClockAndBirths(ws: seq<SplitWorld>, ops: seq<SplitOp>, i: nat, j: nat, f: Uuid)
    requires SplitTrace(ws, ops) && i <= j < |ws| && f in ws[i].births
    ensures ws[i].store.now <= ws[j].store.now && f in ws[j].births && ws[j].births[f] == ws[i].births[f]
  {
    if i == j {
    } else {
      SplitClockAndBirths(ws, ops, i, j - 1, f);
      assert ws[j] == SplitNext(ws[j - 1], ops[j - 1]);
    }
  }

  /** In every interleaved run, up to one second before the expiry, a token consumed by a rotation is
      traceable if and only if its index entry was there when the rotation committed. Presenting it
      is always refused, and ends its family exactly in that case or when nothing was live. */
  lemma ConsumedTokenTraceableExactly(ws: seq<SplitWorld>, ops: seq<SplitOp>, i: nat, j: nat, f: Uuid)
    requires SplitTrace(ws, ops) && i < j < |ws| && ops[i].CommitStep? && ops[i].id in ws[i].pending
    requires ws[i].pending[ops[i].id].record.familyId == f && f in ws[j].births
    requires ws[j].store.now <= ws[j].births[f].expiresAt - SECOND
    ensures
      var h := ws[i].pending[ops[i].id].spent;
      var lookup := ReadForRotation(ws[j].store, h);
      && (FamilyOf(ws[j].store, h) == Some(f) <==> FamilyOf(ws[i].store, h).Some?)
      && lookup.GaveUp? && lookup.error == Missing
      && (NoLive(lookup.after, f) <==> FamilyOf(ws[i].store, h).Some? || NoLive(ws[j].store, f))
  {
    var h := ws[i].pending[ops[i].id].spent;
    SplitTraceInv(ws, ops, i);
    SplitTraceInv(ws, ops, j);
    assert PendingOk(ws[i], ops[i].id) && IndexOk(ws[i], h) && IndexOk(ws[j], h);
    SplitClockAndBirths(ws, ops, i, j, f);
    ConsumedKeepsItsEntry(ws, ops, i, j);
    if FamilyOf(ws[i].store, h).Some? {
      assert FamilyOf(ws[j].store, h) == Some(f);
      IndexedReplayKillsTheFamily(ws, ops, j, h, f);
    } else {
      assert FamilyOf(ws[j].store, h) == None;
    }
  }

  lemma CommitAfterKill(w: SplitWorld, r: Record)
    requires w.pending == map[0 := Pending("a", r)] && "b" !in w.issued
    requires "a" !in w.store.sessions && "a" !in w.store.index
    ensures SplitEnabled(w, CommitStep(0, "b", 3))
    ensures
      var w1 := SplitNext(w, CommitStep(0, "b", 3));
      && SplitEnabled(w1, ReadStep(1, "a")) && SplitNext(w1, ReadStep(1, "a")).store == w1.store
      && FamilyOf(w1.store, "a") == None && LiveIn(w1.store, r.familyId, "b")
  {
  }

  /** A kill between read and commit deletes the index entry of the token being rotated, so a
      later replay of that token finds no family and its successor survives. */
  lemma KillDuringRotationLosesTheTrace() returns (ws: seq<SplitWorld>, ops: seq<SplitOp>)
    ensures SplitTrace(ws, ops) && |ws| == 6 && ops[4] == ReadStep(1, "a")
    ensures FamilyOf(ws[4].store, "a") == None && ws[5].store == ws[4].store
    ensures LiveIn(ws[5].store, 7, "b")
  {
    ops := [CreateStep("a", 1, 2, 7, None, 60_000_000), ReadStep(0, "a"), KillStep(7),
            CommitStep(0, "b", 3), ReadStep(1, "a")];
    var w0 := SplitInit(0);
    var w1 := SplitNext(w0, ops[0]);
    var w2 := SplitNext(w1, ops[1]);
    var w3 := SplitNext(w2, ops[2]);
    CommitAfterKill(w3, NewRecord(0, 1, 2, 7, None, 60_000_000));
    var w4 := SplitNext(w3, ops[3]);
    ws := [w0, w1, w2, w3, w4, SplitNext(w4, ops[4])];
  }
}
