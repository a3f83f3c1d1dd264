/** Runs of the session store in which every operation is one atomic step.

    A world pairs the store with the history a proof needs: which hash was issued when and for
    which family, which hashes a rotation consumed, and how each family began. The operations
    never read the history. */
module SessionRuns {
  import opened Base
  import opened SessionStore

  /** `jti` is the access token issued with the hash, if any. */
  datatype Issue = Issue(family: Uuid, at: int, jti: Option<Uuid>)

  datatype Birth = Birth(userId: Uuid, sessionId: Uuid, issuedAt: int, expiresAt: int)

  datatype World = World(store: Store, issued: map<Hash, Issue>, consumed: set<Hash>, births: map<Uuid, Birth>)

  datatype Op =
    | CreateOp(hash: Hash, user: Uuid, session: Uuid, family: Uuid, jti0: Option<Uuid>, ttl: int)
    | RotateOp(spent: Hash, newHash: Hash, jti: Uuid)
    | RevokeOp(hash: Hash)
    | KillOp(family: Uuid)
    | TickOp(dt: nat)

  function Init(now: int): World {
    World(Store(now, map[], map[], map[]), map[], {}, map[])
  }

  /** New tokens and new family ids never repeat. Any hash may be presented. */
  predicate Enabled(w: World, op: Op) {
    match op
    case CreateOp(h, _, _, f, _, _) => h !in w.issued && f !in w.births
    case RotateOp(_, newHash, _) => newHash !in w.issued
    case _ => true
  }

  function Next(w: World, op: Op): World {
    match op
    case CreateOp(h, user, session, f, jti, ttl) =>
      World(Create(w.store, h, user, session, f, jti, ttl),
            w.issued[h := Issue(f, w.store.now, jti)],
            w.consumed,
            w.births[f := Birth(user, session, w.store.now, w.store.now + ttl)])
    case RotateOp(spent, newHash, jti) =>
      var (s, result) := Rotate(w.store, spent, newHash, jti);
      if result.Rotated? then
        w.(store := s,
           issued := w.issued[newHash := Issue(result.record.familyId, w.store.now, Some(jti))],
           consumed := w.consumed + {spent})
      else w.(store := s)
    case RevokeOp(h) => w.(store := Revoke(w.store, h).0)
    case KillOp(f) => w.(store := Kill(w.store, f))
    case TickOp(dt) => w.(store := w.store.(now := w.store.now + dt))
  }

  ghost predicate Trace(ws: seq<World>, ops: seq<Op>) {
    && |ws| == |ops| + 1
    && ws[0] == Init(ws[0].store.now)
    && forall i :: 0 <= i < |ops| ==> Enabled(ws[i], ops[i]) && ws[i + 1] == Next(ws[i], ops[i])
  }

  // ----- The invariant -----

  predicate Matches(r: Record, b: Birth) {
    r.userId == b.userId && r.sessionId == b.sessionId && r.issuedAt == b.issuedAt && r.expiresAt == b.expiresAt
  }

  /** A visible session is the only member of its family set, and the three keys of its chain
      were written together. */
  ghost predicate LiveOk(w: World, h: Hash) {
    SessionAt(w.store, h).Some? ==>
      var r := SessionAt(w.store, h).value;
      && h in w.issued && h !in w.consumed
      && w.issued[h].family == r.familyId && r.lastJti == w.issued[h].jti && r.lastSeenAt == w.issued[h].at
      && r.familyId in w.births && Matches(r, w.births[r.familyId])
      && var d := Deadline(w.issued[h].at, r.expiresAt);
      && w.store.sessions[h].deadline == d
      && r.familyId in w.store.families && w.store.families[r.familyId] == Stamped({h}, d)
      && h in w.store.index && w.store.index[h] == Stamped(r.familyId, d)
  }

  ghost predicate MemberOk(w: World, f: Uuid, h: Hash) {
    h in Members(w.store, f) ==> h in w.issued && h !in w.consumed && w.issued[h].family == f
  }

  /** The index entry of a consumed hash is still the one written when the hash was issued. */
  ghost predicate ConsumedOk(w: World, h: Hash) {
    h in w.consumed ==>
      && h in w.issued && w.issued[h].family in w.births
      && h in w.store.index
      && w.store.index[h] == Stamped(w.issued[h].family, LastTraceable(w, h))
  }

  ghost predicate Inv(w: World) {
    && (forall h :: LiveOk(w, h))
    && (forall f, h :: MemberOk(w, f, h))
    && (forall h :: ConsumedOk(w, h))
    && (forall h :: h in w.issued ==> w.issued[h].family in w.births)
    && (forall h :: h in w.store.index ==> h in w.issued)
  }

  /** The moment the index forgets `h`: its own issue time plus whole seconds left at that time. */
  function LastTraceable(w: World, h: Hash): int
    requires h in w.issued && w.issued[h].family in w.births
  {
    Deadline(w.issued[h].at, w.births[w.issued[h].family].expiresAt)
  }

  // ----- Every step keeps it -----

  lemma CreateKeeps(w: World, op: Op)
    requires Inv(w) && op.CreateOp? && Enabled(w, op)
    ensures Inv(Next(w, op))
  {
    var w' := Next(w, op);
    assert Members(w.store, op.family) == {} by {
      forall h ensures h !in Members(w.store, op.family) { assert MemberOk(w, op.family, h); }
    }
    assert ConsumedOk(w, op.hash);
    assert {} + {op.hash} == {op.hash};
    forall h ensures LiveOk(w', h) { assert LiveOk(w, h); }
    forall f, h ensures MemberOk(w', f, h) { assert MemberOk(w, f, h); }
    forall h ensures ConsumedOk(w', h) { assert ConsumedOk(w, h); }
  }

  lemma CommitKeeps(w: World, op: Op)
    requires Inv(w) && op.RotateOp? && Enabled(w, op)
    requires ReadForRotation(w.store, op.spent).Found?
    ensures Inv(Next(w, op))
  {
    var w' := Next(w, op);
    assert LiveOk(w, op.spent) && ConsumedOk(w, op.newHash);
    assert {op.spent} - {op.spent} + {op.newHash} == {op.newHash};
    forall h ensures LiveOk(w', h) { assert LiveOk(w, h); }
    forall f, h ensures MemberOk(w', f, h) { assert MemberOk(w, f, h); }
    forall h ensures ConsumedOk(w', h) { assert ConsumedOk(w, h); }
  }

  lemma KillKeeps(w: World, f: Uuid)
    requires Inv(w)
    ensures Inv(w.(store := Kill(w.store, f)))
    ensures NoLive(Kill(w.store, f), f)
  {
    var w' := w.(store := Kill(w.store, f));
    forall h ensures LiveOk(w', h) { assert LiveOk(w, h); }
    forall g, h ensures MemberOk(w', g, h) { assert MemberOk(w, g, h); }
    forall h ensures ConsumedOk(w', h) { assert ConsumedOk(w, h); assert MemberOk(w, f, h); }
    forall h | SessionAt(w'.store, h).Some?
      ensures SessionAt(w'.store, h).value.familyId != f
    {
      assert LiveOk(w, h);
    }
  }

  lemma RevokeKeeps(w: World, h0: Hash)
    requires Inv(w)
    ensures Inv(w.(store := Revoke(w.store, h0).0))
  {
    var w' := w.(store := Revoke(w.store, h0).0);
    assert LiveOk(w, h0);
    forall h ensures LiveOk(w', h) { assert LiveOk(w, h); }
    forall f, h ensures MemberOk(w', f, h) { assert MemberOk(w, f, h); }
    forall h ensures ConsumedOk(w', h) { assert ConsumedOk(w, h); }
  }

  /** Dropping sessions, or letting time pass, hides keys and rewrites none. */
  lemma ShrinkKeeps(w: World, s: Store)
    requires Inv(w)
    requires w.store.now <= s.now && s.families == w.store.families && s.index == w.store.index
    requires forall h :: h in s.sessions ==> h in w.store.sessions && s.sessions[h] == w.store.sessions[h]
    ensures Inv(w.(store := s))
  {
    var w' := w.(store := s);
    forall h ensures LiveOk(w', h) { assert LiveOk(w, h); }
    forall f, h ensures MemberOk(w', f, h) { assert MemberOk(w, f, h); }
    forall h ensures ConsumedOk(w', h) { assert ConsumedOk(w, h); }
  }

  lemma StepKeeps(w: World, op: Op)
    requires Inv(w) && Enabled(w, op)
    ensures Inv(Next(w, op))
  {
    match op
    case CreateOp(_, _, _, _, _, _) => CreateKeeps(w, op);
    case RotateOp(spent, _, _) =>
      if ReadForRotation(w.store, spent).Found? {
        CommitKeeps(w, op);
      } else if SessionAt(w.store, spent).Some? {
        ShrinkKeeps(w, w.store.(sessions := w.store.sessions - {spent}));
      } else if FamilyOf(w.store, spent).Some? {
        KillKeeps(w, FamilyOf(w.store, spent).value);
      }
    case RevokeOp(h) => RevokeKeeps(w, h);
    case KillOp(f) => KillKeeps(w, f);
    case TickOp(dt) => ShrinkKeeps(w, w.store.(now := w.store.now + dt));
  }

  lemma {:induction false} TraceInv(ws: seq<World>, ops: seq<Op>, i: nat)
    requires Trace(ws, ops) && i < |ws|
    ensures Inv(ws[i])
  {
    if i == 0 {
    } else {
      TraceInv(ws, ops, i - 1);
      assert ws[i] == Next(ws[i - 1], ops[i - 1]);
      StepKeeps(ws[i - 1], ops[i - 1]);
    }
  }

  // ----- One chain per family -----

  lemma OneLiveSessionPerFamily(ws: seq<World>, ops: seq<Op>, i: nat, h1: Hash, h2: Hash)
    requires Trace(ws, ops) && i < |ws|
    requires Live(ws[i].store, h1) && Live(ws[i].store, h2)
    requires SessionAt(ws[i].store, h1).value.familyId == SessionAt(ws[i].store, h2).value.familyId
    ensures h1 == h2
  {
    TraceInv(ws, ops, i);
    assert LiveOk(ws[i], h1) && LiveOk(ws[i], h2);
  }

  lemma {:induction false} BirthsStay(ws: seq<World>, ops: seq<Op>, i: nat, j: nat, f: Uuid)
    requires Trace(ws, ops) && i <= j < |ws| && f in ws[i].births
    ensures f in ws[j].births && ws[j].births[f] == ws[i].births[f]
  {
    if i == j {
    } else {
      BirthsStay(ws, ops, i, j - 1, f);
      assert ws[j] == Next(ws[j - 1], ops[j - 1]);
    }
  }

  /** However many rotations lie between, two sessions of one family carry the same identity and
      the same lifetime. */
  lemma ChainKeepsIdentityAndLifetime(ws: seq<World>, ops: seq<Op>, i: nat, j: nat, h1: Hash, h2: Hash)
    requires Trace(ws, ops) && i <= j < |ws|
    requires Live(ws[i].store, h1) && Live(ws[j].store, h2)
    requires SessionAt(ws[i].store, h1).value.familyId == SessionAt(ws[j].store, h2).value.familyId
    ensures
      var a, b := SessionAt(ws[i].store, h1).value, SessionAt(ws[j].store, h2).value;
      a.userId == b.userId && a.sessionId == b.sessionId && a.issuedAt == b.issuedAt && a.expiresAt == b.expiresAt
  {
    TraceInv(ws, ops, i);
    TraceInv(ws, ops, j);
    assert LiveOk(ws[i], h1) && LiveOk(ws[j], h2);
    BirthsStay(ws, ops, i, j, SessionAt(ws[i].store, h1).value.familyId);
  }

  /** A rotation succeeds exactly on a visible session that has not passed the expiry its family
      was born with; it consumes that session and leaves its successor as the family's only one. */
  lemma RotationSucceedsExactly(ws: seq<World>, ops: seq<Op>, i: nat)
    requires Trace(ws, ops) && i < |ops| && ops[i].RotateOp?
    ensures
      var s, op := ws[i].store, ops[i];
      var (s', result) := Rotate(s, op.spent, op.newHash, op.jti);
      && s' == ws[i + 1].store
      && (result.Rotated? <==>
            SessionAt(s, op.spent).Some? && s.now <= SessionAt(s, op.spent).value.expiresAt)
      && (result.Rotated? ==>
            && var f := SessionAt(s, op.spent).value.familyId;
            && f in ws[i].births && s.now <= ws[i].births[f].expiresAt
            && op.spent in ws[i + 1].consumed && !Live(s', op.spent)
            && SessionAt(s', op.newHash) == Some(result.record)
            && result.record.familyId == f && Matches(result.record, ws[i].births[f]))
  {
    TraceInv(ws, ops, i);
    assert LiveOk(ws[i], ops[i].spent);
    assert ws[i + 1] == Next(ws[i], ops[i]);
  }

  // ----- What a record says -----

  lemma {:induction false} IssueStays(ws: seq<World>, ops: seq<Op>, i: nat, j: nat, h: Hash)
    requires Trace(ws, ops) && i <= j < |ws| && h in ws[i].issued
    ensures h in ws[j].issued && ws[j].issued[h] == ws[i].issued[h]
  {
    if i == j {
    } else {
      IssueStays(ws, ops, i, j - 1, h);
      assert ws[j] == Next(ws[j - 1], ops[j - 1]);
    }
  }

  /** The record of a hash, in every later state in which it is live, is the one its issue fixes. */
  lemma LiveRecordIsAsIssued(ws: seq<World>, ops: seq<Op>, i: nat, j: nat, h: Hash)
    requires Trace(ws, ops) && i <= j < |ws| && h in ws[i].issued && Live(ws[j].store, h)
    ensures
      var issue := ws[i].issued[h];
      && issue.family in ws[i].births
      && var b := ws[i].births[issue.family];
      SessionAt(ws[j].store, h) ==
        Some(Record(b.sessionId, b.userId, issue.family, issue.jti, b.issuedAt, b.expiresAt, issue.at))
  {
    TraceInv(ws, ops, i);
    TraceInv(ws, ops, j);
    IssueStays(ws, ops, i, j, h);
    BirthsStay(ws, ops, i, j, ws[i].issued[h].family);
    assert LiveOk(ws[j], h);
  }

  /** While a created session is live, its record has the user, session, access token and times its
      creation was given. */
  lemma CreatedRecordSays(ws: seq<World>, ops: seq<Op>, i: nat, j: nat)
    requires Trace(ws, ops) && i < j < |ws| && ops[i].CreateOp? && Live(ws[j].store, ops[i].hash)
    ensures
      var op, now := ops[i], ws[i].store.now;
      SessionAt(ws[j].store, op.hash) ==
        Some(Record(op.session, op.user, op.family, op.jti0, now, now + op.ttl, now))
  {
    assert ws[i + 1] == Next(ws[i], ops[i]);
    LiveRecordIsAsIssued(ws, ops, i + 1, j, ops[i].hash);
  }

  /** While a rotated session is live, its record is that of the token it replaced, with the access
      token and the time of the rotation. */
  lemma RotatedRecordSays(ws: seq<World>, ops: seq<Op>, i: nat, j: nat)
    requires Trace(ws, ops) && i < j < |ws| && ops[i].RotateOp? && Live(ws[j].store, ops[i].newHash)
    requires
      var r := SessionAt(ws[i].store, ops[i].spent);
      r.Some? && ws[i].store.now <= r.value.expiresAt
    ensures
      var op, now := ops[i], ws[i].store.now;
      var r := SessionAt(ws[i].store, op.spent).value;
      SessionAt(ws[j].store, op.newHash) ==
        Some(Record(r.sessionId, r.userId, r.familyId, Some(op.jti), r.issuedAt, r.expiresAt, now))
  {
    TraceInv(ws, ops, i);
    assert LiveOk(ws[i], ops[i].spent);
    assert ws[i + 1] == Next(ws[i], ops[i]);
    LiveRecordIsAsIssued(ws, ops, i + 1, j, ops[i].newHash);
  }

  // ----- A family with no live session stays that way -----

  lemma NoLiveStep(w: World, op: Op, f: Uuid)
    requires Inv(w) && Enabled(w, op) && f in w.births && NoLive(w.store, f)
    ensures NoLive(Next(w, op).store, f) && f in Next(w, op).births
  {
    var s, s' := w.store, Next(w, op).store;
    forall h | SessionAt(s', h).Some?
      ensures SessionAt(s', h).value.familyId != f
    {
      if SessionAt(s, h).Some? { assert LiveOk(w, h); }
      if op.RotateOp? && SessionAt(s, op.spent).Some? { assert SessionAt(s, op.spent).value.familyId != f; }
    }
  }

  lemma {:induction false} DeadFamilyStaysDead(ws: seq<World>, ops: seq<Op>, i: nat, j: nat, f: Uuid)
    requires Trace(ws, ops) && i <= j < |ws| && f in ws[i].births && NoLive(ws[i].store, f)
    ensures NoLive(ws[j].store, f)
  {
    if i == j {
    } else {
      DeadFamilyStaysDead(ws, ops, i, j - 1, f);
      BirthsStay(ws, ops, i, j - 1, f);
      TraceInv(ws, ops, j - 1);
      assert ws[j] == Next(ws[j - 1], ops[j - 1]);
      NoLiveStep(ws[j - 1], ops[j - 1], f);
    }
  }

  /** Killing a family ends it for good, whatever follows. */
  lemma KilledFamilyStaysEmpty(ws: seq<World>, ops: seq<Op>, i: nat, j: nat)
    requires Trace(ws, ops) && i < |ops| && ops[i].KillOp? && i < j < |ws|
    requires ops[i].family in ws[i].births
    ensures NoLive(ws[j].store, ops[i].family)
  {
    TraceInv(ws, ops, i);
    KillKeeps(ws[i], ops[i].family);
    assert ws[i + 1] == Next(ws[i], ops[i]);
    DeadFamilyStaysDead(ws, ops, i + 1, j, ops[i].family);
  }

  // ----- Replay of a consumed token -----

  /** Presenting a consumed hash is always refused. It kills its family exactly while the index
      still traces the hash, which covers every moment up to one second before the expiry. */
  lemma ReplayKillsExactlyWhileTraceable(ws: seq<World>, ops: seq<Op>, i: nat, h: Hash, newHash: Hash, jti: Uuid)
    requires Trace(ws, ops) && i < |ws| && h in ws[i].consumed
    ensures h in ws[i].issued && ws[i].issued[h].family in ws[i].births
    ensures
      var w := ws[i];
      var f := w.issued[h].family;
      var (s', result) := Rotate(w.store, h, newHash, jti);
      && result == Refused(Missing)
      && (NoLive(s', f) <==> w.store.now < LastTraceable(w, h) || NoLive(w.store, f))
      && (w.store.now <= w.births[f].expiresAt - SECOND ==> NoLive(s', f))
  {
    TraceInv(ws, ops, i);
    var w := ws[i];
    assert ConsumedOk(w, h) && LiveOk(w, h);
    KillKeeps(w, w.issued[h].family);
  }

  /** From a replay the index can still trace, the family never has a live session again. */
  lemma ReplayEndsTheFamily(ws: seq<World>, ops: seq<Op>, i: nat, j: nat)
    requires Trace(ws, ops) && i < |ops| && ops[i].RotateOp? && ops[i].spent in ws[i].consumed
    requires i < j < |ws|
    requires ops[i].spent in ws[i].issued && ws[i].issued[ops[i].spent].family in ws[i].births
    requires ws[i].store.now < LastTraceable(ws[i], ops[i].spent)
    ensures NoLive(ws[j].store, ws[i].issued[ops[i].spent].family)
  {
    var f := ws[i].issued[ops[i].spent].family;
    ReplayKillsExactlyWhileTraceable(ws, ops, i, ops[i].spent, ops[i].newHash, ops[i].jti);
    assert ws[i + 1] == Next(ws[i], ops[i]);
    BirthsStay(ws, ops, i, i + 1, f);
    DeadFamilyStaysDead(ws, ops, i + 1, j, f);
  }

  /** A hash that was never issued changes nothing a read can see. */
  lemma UnknownHashChangesNothing(ws: seq<World>, ops: seq<Op>, i: nat, h: Hash, newHash: Hash, jti: Uuid)
    requires Trace(ws, ops) && i < |ws| && h !in ws[i].issued
    ensures Rotate(ws[i].store, h, newHash, jti) == (ws[i].store, Refused(Missing))
  {
    TraceInv(ws, ops, i);
    assert LiveOk(ws[i], h);
  }

  lemma ReplayMisses(w: World)
    requires w.store.now == 500_000 && "a" !in w.store.sessions && "c" !in w.issued
    requires "a" in w.store.index && w.store.index["a"].deadline == 10_000_000
    requires "b" in w.store.sessions && w.store.sessions["b"].deadline == 10_500_000
    ensures
      var w1 := Next(w, TickOp(9_700_000));
      && w1.store.now == 10_200_000 && w1 == w.(store := w1.store)
      && Enabled(w1, RotateOp("a", "c", 4)) && Next(w1, RotateOp("a", "c", 4)) == w1
      && SessionAt(w1.store, "b") == Some(w.store.sessions["b"].value)
  {
  }

  /** In the last second the index can forget a consumed hash while its successor is still live:
      here the hash issued at 0 is forgotten at 10 s, its successor lives until 10.5 s, and the
      replay at 10.2 s is refused without killing anything. */
  lemma ReplayInTheLastSecondCanMissTheFamily() returns (ws: seq<World>, ops: seq<Op>)
    ensures Trace(ws, ops) && |ops| == 5 && ops[4] == RotateOp("a", "c", 4) && "a" in ws[4].consumed
    ensures "a" in ws[4].issued && ws[4].issued["a"].family == 7
    ensures 7 in ws[4].births && ws[4].store.now <= ws[4].births[7].expiresAt
    ensures Live(ws[5].store, "b") && SessionAt(ws[5].store, "b").value.familyId == 7
  {
    ops := [CreateOp("a", 1, 2, 7, None, 10_500_000), TickOp(500_000), RotateOp("a", "b", 3), TickOp(9_700_000),
            RotateOp("a", "c", 4)];
    var w0 := Init(0);
    var w1 := Next(w0, ops[0]);
    var w2 := Next(w1, ops[1]);
    var w3 := Next(w2, ops[2]);
    ReplayMisses(w3);
    var w4 := Next(w3, ops[3]);
    ws := [w0, w1, w2, w3, w4, w4];
  }
}
