/** Why the collector never removes what somebody could still recover.

    The environment creates, soft-deletes, restores and purges tenancy rows while time passes. A
    purge takes a row only when it, its project or its org has been soft-deleted for longer than
    the retention window. Agents and chatrooms obey the same rules and are both leaves here; a
    chatroom's project is the one its workspace belongs to. */
module AgentFsGcSafety {
  import opened Base
  import opened AgentFsGc
  import opened AgentFsGcSweep

  /** Sixty days in microseconds. */
  const WINDOW: int := 60 * 86_400 * 1_000_000

  datatype Leaf = AgentLeaf(id: Id) | RoomLeaf(id: Id)

  datatype LeafRow = LeafRow(project: Id, deletedAt: Option<int>)

  datatype ProjectRow = ProjectRow(org: Option<Id>, deletedAt: Option<int>)

  /** The last two fields remember every id ever used, since ids are never used twice. */
  datatype Db = Db(
    now: int,
    orgs: map<Id, Option<int>>,
    projects: map<Id, ProjectRow>,
    leaves: map<Leaf, LeafRow>,
    usedProjects: set<Id>,
    usedLeaves: set<Leaf>)

  datatype EnvOp =
    | CreateOrg(org: Id)
    | CreateProject(project: Id, owner: Option<Id>)
    | CreateLeaf(leaf: Leaf, inProject: Id)
    | DeleteOrg(org: Id)
    | DeleteProject(project: Id)
    | DeleteLeaf(leaf: Leaf)
    | RestoreOrg(org: Id)
    | RestoreProject(project: Id)
    | RestoreLeaf(leaf: Leaf)
    | PurgeRows(orgs: set<Id>, projects: set<Id>, leaves: set<Leaf>)
    | Wait(dt: nat)

  predicate PastWindow(deletedAt: Option<int>, now: int) {
    deletedAt.Some? && deletedAt.value < now - WINDOW
  }

  predicate EnvEnabled(db: Db, op: EnvOp) {
    match op
    case CreateOrg(o) => o !in db.orgs
    case CreateProject(p, owner) => p !in db.usedProjects && (owner.Some? ==> owner.value in db.orgs)
    case CreateLeaf(l, p) => l !in db.usedLeaves && p in db.projects
    case DeleteOrg(o) => o in db.orgs && db.orgs[o].None?
    case DeleteProject(p) => p in db.projects && db.projects[p].deletedAt.None?
    case DeleteLeaf(l) => l in db.leaves && db.leaves[l].deletedAt.None?
    case RestoreOrg(o) => o in db.orgs
    case RestoreProject(p) => p in db.projects
    case RestoreLeaf(l) => l in db.leaves
    case PurgeRows(os, ps, ls) =>
      && (forall o :: o in os ==> o in db.orgs && PastWindow(db.orgs[o], db.now))
      && (forall p :: p in ps ==> p in db.projects && PastWindow(db.projects[p].deletedAt, db.now))
      && (forall l :: l in ls ==> l in db.leaves && PastWindow(db.leaves[l].deletedAt, db.now))
    case Wait(_) => true
  }

  predicate DoomedProject(db: Db, os: set<Id>, ps: set<Id>, p: Id) {
    p in db.projects && (p in ps || (db.projects[p].org.Some? && db.projects[p].org.value in os))
  }

  /** A purge cascades from orgs to their projects and from projects to their leaves. */
  function EnvNext(db: Db, op: EnvOp): Db
    requires EnvEnabled(db, op)
  {
    match op
    case CreateOrg(o) => db.(orgs := db.orgs[o := None])
    case CreateProject(p, owner) =>
      db.(projects := db.projects[p := ProjectRow(owner, None)], usedProjects := db.usedProjects + {p})
    case CreateLeaf(l, p) =>
      db.(leaves := db.leaves[l := LeafRow(p, None)], usedLeaves := db.usedLeaves + {l})
    case DeleteOrg(o) => db.(orgs := db.orgs[o := Some(db.now)])
    case DeleteProject(p) => db.(projects := db.projects[p := db.projects[p].(deletedAt := Some(db.now))])
    case DeleteLeaf(l) => db.(leaves := db.leaves[l := db.leaves[l].(deletedAt := Some(db.now))])
    case RestoreOrg(o) => db.(orgs := db.orgs[o := None])
    case RestoreProject(p) => db.(projects := db.projects[p := db.projects[p].(deletedAt := None)])
    case RestoreLeaf(l) => db.(leaves := db.leaves[l := db.leaves[l].(deletedAt := None)])
    case PurgeRows(os, ps, ls) =>
      db.(orgs := db.orgs - os,
          projects := map p | p in db.projects && !DoomedProject(db, os, ps, p) :: db.projects[p],
          leaves := map l | l in db.leaves && l !in ls && !DoomedProject(db, os, ps, db.leaves[l].project)
                      :: db.leaves[l])
    case Wait(dt) => db.(now := db.now + dt)
  }

  ghost predicate EnvRun(ws: seq<Db>, ops: seq<EnvOp>) {
    && |ws| == |ops| + 1
    && ws[0] == Db(ws[0].now, map[], map[], map[], {}, {})
    && forall i :: 0 <= i < |ops| ==> EnvEnabled(ws[i], ops[i]) && ws[i + 1] == EnvNext(ws[i], ops[i])
  }

  /** A leaf is live when it and its owners exist undeleted. */
  predicate LiveLeaf(db: Db, l: Leaf) {
    && l in db.leaves && db.leaves[l].deletedAt.None?
    && var p := db.leaves[l].project;
    && p in db.projects && db.projects[p].deletedAt.None?
    && (db.projects[p].org.Some? ==>
          db.projects[p].org.value in db.orgs && db.orgs[db.projects[p].org.value].None?)
  }

  /** State `i` lasts from its own clock to that of state `i + 1`; the last state lasts an instant. */
  ghost predicate LiveAt(ws: seq<Db>, k: nat, l: Leaf, t: int)
    requires k < |ws|
  {
    exists i :: 0 <= i <= k && LiveLeaf(ws[i], l) && ws[i].now <= t <= (if i < k then ws[i + 1].now else ws[k].now)
  }

  // ----- The invariant over histories -----

  ghost predicate StateOk(db: Db) {
    && (forall l :: l in db.leaves ==> l in db.usedLeaves && db.leaves[l].project in db.projects)
    && (forall p :: p in db.projects ==>
          p in db.usedProjects && (db.projects[p].org.Some? ==> db.projects[p].org.value in db.orgs))
  }

  /** What was undeleted in state `i` and carries a stamp in state `k` stopped being undeleted no
      later than the stamp. */
  ghost predicate OrgHistory(ws: seq<Db>, i: nat, k: nat, o: Id)
    requires i <= k < |ws|
  {
    o in ws[k].orgs && ws[k].orgs[o].Some? && o in ws[i].orgs && ws[i].orgs[o].None? ==>
      i < k && ws[i + 1].now <= ws[k].orgs[o].value
  }

  ghost predicate ProjectHistory(ws: seq<Db>, i: nat, k: nat, p: Id)
    requires i <= k < |ws|
  {
    p in ws[i].projects ==>
      && p in ws[k].usedProjects
      && (p in ws[k].projects ==>
            && ws[i].projects[p].org == ws[k].projects[p].org
            && (ws[k].projects[p].deletedAt.Some? && ws[i].projects[p].deletedAt.None? ==>
                  i < k && ws[i + 1].now <= ws[k].projects[p].deletedAt.value))
  }

  ghost predicate LeafHistory(ws: seq<Db>, i: nat, k: nat, l: Leaf)
    requires i <= k < |ws|
  {
    l in ws[i].leaves ==>
      && l in ws[k].usedLeaves
      && (l in ws[k].leaves ==>
            && ws[i].leaves[l].project == ws[k].leaves[l].project
            && (ws[k].leaves[l].deletedAt.Some? && ws[i].leaves[l].deletedAt.None? ==>
                  i < k && ws[i + 1].now <= ws[k].leaves[l].deletedAt.value))
  }

  /** A leaf that is gone was last live more than the window ago. */
  ghost predicate GoneHistory(ws: seq<Db>, i: nat, k: nat, l: Leaf)
    requires i <= k < |ws|
  {
    l !in ws[k].leaves && LiveLeaf(ws[i], l) ==> i < k && ws[i + 1].now < ws[k].now - WINDOW
  }

  ghost predicate History(ws: seq<Db>, k: nat)
    requires k < |ws|
  {
    && StateOk(ws[k])
    && (forall i, o :: 0 <= i <= k ==> OrgHistory(ws, i, k, o))
    && (forall i, p :: 0 <= i <= k ==> ProjectHistory(ws, i, k, p))
    && (forall i, l :: 0 <= i <= k ==> LeafHistory(ws, i, k, l))
    && (forall i, l :: 0 <= i <= k ==> GoneHistory(ws, i, k, l))
  }

  // ----- What one step can do -----

  lemma OrgFrame(db: Db, op: EnvOp, o: Id)
    requires EnvEnabled(db, op)
    ensures
      var db' := EnvNext(db, op);
      o in db'.orgs && db'.orgs[o].Some? ==>
        (o in db.orgs && db.orgs[o] == db'.orgs[o]) || db'.orgs[o].value == db'.now
  {
  }

  lemma ProjectFrame(db: Db, op: EnvOp, p: Id)
    requires EnvEnabled(db, op) && StateOk(db)
    ensures
      var db' := EnvNext(db, op);
      && db.usedProjects <= db'.usedProjects
      && (p in db'.projects && p in db.usedProjects ==>
            && p in db.projects && db'.projects[p].org == db.projects[p].org
            && (db'.projects[p].deletedAt.Some? ==>
                  db'.projects[p].deletedAt == db.projects[p].deletedAt
                  || db'.projects[p].deletedAt.value == db'.now))
      && (p in db'.projects && p !in db.usedProjects ==> db'.projects[p].deletedAt.None?)
  {
  }

  lemma LeafFrame(db: Db, op: EnvOp, l: Leaf)
    requires EnvEnabled(db, op) && StateOk(db)
    ensures
      var db' := EnvNext(db, op);
      && db.usedLeaves <= db'.usedLeaves
      && (l in db'.leaves && l in db.usedLeaves ==>
            && l in db.leaves && db'.leaves[l].project == db.leaves[l].project
            && (db'.leaves[l].deletedAt.Some? ==>
                  db'.leaves[l].deletedAt == db.leaves[l].deletedAt
                  || db'.leaves[l].deletedAt.value == db'.now))
      && (l in db'.leaves && l !in db.usedLeaves ==> db'.leaves[l].deletedAt.None?)
  {
  }

  /** A leaf disappears only after its own stamp, its project's or its org's has left the window. */
  lemma GoneFrame(db: Db, op: EnvOp, l: Leaf)
    requires EnvEnabled(db, op) && StateOk(db) && l in db.leaves && l !in EnvNext(db, op).leaves
    ensures
      var p := db.leaves[l].project;
      || PastWindow(db.leaves[l].deletedAt, EnvNext(db, op).now)
      || PastWindow(db.projects[p].deletedAt, EnvNext(db, op).now)
      || (db.projects[p].org.Some? && PastWindow(db.orgs[db.projects[p].org.value], EnvNext(db, op).now))
  {
  }

  lemma StateOkStep(db: Db, op: EnvOp)
    requires EnvEnabled(db, op) && StateOk(db)
    ensures StateOk(EnvNext(db, op)) && db.now <= EnvNext(db, op).now
  {
  }

  lemma {:induction false} ClockMonotone(ws: seq<Db>, ops: seq<EnvOp>, i: nat, j: nat)
    requires EnvRun(ws, ops) && i <= j < |ws|
    ensures ws[i].now <= ws[j].now
  {
    if i == j {
    } else {
      ClockMonotone(ws, ops, i, j - 1);
      assert ws[j] == EnvNext(ws[j - 1], ops[j - 1]);
    }
  }

  lemma GoneStep(ws: seq<Db>, ops: seq<EnvOp>, i: nat, k: nat, l: Leaf)
    requires EnvRun(ws, ops) && i <= k + 1 < |ws| && History(ws, k)
    ensures GoneHistory(ws, i, k + 1, l)
  {
    assert ws[k + 1] == EnvNext(ws[k], ops[k]);
    if l !in ws[k + 1].leaves && i <= k && LiveLeaf(ws[i], l) {
      ClockMonotone(ws, ops, k, k + 1);
      assert LeafHistory(ws, i, k, l) && GoneHistory(ws, i, k, l);
      if l in ws[k].leaves {
        GoneFrame(ws[k], ops[k], l);
        var p := ws[k].leaves[l].project;
        assert ProjectHistory(ws, i, k, p);
        if ws[k].projects[p].org.Some? {
          assert OrgHistory(ws, i, k, ws[k].projects[p].org.value);
        }
      }
    }
  }

  lemma HistoryStep(ws: seq<Db>, ops: seq<EnvOp>, k: nat)
    requires EnvRun(ws, ops) && k + 1 < |ws| && History(ws, k)
    ensures History(ws, k + 1)
  {
    var n := k + 1;
    assert ws[n] == EnvNext(ws[k], ops[k]);
    StateOkStep(ws[k], ops[k]);
    forall i, o | 0 <= i <= n ensures OrgHistory(ws, i, n, o) {
      if i <= k {
        assert OrgHistory(ws, i, k, o);
        OrgFrame(ws[k], ops[k], o);
        ClockMonotone(ws, ops, i + 1, n);
      }
    }
    forall i, p | 0 <= i <= n ensures ProjectHistory(ws, i, n, p) {
      if i <= k {
        assert ProjectHistory(ws, i, k, p);
        ProjectFrame(ws[k], ops[k], p);
        ClockMonotone(ws, ops, i + 1, n);
      }
    }
    forall i, l | 0 <= i <= n ensures LeafHistory(ws, i, n, l) {
      if i <= k {
        assert LeafHistory(ws, i, k, l);
        LeafFrame(ws[k], ops[k], l);
        ClockMonotone(ws, ops, i + 1, n);
      }
    }
    forall i, l | 0 <= i <= n ensures GoneHistory(ws, i, n, l) {
      GoneStep(ws, ops, i, k, l);
    }
  }

  lemma {:induction false} RunHasHistory(ws: seq<Db>, ops: seq<EnvOp>, k: nat)
    requires EnvRun(ws, ops) && k < |ws|
    ensures History(ws, k)
  {
    if k == 0 {
    } else {
      RunHasHistory(ws, ops, k - 1);
      HistoryStep(ws, ops, k - 1);
    }
  }

  lemma RunStateOk(ws: seq<Db>, ops: seq<EnvOp>, k: nat)
    requires EnvRun(ws, ops) && k < |ws|
    ensures StateOk(ws[k])
  {
    RunHasHistory(ws, ops, k);
  }

  // ----- Safety -----

  /** The two liveness tables the collector reads. */
  function AgentRows(db: Db): Rows {
    map l | l in db.leaves && l.AgentLeaf? :: l.id := db.leaves[l].deletedAt
  }

  function RoomRows(db: Db): Rows {
    map l | l in db.leaves && l.RoomLeaf? :: l.id := db.leaves[l].deletedAt
  }

  lemma RowsAgree(db: Db, l: Leaf)
    ensures l.AgentLeaf? ==>
              (l.id in AgentRows(db) <==> l in db.leaves)
              && (l in db.leaves ==> AgentRows(db)[l.id] == db.leaves[l].deletedAt)
    ensures l.RoomLeaf? ==>
              (l.id in RoomRows(db) <==> l in db.leaves)
              && (l in db.leaves ==> RoomRows(db)[l.id] == db.leaves[l].deletedAt)
  {
  }

  /** An id the row test lets through was not live at any moment of the last window. */
  lemma ReclaimableWasNotLive(ws: seq<Db>, ops: seq<EnvOp>, k: nat, l: Leaf, cutoff: int, t: int)
    requires EnvRun(ws, ops) && k < |ws| && cutoff <= ws[k].now - WINDOW <= t <= ws[k].now
    requires l.AgentLeaf? ==> Reclaimable(l.id, AgentRows(ws[k]), cutoff)
    requires l.RoomLeaf? ==> Reclaimable(l.id, RoomRows(ws[k]), cutoff)
    ensures !LiveAt(ws, k, l, t)
  {
    RowsAgree(ws[k], l);
    RunHasHistory(ws, ops, k);
    ExpiredOrGoneWasNotLive(ws, k, l, t);
  }

  lemma ExpiredOrGoneWasNotLive(ws: seq<Db>, k: nat, l: Leaf, t: int)
    requires k < |ws| && History(ws, k) && ws[k].now - WINDOW <= t
    requires l in ws[k].leaves ==> PastWindow(ws[k].leaves[l].deletedAt, ws[k].now)
    ensures !LiveAt(ws, k, l, t)
  {
    forall i | 0 <= i <= k && LiveLeaf(ws[i], l)
      ensures !(ws[i].now <= t <= (if i < k then ws[i + 1].now else ws[k].now))
    {
      assert LeafHistory(ws, i, k, l) && GoneHistory(ws, i, k, l);
    }
  }

  /** The leaf was live at no moment of the window that ends in state `k`. */
  ghost predicate Idle(ws: seq<Db>, k: nat, l: Leaf)
    requires k < |ws|
  {
    forall t :: ws[k].now - WINDOW <= t <= ws[k].now ==> !LiveAt(ws, k, l, t)
  }

  /** The table a leaf's row is read from. */
  function RowsOf(db: Db, room: bool): Rows {
    if room then RoomRows(db) else AgentRows(db)
  }

  function LeafOf(id: Id, room: bool): Leaf {
    if room then RoomLeaf(id) else AgentLeaf(id)
  }

  /** Batch `b` reads the database in state `at(b)`, and every batch comes after the moment the
      cutoff was counted from. */
  ghost predicate ReadDuring(ws: seq<Db>, room: bool, ids: set<Id>, r: Reads, at: nat -> nat, cutoff: int) {
    forall id :: id in ids ==>
      var b := BatchOf(ids, id);
      at(b) < |ws| && cutoff <= ws[at(b)].now - WINDOW && r.batch(b) == Content(RowsOf(ws[at(b)], room))
  }

  /** An id that passes the row test was idle in the window before its batch was read. */
  lemma ReclaimableWasIdle(
      ws: seq<Db>, ops: seq<EnvOp>, room: bool, ids: set<Id>, r: Reads, at: nat -> nat, cutoff: int, id: Id)
    requires EnvRun(ws, ops) && ReadDuring(ws, room, ids, r, at, cutoff) && id in ids
    requires Seen(ids, r).found.Some? && Reclaimable(id, Seen(ids, r).found.value, cutoff)
    ensures Idle(ws, at(BatchOf(ids, id)), LeafOf(id, room))
  {
    var k, l := at(BatchOf(ids, id)), LeafOf(id, room);
    JoinExactly(ids, r, id);
    assert Reclaimable(id, RowsOf(ws[k], room), cutoff);
    forall t | ws[k].now - WINDOW <= t <= ws[k].now ensures !LiveAt(ws, k, l, t) {
      ReclaimableWasNotLive(ws, ops, k, l, cutoff, t);
    }
  }

  /** No pass, whatever it finds and whatever fails, removes a volume whose agent was live at some
      moment of the sixty days before its row was read. */
  lemma SweepSparesRecentlyLiveAgents(
      ws: seq<Db>, ops: seq<EnvOp>, h: Host, agents: Reads, rooms: Reads, at: nat -> nat,
      cutoff: int, armed: bool, i: nat)
    requires EnvRun(ws, ops) && ReadDuring(ws, false, AgentIds(h), agents, at, cutoff)
    ensures
      var s := PassSpec(h, agents, rooms, cutoff, armed);
      s.Swept? && i in PurgedAt(s.volumes) ==>
        && i < |OrEmpty(h.volumes)|
        && var v := OrEmpty(h.volumes)[i];
        && v.agent in AgentIds(h)
        && Idle(ws, at(BatchOf(AgentIds(h), v.agent)), AgentLeaf(v.agent))
  {
    var s := PassSpec(h, agents, rooms, cutoff, armed);
    RemovedVolumeExactly(h, Seen(AgentIds(h), agents), Seen(RoomIds(h), rooms), cutoff, armed, i);
    if s.Swept? && i in PurgedAt(s.volumes) {
      var v := OrEmpty(h.volumes)[i];
      assert v in OrEmpty(h.volumes);
      ReclaimableWasIdle(ws, ops, false, AgentIds(h), agents, at, cutoff, v.agent);
    }
  }

  /** Nor does it delete any object of a workspace prefix of such an agent. */
  lemma SweepSparesRecentlyLivePrefixes(
      ws: seq<Db>, ops: seq<EnvOp>, h: Host, agents: Reads, rooms: Reads, at: nat -> nat,
      cutoff: int, armed: bool, i: nat)
    requires EnvRun(ws, ops) && ReadDuring(ws, false, AgentIds(h), agents, at, cutoff) && i < |OrEmpty(h.prefixes)|
    ensures
      var s, p := PassSpec(h, agents, rooms, cutoff, armed), OrEmpty(h.prefixes)[i];
      s.Swept? ==>
        && i < |s.prefixes| && p.agent in AgentIds(h)
        && (s.prefixes[i].removed != [] || s.prefixes[i].fate == Purged ==>
              Idle(ws, at(BatchOf(AgentIds(h), p.agent)), AgentLeaf(p.agent)))
  {
    var s, p := PassSpec(h, agents, rooms, cutoff, armed), OrEmpty(h.prefixes)[i];
    assert p in OrEmpty(h.prefixes);
    RemovedPrefixExactly(h, Seen(AgentIds(h), agents), Seen(RoomIds(h), rooms), cutoff, armed, i);
    if s.Swept? && (s.prefixes[i].removed != [] || s.prefixes[i].fate == Purged) {
      ReclaimableWasIdle(ws, ops, false, AgentIds(h), agents, at, cutoff, p.agent);
    }
  }

  /** The two tables are read one after the other, batch by batch. No removed session volume had its
      agent live at some moment of the window of the one read and its room of the other. */
  lemma SweepSparesRecentlyLiveSessions(
      ws: seq<Db>, ops: seq<EnvOp>, h: Host, agents: Reads, rooms: Reads, at: nat -> nat, roomsAt: nat -> nat,
      cutoff: int, armed: bool, i: nat)
    requires EnvRun(ws, ops) && ReadDuring(ws, false, AgentIds(h), agents, at, cutoff)
    requires ReadDuring(ws, true, RoomIds(h), rooms, roomsAt, cutoff)
    ensures
      var s := PassSpec(h, agents, rooms, cutoff, armed);
      s.Swept? && i in PurgedAt(s.sessions) ==>
        && i < |OrEmpty(h.sessions)|
        && var v := OrEmpty(h.sessions)[i];
        && v.agent in AgentIds(h) && v.room in RoomIds(h)
        && (|| Idle(ws, at(BatchOf(AgentIds(h), v.agent)), AgentLeaf(v.agent))
            || Idle(ws, roomsAt(BatchOf(RoomIds(h), v.room)), RoomLeaf(v.room)))
  {
    var s := PassSpec(h, agents, rooms, cutoff, armed);
    var seen, seenRooms := Seen(AgentIds(h), agents), Seen(RoomIds(h), rooms);
    RemovedSessionExactly(h, seen, seenRooms, cutoff, armed, i);
    if s.Swept? && i in PurgedAt(s.sessions) {
      var v := OrEmpty(h.sessions)[i];
      assert v in OrEmpty(h.sessions);
      if Reclaimable(v.agent, seen.found.value, cutoff) {
        ReclaimableWasIdle(ws, ops, false, AgentIds(h), agents, at, cutoff, v.agent);
      } else {
        ReclaimableWasIdle(ws, ops, true, RoomIds(h), rooms, roomsAt, cutoff, v.room);
      }
    }
  }

  // ----- The age floor -----

  lemma GoneOneStep(ws: seq<Db>, ops: seq<EnvOp>, k: nat, l: Leaf)
    requires EnvRun(ws, ops) && k < |ops| && l in ws[k].usedLeaves && l !in ws[k].leaves
    ensures l in ws[k + 1].usedLeaves && l !in ws[k + 1].leaves
  {
    RunStateOk(ws, ops, k);
    LeafFrame(ws[k], ops[k], l);
    assert ws[k + 1] == EnvNext(ws[k], ops[k]);
  }

  lemma {:induction false} GoneStaysGone(ws: seq<Db>, ops: seq<EnvOp>, g: nat, k: nat, l: Leaf)
    requires EnvRun(ws, ops) && g <= k < |ws| && l in ws[g].usedLeaves && l !in ws[g].leaves
    ensures l in ws[k].usedLeaves && l !in ws[k].leaves
  {
    if g == k {
    } else {
      GoneStaysGone(ws, ops, g, k - 1, l);
      GoneOneStep(ws, ops, k - 1, l);
    }
  }

  /** A leaf that is gone was used, and was last live before the window. */
  lemma GoneWasLiveBefore(ws: seq<Db>, ops: seq<EnvOp>, g: nat, l: Leaf, t: int)
    requires EnvRun(ws, ops) && g < |ws| && l !in ws[g].leaves && LiveAt(ws, g, l, t)
    ensures l in ws[g].usedLeaves && t < ws[g].now - WINDOW
  {
    RunHasHistory(ws, ops, g);
    var n :| 0 <= n <= g && LiveLeaf(ws[n], l) && ws[n].now <= t <= (if n < g then ws[n + 1].now else ws[g].now);
    assert LeafHistory(ws, n, g, l) && GoneHistory(ws, n, g, l);
  }

  /** The age floor blocks no legitimate purge: a volume made while its agent was live, whose row had
      gone by the moment the cutoff was counted from, is removed by every armed pass that goes
      ahead, unless the daemon refuses. */
  lemma AgeFloorBlocksNoLegitimatePurge(
      ws: seq<Db>, ops: seq<EnvOp>, g: nat, h: Host, agents: Reads, rooms: Reads, at: nat -> nat, cutoff: int, i: nat)
    requires EnvRun(ws, ops) && ReadDuring(ws, false, AgentIds(h), agents, at, cutoff)
    requires g < |ws| && ws[g].now - WINDOW <= cutoff && i < |OrEmpty(h.volumes)|
    requires
      var v := OrEmpty(h.volumes)[i];
      && v.agent in AgentIds(h) && g <= at(BatchOf(AgentIds(h), v.agent))
      && v.removable && v.age.CreatedAt? && AgentLeaf(v.agent) !in ws[g].leaves
      && LiveAt(ws, g, AgentLeaf(v.agent), v.age.time)
    ensures
      var s := PassSpec(h, agents, rooms, cutoff, true);
      s.Swept? ==> i in PurgedAt(s.volumes)
  {
    var v := OrEmpty(h.volumes)[i];
    var k, l := at(BatchOf(AgentIds(h), v.agent)), AgentLeaf(v.agent);
    GoneWasLiveBefore(ws, ops, g, l, v.age.time);
    GoneStaysGone(ws, ops, g, k, l);
    RowsAgree(ws[k], l);
    JoinExactly(AgentIds(h), agents, v.agent);
    RemovedVolumeExactly(h, Seen(AgentIds(h), agents), Seen(RoomIds(h), rooms), cutoff, true, i);
  }

  // ----- Between the read and the removal -----

  predicate Undeleted(db: Db, l: Leaf) {
    l in db.leaves && db.leaves[l].deletedAt.None?
  }

  predicate Revives(op: EnvOp, l: Leaf) {
    op == RestoreLeaf(l) || (op.CreateLeaf? && op.leaf == l)
  }

  /** The step soft-deletes the row or purges it, itself or with its project. */
  predicate Ends(db: Db, op: EnvOp, l: Leaf) {
    || op == DeleteLeaf(l)
    || (op.PurgeRows? && l in db.leaves
        && (l in op.leaves || DoomedProject(db, op.orgs, op.projects, db.leaves[l].project)))
  }

  /** One step leaves a row undeleted exactly when it revives it, or finds it so and does not end it. */
  lemma UndeletedStep(db: Db, op: EnvOp, l: Leaf)
    requires EnvEnabled(db, op) && StateOk(db)
    ensures Undeleted(EnvNext(db, op), l) <==> Revives(op, l) || (Undeleted(db, l) && !Ends(db, op, l))
  {
  }

  /** Step `i` revives the row and no later step before `j` ends it. */
  predicate RevivedAt(ws: seq<Db>, ops: seq<EnvOp>, i: nat, j: nat, l: Leaf)
    requires |ws| == |ops| + 1 && i < j < |ws|
  {
    Revives(ops[i], l) && forall m :: i < m < j ==> !Ends(ws[m], ops[m], l)
  }

  lemma RevivedStep(ws: seq<Db>, ops: seq<EnvOp>, i: nat, n: nat, l: Leaf)
    requires |ws| == |ops| + 1 && i <= n < |ops|
    ensures RevivedAt(ws, ops, i, n + 1, l) <==>
            if i == n then Revives(ops[n], l) else RevivedAt(ws, ops, i, n, l) && !Ends(ws[n], ops[n], l)
  {
  }

  /** A row the row test lets through is undeleted again at a later state if and only if a restore,
      or a first creation, in between was not followed by another delete or purge of it. */
  lemma {:induction false} UndeletedAfterReadExactly(ws: seq<Db>, ops: seq<EnvOp>, k: nat, j: nat, l: Leaf)
    requires EnvRun(ws, ops) && k <= j < |ws| && !Undeleted(ws[k], l)
    ensures Undeleted(ws[j], l) <==> exists i :: k <= i < j && RevivedAt(ws, ops, i, j, l)
  {
    if k == j {
    } else {
      var n := j - 1;
      UndeletedAfterReadExactly(ws, ops, k, n, l);
      RunStateOk(ws, ops, n);
      UndeletedStep(ws[n], ops[n], l);
      assert Undeleted(ws[j], l) <==> Revives(ops[n], l) || (Undeleted(ws[n], l) && !Ends(ws[n], ops[n], l));
      forall i | k <= i <= n
        ensures RevivedAt(ws, ops, i, j, l) <==>
                if i == n then Revives(ops[n], l) else RevivedAt(ws, ops, i, n, l) && !Ends(ws[n], ops[n], l)
      {
        RevivedStep(ws, ops, i, n, l);
      }
      assert RevivedAt(ws, ops, n, j, l) <==> Revives(ops[n], l);
    }
  }

  /** A live agent has an undeleted row, and a row that was in use can only have been restored. */
  lemma UsedRowsReturnOnlyByRestore(ws: seq<Db>, ops: seq<EnvOp>, k: nat, j: nat, l: Leaf)
    requires EnvRun(ws, ops) && k <= j < |ws| && !Undeleted(ws[k], l) && l in ws[k].usedLeaves
    ensures LiveLeaf(ws[j], l) ==>
              && l in ws[k].leaves
              && exists i :: k <= i < j && ops[i] == RestoreLeaf(l)
  {
    if LiveLeaf(ws[j], l) {
      UndeletedAfterReadExactly(ws, ops, k, j, l);
      var i :| k <= i < j && RevivedAt(ws, ops, i, j, l);
      UsedStaysUsed(ws, ops, k, i, l);
      if l !in ws[k].leaves {
        GoneStaysGone(ws, ops, k, j, l);
      }
    }
  }

  lemma {:induction false} UsedStaysUsed(ws: seq<Db>, ops: seq<EnvOp>, k: nat, j: nat, l: Leaf)
    requires EnvRun(ws, ops) && k <= j < |ws| && l in ws[k].usedLeaves
    ensures l in ws[j].usedLeaves
  {
    if k == j {
    } else {
      UsedStaysUsed(ws, ops, k, j - 1, l);
      assert ws[j] == EnvNext(ws[j - 1], ops[j - 1]);
    }
  }

  lemma RestoreRun() returns (ws: seq<Db>, ops: seq<EnvOp>)
    ensures EnvRun(ws, ops) && |ws| == 6
    ensures ws[4].now > WINDOW && AgentLeaf(1) in ws[4].leaves && ws[4].leaves[AgentLeaf(1)].deletedAt == Some(0)
    ensures LiveLeaf(ws[5], AgentLeaf(1))
  {
    ops := [CreateProject(9, None), CreateLeaf(AgentLeaf(1), 9), DeleteLeaf(AgentLeaf(1)),
            Wait(61 * 86_400 * 1_000_000), RestoreLeaf(AgentLeaf(1))];
    var w0 := Db(0, map[], map[], map[], {}, {});
    var w1 := EnvNext(w0, ops[0]);
    var w2 := EnvNext(w1, ops[1]);
    var w3 := EnvNext(w2, ops[2]);
    var w4 := EnvNext(w3, ops[3]);
    var w5 := EnvNext(w4, ops[4]);
    ws := [w0, w1, w2, w3, w4, w5];
  }

  /** Every query of a pass sees the same rows. */
  function Still(rows: Rows): Reads {
    Reads(_ => Content(rows), Content(rows))
  }

  lemma StillFinds(ids: set<Id>, rows: Rows)
    ensures
      var seen := Seen(ids, Still(rows));
      && seen.found.Some? && seen.probe == Content(rows)
      && forall id :: id in ids && id in rows ==> id in seen.found.value && seen.found.value[id] == rows[id]
  {
    forall id | id in ids && id in rows
      ensures var found := Seen(ids, Still(rows)).found; found.Some? && id in found.value && found.value[id] == rows[id]
    {
      JoinExactly(ids, Still(rows), id);
    }
  }

  lemma DeletedLongAgoIsRemoved(h: Host, agents: Liveness, rooms: Liveness, now: int)
    requires h.volumes == Some([Volume(1, CreatedAt(0), true)]) && now > WINDOW
    requires agents.found.Some? && rooms.found.Some? && agents.probe.Content? && rooms.probe.Content?
    requires 1 in agents.found.value && agents.found.value[1] == Some(0)
    ensures
      var s := SweepSpec(h, agents, rooms, now - WINDOW, true);
      s.Swept? && 0 in PurgedAt(s.volumes)
  {
    SweptUnlessRefused(h, agents, rooms, now - WINDOW, true);
    RemovedVolumeExactly(h, agents, rooms, now - WINDOW, true, 0);
  }

  /** An armed pass that reads the database as it is now removes volume `i`. */
  ghost predicate PassRemoves(h: Host, db: Db, i: nat) {
    var s := PassSpec(h, Still(AgentRows(db)), Still(RoomRows(db)), db.now - WINDOW, true);
    s.Swept? && i in PurgedAt(s.volumes)
  }

  lemma StillSeesAgentOne(h: Host, rows: Rows)
    requires h.volumes == Some([Volume(1, CreatedAt(0), true)]) && 1 in rows
    ensures
      var seen := Seen(AgentIds(h), Still(rows));
      && seen.found.Some? && seen.probe.Content?
      && 1 in seen.found.value && seen.found.value[1] == rows[1]
  {
    assert OrEmpty(h.volumes)[0] in OrEmpty(h.volumes) && 1 in AgentIds(h);
    StillFinds(AgentIds(h), rows);
  }

  lemma OldAgentIsRemoved(h: Host, db: Db)
    requires h.volumes == Some([Volume(1, CreatedAt(0), true)]) && db.now > WINDOW
    requires 1 in AgentRows(db) && AgentRows(db)[1] == Some(0)
    ensures PassRemoves(h, db, 0)
  {
    var agents, rooms := Seen(AgentIds(h), Still(AgentRows(db))), Seen(RoomIds(h), Still(RoomRows(db)));
    StillSeesAgentOne(h, AgentRows(db));
    StillFinds(RoomIds(h), RoomRows(db));
    DeletedLongAgoIsRemoved(h, agents, rooms, db.now);
  }

  /** Such a restore does happen in some run: deleted on day 0, read on day 61, restored, live at
      the removal that follows. */
  lemma RestoreBetweenReadAndRemoval() returns (ws: seq<Db>, ops: seq<EnvOp>, h: Host)
    ensures EnvRun(ws, ops) && |ws| == 6 && h.volumes == Some([Volume(1, CreatedAt(0), true)])
    ensures PassRemoves(h, ws[4], 0) && LiveLeaf(ws[5], AgentLeaf(1))
  {
    ws, ops := RestoreRun();
    h := Host(Some([Volume(1, CreatedAt(0), true)]), None, None);
    RowsAgree(ws[4], AgentLeaf(1));
    OldAgentIsRemoved(h, ws[4]);
  }
}
