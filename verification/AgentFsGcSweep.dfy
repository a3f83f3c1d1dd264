/** One whole pass of the collector: enumeration, the liveness join, the two blast-radius guards,
    the three sweeps and the combined report. */
module AgentFsGcSweep {
  import opened Base
  import opened AgentFsGc

  const BATCH: nat := 500

  /** What enumeration yields. `None` is a daemon that cannot be reached, and for the prefixes a
      MinIO client that is unavailable. */
  datatype Host = Host(
    volumes: Option<seq<Volume>>,
    sessions: Option<seq<SessionVolume>>,
    prefixes: Option<seq<Prefix>>)

  /** What one query sees of a table. */
  datatype Table = QueryFails | Content(rows: Rows)

  /** Each batch of ids is a query of its own, and so is the later probe for any row at all: the
      table may change in between. */
  datatype Reads = Reads(batch: nat -> Table, probe: Table)

  /** What the queries told the pass: the rows of its ids, unless a query failed, and the probe. */
  datatype Liveness = Liveness(found: Option<Rows>, probe: Table)

  /** `Raised` propagates a failed query; `Refused` is the empty-table guard. */
  datatype Sweep =
    | Raised
    | Refused(report: SweepReport)
    | Swept(sessions: seq<Outcome>, volumes: seq<Outcome>, prefixes: seq<Outcome>, report: SweepReport)

  function OrEmpty<T>(o: Option<seq<T>>): seq<T> {
    if o.Some? then o.value else []
  }

  function Project<T(!new), U>(xs: seq<T>, f: T -> U): (ys: seq<U>)
    ensures |ys| == |xs|
    ensures forall x :: x in xs ==> f(x) in ys
  {
    if xs == [] then [] else [f(xs[0])] + Project(xs[1..], f)
  }

  /** The agents named by the artifacts, one entry for each artifact. */
  function AgentsOf(h: Host): (xs: seq<Id>)
    ensures |xs| == |OrEmpty(h.volumes)| + |OrEmpty(h.sessions)| + |OrEmpty(h.prefixes)|
    ensures forall v :: v in OrEmpty(h.volumes) ==> v.agent in xs
    ensures forall v :: v in OrEmpty(h.sessions) ==> v.agent in xs
    ensures forall p :: p in OrEmpty(h.prefixes) ==> p.agent in xs
  {
    Project(OrEmpty(h.volumes), (v: Volume) => v.agent)
    + Project(OrEmpty(h.sessions), (v: SessionVolume) => v.agent)
    + Project(OrEmpty(h.prefixes), (p: Prefix) => p.agent)
  }

  function RoomsOf(h: Host): (xs: seq<Id>)
    ensures |xs| == |OrEmpty(h.sessions)|
    ensures forall v :: v in OrEmpty(h.sessions) ==> v.room in xs
  {
    Project(OrEmpty(h.sessions), (v: SessionVolume) => v.room)
  }

  function Elements<T(!new)>(xs: seq<T>): (s: set<T>)
    ensures forall x :: x in s <==> x in xs
  {
    set x | x in xs
  }

  function AgentIds(h: Host): set<Id> {
    Elements(AgentsOf(h))
  }

  function RoomIds(h: Host): set<Id> {
    Elements(RoomsOf(h))
  }

  // ----- The liveness join -----

  function RowsIn(t: Table): Rows {
    if t.Content? then t.rows else map[]
  }

  function Restrict(rows: Rows, ids: set<Id>): Rows {
    map k | k in rows && k in ids :: rows[k]
  }

  predicate BatchesAnswer(n: nat, batch: nat -> Table) {
    forall i :: 0 <= i < n ==> batch(i / BATCH).Content?
  }

  /** The row of each id of the list, as the query of its batch saw it. */
  function JoinRows(list: seq<Id>, batch: nat -> Table): Rows {
    if list == [] then map[]
    else
      var n := |list| - 1;
      JoinRows(list[..n], batch) + Restrict(RowsIn(batch(n / BATCH)), {list[n]})
  }

  /** No query is made for an empty list of ids. */
  function Join(list: seq<Id>, batch: nat -> Table): Option<Rows> {
    if BatchesAnswer(|list|, batch) then Some(JoinRows(list, batch)) else None
  }

  predicate IsLeast(ids: set<Id>, m: Id) {
    m in ids && forall k :: k in ids ==> m <= k
  }

  lemma {:induction false} LeastExists(ids: set<Id>) returns (m: Id)
    requires ids != {}
    ensures IsLeast(ids, m)
  {
    var k :| k in ids;
    assert forall j :: j in ids ==> j == k || j in ids - {k};
    if ids - {k} == {} {
      m := k;
    } else {
      m := LeastExists(ids - {k});
      m := if k < m then k else m;
    }
  }

  lemma SomeLeast(ids: set<Id>)
    requires ids != {}
    ensures exists m :: IsLeast(ids, m)
  {
    var m := LeastExists(ids);
  }

  ghost predicate ListsInOrder(list: seq<Id>, ids: set<Id>) {
    && (forall id :: id in ids <==> id in list)
    && forall i, j :: 0 <= i < j < |list| ==> list[i] < list[j]
  }

  lemma LeastFirst(m: Id, rest: seq<Id>, ids: set<Id>)
    requires IsLeast(ids, m) && ListsInOrder(rest, ids - {m})
    ensures ListsInOrder([m] + rest, ids)
  {
    forall i, j | 0 <= i < j < |rest| + 1 ensures ([m] + rest)[i] < ([m] + rest)[j] {
      assert rest[j - 1] in rest && rest[j - 1] in ids - {m};
    }
    assert forall id :: id in ids ==> id == m || id in ids - {m};
  }

  /** The ids in order. Numbers of one width compare as their texts do. */
  ghost function Ascending(ids: set<Id>): (list: seq<Id>)
    ensures ListsInOrder(list, ids)
  {
    if ids == {} then []
    else
      SomeLeast(ids);
      var m :| IsLeast(ids, m);
      LeastFirst(m, Ascending(ids - {m}), ids);
      [m] + Ascending(ids - {m})
  }

  lemma AscendingSize(ids: set<Id>)
    ensures |Ascending(ids)| == |ids|
  {
    SetSize(Ascending(ids));
    assert Elements(Ascending(ids)) == ids;
  }

  /** The number of the batch that looks an id up. */
  ghost function BatchOf(ids: set<Id>, id: Id): (b: nat)
    requires id in ids
    ensures exists i :: 0 <= i < |Ascending(ids)| && Ascending(ids)[i] == id && b == i / 500
  {
    assert id in Ascending(ids);
    var i :| 0 <= i < |Ascending(ids)| && Ascending(ids)[i] == id;
    i / BATCH
  }

  ghost function Seen(ids: set<Id>, r: Reads): Liveness {
    Liveness(Join(Ascending(ids), r.batch), r.probe)
  }

  lemma {:induction false} JoinRowsAt(list: seq<Id>, batch: nat -> Table, i: nat)
    requires i < |list| && forall j, k :: 0 <= j < k < |list| ==> list[j] != list[k]
    ensures
      var rows, seen := JoinRows(list, batch), RowsIn(batch(i / BATCH));
      (list[i] in rows <==> list[i] in seen) && (list[i] in rows ==> rows[list[i]] == seen[list[i]])
  {
    var n := |list| - 1;
    if i == n {
      JoinRowsOnlyList(list[..n], batch, list[n]);
    } else {
      JoinRowsAt(list[..n], batch, i);
    }
  }

  lemma {:induction false} JoinRowsOnlyList(list: seq<Id>, batch: nat -> Table, id: Id)
    requires id !in list
    ensures id !in JoinRows(list, batch)
  {
    if list == [] {
    } else {
      JoinRowsOnlyList(list[..|list| - 1], batch, id);
    }
  }

  /** The join gives each id exactly what its own batch saw of it, or nothing if a query failed. */
  lemma JoinExactly(ids: set<Id>, r: Reads, id: Id)
    requires id in ids
    ensures
      var found, seen := Seen(ids, r).found, r.batch(BatchOf(ids, id));
      && (found.None? <==> !BatchesAnswer(|ids|, r.batch))
      && (found.Some? ==>
            && seen.Content? && (id in found.value <==> id in seen.rows)
            && (id in found.value ==> found.value[id] == seen.rows[id]))
  {
    var list := Ascending(ids);
    AscendingSize(ids);
    var i :| 0 <= i < |list| && list[i] == id && BatchOf(ids, id) == i / BATCH;
    JoinRowsAt(list, r.batch, i);
  }

  // ----- Guards -----

  datatype Guard = Pass | Refuse | Error

  /** The table is probed only when ids exist and none matched. */
  function GuardOf(ids: set<Id>, found: Rows, probe: Table): Guard {
    if ids == {} || found != map[] then Pass
    else if probe.QueryFails? then Error
    else if probe.rows == map[] then Refuse
    else Pass
  }

  function DeclineAll(n: nat): (os: seq<Outcome>)
    ensures |os| == n && forall o :: o in os ==> o == Outcome(Declined, false, [])
  {
    seq(n, _ => Outcome(Declined, false, []))
  }

  function Combine(a: SweepReport, b: SweepReport, c: SweepReport): SweepReport {
    SweepReport(a.seen + b.seen + c.seen, a.live + b.live + c.live, a.retained + b.retained + c.retained,
                a.purged + b.purged + c.purged, a.wouldPurge + b.wouldPurge + c.wouldPurge,
                a.declined + b.declined + c.declined,
                a.objectsRemoved + b.objectsRemoved + c.objectsRemoved, a.dryRun)
  }

  function SessionPass(h: Host, found: Rows, foundRooms: Rows, probe: Table, cutoff: int, armed: bool):
    (os: seq<Outcome>)
    ensures |os| == |OrEmpty(h.sessions)|
    ensures forall o :: o in os ==> Coherent(o, armed) && o.removed == []
  {
    if GuardOf(RoomIds(h), foundRooms, probe).Refuse? then DeclineAll(|OrEmpty(h.sessions)|)
    else SessionOutcomes(OrEmpty(h.sessions), found, foundRooms, cutoff, armed)
  }

  function Assemble(sessions: seq<Outcome>, volumes: seq<Outcome>, prefixes: seq<Outcome>, armed: bool): Sweep {
    Swept(sessions, volumes, prefixes,
          Combine(Tally(sessions, armed), Tally(volumes, armed), Tally(prefixes, armed)))
  }

  /** A pass, given what its queries told it. */
  function SweepSpec(h: Host, agents: Liveness, rooms: Liveness, cutoff: int, armed: bool): Sweep {
    if agents.found.None? || rooms.found.None? then Raised
    else
      var found, foundRooms := agents.found.value, rooms.found.value;
      match GuardOf(AgentIds(h), found, agents.probe)
      case Error => Raised
      case Refuse => Refused(SweepReport(|AgentIds(h)|, 0, 0, 0, 0, |AgentIds(h)|, 0, !armed))
      case Pass =>
        if GuardOf(RoomIds(h), foundRooms, rooms.probe).Error? then Raised
        else
          Assemble(SessionPass(h, found, foundRooms, rooms.probe, cutoff, armed),
                   VolumeOutcomes(OrEmpty(h.volumes), found, cutoff, armed),
                   PrefixOutcomes(OrEmpty(h.prefixes), found, cutoff, armed),
                   armed)
  }

  /** A pass, given what each query saw. */
  ghost function PassSpec(h: Host, agents: Reads, rooms: Reads, cutoff: int, armed: bool): Sweep {
    SweepSpec(h, Seen(AgentIds(h), agents), Seen(RoomIds(h), rooms), cutoff, armed)
  }

  // ----- The code -----

  lemma AscendingStep(ids: set<Id>, k: Id)
    requires IsLeast(ids, k)
    ensures Ascending(ids) == [k] + Ascending(ids - {k})
  {
    var m :| IsLeast(ids, m) && Ascending(ids) == [m] + Ascending(ids - {m});
  }

  /** `list` followed by the ids still to do, in order, is `whole`. */
  ghost predicate SortedSoFar(list: seq<Id>, todo: set<Id>, whole: seq<Id>) {
    list + Ascending(todo) == whole
  }

  lemma SortOneMore(list: seq<Id>, todo: set<Id>, whole: seq<Id>, k: Id)
    requires SortedSoFar(list, todo, whole) && IsLeast(todo, k)
    ensures SortedSoFar(list + [k], todo - {k}, whole)
  {
    AscendingStep(todo, k);
    assert list + ([k] + Ascending(todo - {k})) == list + [k] + Ascending(todo - {k});
  }

  method Least(ids: set<Id>) returns (k: Id)
    requires ids != {}
    ensures IsLeast(ids, k)
  {
    SomeLeast(ids);
    k :| k in ids && IsLeast(ids, k);
  }

  method SortedIds(ids: set<Id>) returns (list: seq<Id>)
    ensures list == Ascending(ids)
  {
    list := [];
    var todo := ids;
    while todo != {}
      invariant SortedSoFar(list, todo, Ascending(ids))
      decreases todo
    {
      var k := Least(todo);
      SortOneMore(list, todo, Ascending(ids), k);
      list := list + [k];
      todo := todo - {k};
    }
    assert list + [] == list;
  }

  lemma RestrictOneMore(before: Rows, rows: Rows, ids: set<Id>, id: Id)
    ensures before + Restrict(rows, ids) + Restrict(rows, {id}) == before + Restrict(rows, ids + {id})
  {
  }

  lemma JoinOneMore(list: seq<Id>, start: nat, n: nat, batch: nat -> Table)
    requires start <= n < |list|
    ensures JoinRows(list[..n + 1], batch) ==
            JoinRows(list[..n], batch) + Restrict(RowsIn(batch(n / BATCH)), {list[n]})
    ensures Elements(list[start..n + 1]) == Elements(list[start..n]) + {list[n]}
  {
    assert list[..n + 1][..n] == list[..n];
    assert list[start..n + 1] == list[start..n] + [list[n]];
  }

  lemma {:induction false} ChunkJoin(list: seq<Id>, start: nat, end: nat, batch: nat -> Table, b: nat)
    requires start <= end <= |list| && forall i :: start <= i < end ==> i / BATCH == b
    ensures JoinRows(list[..end], batch) ==
            JoinRows(list[..start], batch) + Restrict(RowsIn(batch(b)), Elements(list[start..end]))
  {
    if start == end {
      assert list[start..end] == [];
    } else {
      var n := end - 1;
      ChunkJoin(list, start, n, batch, b);
      JoinOneMore(list, start, n, batch);
      RestrictOneMore(JoinRows(list[..start], batch), RowsIn(batch(b)), Elements(list[start..n]), list[n]);
    }
  }

  /** The batched `IN (...)` lookup, one query for every `BATCH` ids. */
  method DeletedAt(list: seq<Id>, batch: nat -> Table) returns (found: Option<Rows>)
    ensures found == Join(list, batch)
  {
    var rows: Rows := map[];
    var b: nat := 0;
    while b * BATCH < |list|
      invariant (b - 1) * BATCH < |list|
      invariant var start := if b * BATCH < |list| then b * BATCH else |list|;
                rows == JoinRows(list[..start], batch) && BatchesAnswer(start, batch)
    {
      var start := b * BATCH;
      var end := if start + BATCH < |list| then start + BATCH else |list|;
      assert forall i :: start <= i < end ==> i / BATCH == b;
      var answer := batch(b);
      if answer.QueryFails? {
        assert !BatchesAnswer(|list|, batch) by { assert batch(start / BATCH).QueryFails?; }
        return None;
      }
      ChunkJoin(list, start, end, batch, b);
      rows := rows + Restrict(answer.rows, Elements(list[start..end]));
      b := b + 1;
    }
    assert list[..|list|] == list;
    return Some(rows);
  }

  method SweepSessionHalf(h: Host, found: Rows, foundRooms: Rows, probe: Table, cutoff: int, armed: bool)
    returns (report: SweepReport, removed: set<nat>)
    ensures report == Tally(SessionPass(h, found, foundRooms, probe, cutoff, armed), armed)
    ensures removed == PurgedAt(SessionPass(h, found, foundRooms, probe, cutoff, armed))
  {
    if GuardOf(RoomIds(h), foundRooms, probe).Refuse? {
      var n := |OrEmpty(h.sessions)|;
      DeclinedTally(n, armed);
      return SweepReport(n, 0, 0, 0, 0, n, 0, !armed), {};
    }
    report, removed := SweepSessionVolumes(OrEmpty(h.sessions), found, foundRooms, cutoff, armed);
  }

  method SweepOnce(h: Host, agents: Reads, rooms: Reads, cutoff: int, armed: bool)
    returns (report: Option<SweepReport>, sessions: set<nat>, volumes: set<nat>, objects: seq<string>)
    ensures
      match PassSpec(h, agents, rooms, cutoff, armed)
      case Raised => report == None && sessions == {} && volumes == {} && objects == []
      case Refused(r) => report == Some(r) && sessions == {} && volumes == {} && objects == []
      case Swept(ss, vs, ps, r) =>
        report == Some(r) && sessions == PurgedAt(ss) && volumes == PurgedAt(vs) && objects == AllRemoved(ps)
  {
    report, sessions, volumes, objects := None, {}, {}, [];
    var agentIds, roomIds := AgentIds(h), RoomIds(h);
    var agentList := SortedIds(agentIds);
    var found := DeletedAt(agentList, agents.batch);
    var roomList := SortedIds(roomIds);
    var foundRooms := DeletedAt(roomList, rooms.batch);
    if found == None || foundRooms == None {
      return;
    }
    var guard := GuardOf(agentIds, found.value, agents.probe);
    if guard.Refuse? {
      report := Some(SweepReport(|agentIds|, 0, 0, 0, 0, |agentIds|, 0, !armed));
      return;
    }
    if guard.Error? || GuardOf(roomIds, foundRooms.value, rooms.probe).Error? {
      return;
    }
    var sessionReport: SweepReport, volumeReport: SweepReport;
    sessionReport, sessions := SweepSessionHalf(h, found.value, foundRooms.value, rooms.probe, cutoff, armed);
    volumeReport, volumes := SweepVolumes(OrEmpty(h.volumes), found.value, cutoff, armed);
    var objectReport := SweepReport(0, 0, 0, 0, 0, 0, 0, !armed);
    if h.prefixes.Some? {
      objectReport, objects := SweepWorkspaceObjects(h.prefixes.value, found.value, cutoff, armed);
    }
    report := Some(Combine(sessionReport, volumeReport, objectReport));
  }

  lemma {:induction false} DeclinedTally(n: nat, armed: bool)
    ensures Tally(DeclineAll(n), armed) == SweepReport(n, 0, 0, 0, 0, n, 0, !armed)
    ensures PurgedAt(DeclineAll(n)) == {}
  {
    if n == 0 {
    } else {
      DeclinedTally(n - 1, armed);
      assert DeclineAll(n)[..n - 1] == DeclineAll(n - 1);
    }
  }

  // ----- Conservation -----

  ghost predicate RemovesNothing(s: Sweep) {
    s.Swept? ==> PurgedAt(s.sessions) == {} && PurgedAt(s.volumes) == {} && AllRemoved(s.prefixes) == []
  }

  /** The counter of a fate that keeps the artifact. */
  function Reported(r: SweepReport, f: Fate): nat {
    if f == KeptLive then r.live else if f == KeptRetained then r.retained else r.declined
  }

  lemma CombineConserves(a: SweepReport, b: SweepReport, c: SweepReport, armed: bool)
    requires Conserves(a, armed) && Conserves(b, armed) && Conserves(c, armed)
    ensures Conserves(Combine(a, b, c), armed)
  {
  }

  lemma AssembleConserves(sessions: seq<Outcome>, volumes: seq<Outcome>, prefixes: seq<Outcome>, armed: bool)
    requires forall o :: o in sessions ==> Coherent(o, armed)
    requires forall o :: o in volumes ==> Coherent(o, armed)
    requires forall o :: o in prefixes ==> Coherent(o, armed)
    ensures
      var s := Assemble(sessions, volumes, prefixes, armed);
      Conserves(s.report, armed) && (!armed ==> RemovesNothing(s))
  {
    TallyConserves(sessions, armed);
    TallyConserves(volumes, armed);
    TallyConserves(prefixes, armed);
    PurgedCountsRemovals(sessions);
    PurgedCountsRemovals(volumes);
    CombineConserves(Tally(sessions, armed), Tally(volumes, armed), Tally(prefixes, armed), armed);
  }

  /** Each counter of the combined report counts what its name says. */
  lemma AssembleCounts(sessions: seq<Outcome>, volumes: seq<Outcome>, prefixes: seq<Outcome>, armed: bool)
    requires forall o :: o in sessions ==> o.removed == []
    requires forall o :: o in volumes ==> o.removed == []
    ensures
      var r := Assemble(sessions, volumes, prefixes, armed).report;
      && r.seen == |sessions| + |volumes| + |prefixes|
      && r.purged == |PurgedAt(sessions)| + |PurgedAt(volumes)| + |PurgedAt(prefixes)|
      && r.objectsRemoved == |AllRemoved(prefixes)|
      && r.wouldPurge == |MarkedAt(sessions)| + |MarkedAt(volumes)| + |MarkedAt(prefixes)|
      && forall f :: f == KeptLive || f == KeptRetained || f == Declined ==>
           Reported(r, f) == |FateAt(sessions, f)| + |FateAt(volumes, f)| + |FateAt(prefixes, f)|
  {
    PurgedCountsRemovals(sessions);
    PurgedCountsRemovals(volumes);
    PurgedCountsRemovals(prefixes);
    forall f ensures CountFate(sessions, f) == |FateAt(sessions, f)| && CountMarked(sessions) == |MarkedAt(sessions)| {
      CountersCount(sessions, f);
    }
    forall f ensures CountFate(volumes, f) == |FateAt(volumes, f)| && CountMarked(volumes) == |MarkedAt(volumes)| {
      CountersCount(volumes, f);
    }
    forall f ensures CountFate(prefixes, f) == |FateAt(prefixes, f)| && CountMarked(prefixes) == |MarkedAt(prefixes)| {
      CountersCount(prefixes, f);
    }
    NothingRemoved(sessions);
    NothingRemoved(volumes);
  }

  /** Whatever fails on the way, the combined report accounts for everything seen, its purge count
      is the number of volumes and prefixes removed, and an unarmed pass removes nothing. */
  lemma SweepConserves(h: Host, agents: Liveness, rooms: Liveness, cutoff: int, armed: bool)
    ensures
      var s := SweepSpec(h, agents, rooms, cutoff, armed);
      && (!s.Raised? ==> Conserves(s.report, armed))
      && (s.Swept? ==>
            && s.report.seen == |OrEmpty(h.sessions)| + |OrEmpty(h.volumes)| + |OrEmpty(h.prefixes)|
            && s.report.purged == |PurgedAt(s.sessions)| + |PurgedAt(s.volumes)| + |PurgedAt(s.prefixes)|
            && s.report.objectsRemoved == |AllRemoved(s.prefixes)|
            && s.report.wouldPurge == |MarkedAt(s.sessions)| + |MarkedAt(s.volumes)| + |MarkedAt(s.prefixes)|
            && forall f :: f == KeptLive || f == KeptRetained || f == Declined ==>
                 Reported(s.report, f) == |FateAt(s.sessions, f)| + |FateAt(s.volumes, f)| + |FateAt(s.prefixes, f)|)
      && (!armed ==> RemovesNothing(s))
  {
    var s := SweepSpec(h, agents, rooms, cutoff, armed);
    if s.Swept? {
      AssembleConserves(s.sessions, s.volumes, s.prefixes, armed);
      AssembleCounts(s.sessions, s.volumes, s.prefixes, armed);
    }
  }

  // ----- When a pass goes ahead -----

  /** No id of the set has a row in what its batch saw. */
  ghost predicate NoneMatches(ids: set<Id>, r: Reads) {
    forall id :: id in ids ==> id !in RowsIn(r.batch(BatchOf(ids, id)))
  }

  lemma {:induction false} JoinRowsWithinList(list: seq<Id>, batch: nat -> Table)
    ensures forall id :: id in JoinRows(list, batch) ==> id in list
  {
    if list == [] {
    } else {
      JoinRowsWithinList(list[..|list| - 1], batch);
    }
  }

  lemma EmptyJoinExactly(ids: set<Id>, r: Reads)
    requires BatchesAnswer(|ids|, r.batch)
    ensures Seen(ids, r).found.Some?
    ensures Seen(ids, r).found.value == map[] <==> NoneMatches(ids, r)
  {
    var list := Ascending(ids);
    AscendingSize(ids);
    var found := JoinRows(list, r.batch);
    JoinRowsWithinList(list, r.batch);
    forall id | id in ids ensures id in found <==> id in RowsIn(r.batch(BatchOf(ids, id))) {
      JoinExactly(ids, r, id);
    }
    if NoneMatches(ids, r) {
      assert forall id :: id in found ==> id in ids;
      assert found == map[];
    }
  }

  lemma JoinAnswers(ids: set<Id>, r: Reads)
    ensures Seen(ids, r).found.Some? <==> BatchesAnswer(|ids|, r.batch)
  {
    AscendingSize(ids);
  }

  lemma RefusedExactly(h: Host, agents: Liveness, rooms: Liveness, cutoff: int, armed: bool)
    ensures SweepSpec(h, agents, rooms, cutoff, armed).Refused? <==>
            && agents.found.Some? && rooms.found.Some?
            && AgentIds(h) != {} && agents.found.value == map[] && agents.probe == Content(map[])
  {
  }

  /** A pass refuses if and only if every lookup answered, artifacts exist, none of their agents had
      a row when its batch was read, and the later probe found the agents table empty. */
  lemma RefusesExactly(h: Host, agents: Reads, rooms: Reads, cutoff: int, armed: bool)
    ensures PassSpec(h, agents, rooms, cutoff, armed).Refused? <==>
            && BatchesAnswer(|AgentIds(h)|, agents.batch) && BatchesAnswer(|RoomIds(h)|, rooms.batch)
            && AgentIds(h) != {} && NoneMatches(AgentIds(h), agents) && agents.probe == Content(map[])
  {
    JoinAnswers(AgentIds(h), agents);
    JoinAnswers(RoomIds(h), rooms);
    if BatchesAnswer(|AgentIds(h)|, agents.batch) {
      EmptyJoinExactly(AgentIds(h), agents);
    }
    RefusedExactly(h, Seen(AgentIds(h), agents), Seen(RoomIds(h), rooms), cutoff, armed);
  }

  /** With every query answered, a pass goes ahead unless it refuses. */
  lemma SweptUnlessRefused(h: Host, agents: Liveness, rooms: Liveness, cutoff: int, armed: bool)
    requires agents.found.Some? && rooms.found.Some? && agents.probe.Content? && rooms.probe.Content?
    ensures SweepSpec(h, agents, rooms, cutoff, armed).Swept? <==>
            AgentIds(h) == {} || agents.found.value != map[] || agents.probe.rows != map[]
  {
  }

  lemma NoIdsNoArtifacts(h: Host)
    requires AgentIds(h) == {}
    ensures OrEmpty(h.volumes) == [] && OrEmpty(h.sessions) == [] && OrEmpty(h.prefixes) == []
  {
  }

  /** No row was found, and the probe found none either or failed. */
  predicate Unusable(l: Liveness) {
    l.found.None? || (l.found.value == map[] && (l.probe.QueryFails? || l.probe.rows == map[]))
  }

  /** An agents table unreadable or empty at lookup and probe costs no artifact. */
  lemma UnusableAgentsTableRemovesNothing(h: Host, agents: Liveness, rooms: Liveness, cutoff: int, armed: bool)
    requires Unusable(agents)
    ensures RemovesNothing(SweepSpec(h, agents, rooms, cutoff, armed))
  {
    if AgentIds(h) == {} {
      NoIdsNoArtifacts(h);
    }
  }

  lemma NoRoomsNoSessions(h: Host)
    requires RoomIds(h) == {}
    ensures OrEmpty(h.sessions) == []
  {
  }

  /** A chatrooms table unreadable or empty at lookup and probe costs no session volume. */
  lemma UnusableRoomsTableRemovesNoSession(h: Host, agents: Liveness, rooms: Liveness, cutoff: int, armed: bool)
    requires Unusable(rooms)
    ensures
      var s := SweepSpec(h, agents, rooms, cutoff, armed);
      s.Swept? ==> PurgedAt(s.sessions) == {}
  {
    if RoomIds(h) == {} {
      NoRoomsNoSessions(h);
    } else {
      DeclinedTally(|OrEmpty(h.sessions)|, armed);
    }
  }

  ghost predicate Distinct<T(!new)>(xs: seq<T>) {
    forall i, j :: 0 <= i < j < |xs| ==> xs[i] != xs[j]
  }

  lemma {:induction false} SetSize<T(!new)>(xs: seq<T>)
    ensures |Elements(xs)| <= |xs|
    ensures |Elements(xs)| == |xs| <==> Distinct(xs)
  {
    if xs == [] {
    } else {
      var n := |xs| - 1;
      SetSize(xs[..n]);
      assert xs == xs[..n] + [xs[n]];
      assert Elements(xs) == Elements(xs[..n]) + {xs[n]};
      if Distinct(xs[..n]) && xs[n] !in xs[..n] {
        assert Distinct(xs);
      }
    }
  }

  /** The refusing guard reports distinct agents where every other path reports artifacts. The two
      agree exactly when no agent has two artifacts. */
  lemma RefusalCountsAgentsNotArtifacts(h: Host, agents: Liveness, rooms: Liveness, cutoff: int, armed: bool)
    requires SweepSpec(h, agents, rooms, cutoff, armed).Refused?
    ensures
      var r := SweepSpec(h, agents, rooms, cutoff, armed).report;
      && r.seen == r.declined == |AgentIds(h)|
      && (r.seen == |OrEmpty(h.volumes)| + |OrEmpty(h.sessions)| + |OrEmpty(h.prefixes)| <==> Distinct(AgentsOf(h)))
  {
    SetSize(AgentsOf(h));
  }

  const EMPTY := Liveness(Some(map[]), Content(map[]))

  /** One agent with a volume and a prefix on a host whose agents table is empty: two artifacts, and
      the refusal reports one. */
  lemma RefusalUndercounts(cutoff: int, armed: bool) returns (h: Host)
    ensures |OrEmpty(h.volumes)| + |OrEmpty(h.sessions)| + |OrEmpty(h.prefixes)| == 2
    ensures
      var s := SweepSpec(h, EMPTY, EMPTY, cutoff, armed);
      s.Refused? && s.report.seen == 1
  {
    h := Host(Some([Volume(1, AgeUnknown, true)]), None, Some([Prefix(1, ListFails)]));
    assert OrEmpty(h.volumes)[0] in OrEmpty(h.volumes) && 1 in AgentIds(h);
    assert Project(OrEmpty(h.volumes)[1..], (v: Volume) => v.agent) == [];
    assert Project(OrEmpty(h.prefixes)[1..], (p: Prefix) => p.agent) == [];
    assert AgentsOf(h) == [1, 1];
    assert AgentIds(h) == {1};
  }

  // ----- What a pass removes -----

  /** The row test every removal passes: expired, or absent. */
  predicate Reclaimable(id: Id, rows: Rows, cutoff: int) {
    id !in rows || RowExpires(id, rows, cutoff)
  }

  /** An armed pass removes a volume exactly when the daemon agrees and its agent's row has left
      the window, or has no row and the volume is older than the cutoff. */
  lemma RemovedVolumeExactly(h: Host, agents: Liveness, rooms: Liveness, cutoff: int, armed: bool, i: nat)
    ensures
      var s := SweepSpec(h, agents, rooms, cutoff, armed);
      s.Swept? ==>
        (i in PurgedAt(s.volumes) <==>
          && armed && i < |OrEmpty(h.volumes)| && OrEmpty(h.volumes)[i].removable
          && VolumeDue(OrEmpty(h.volumes)[i], agents.found.value, cutoff))
  {
    var s := SweepSpec(h, agents, rooms, cutoff, armed);
    if s.Swept? && i < |OrEmpty(h.volumes)| {
      VolumeFateExactly(OrEmpty(h.volumes)[i], agents.found.value, cutoff, armed);
    }
  }

  /** An armed pass deletes the named objects of a prefix in order, up to the first that refuses,
      exactly when the prefix is due, and counts it purged when all of them went. */
  lemma RemovedPrefixExactly(h: Host, agents: Liveness, rooms: Liveness, cutoff: int, armed: bool, i: nat)
    ensures
      var s := SweepSpec(h, agents, rooms, cutoff, armed);
      s.Swept? && i < |OrEmpty(h.prefixes)| ==>
        && var p := OrEmpty(h.prefixes)[i];
        && var due := PrefixDue(p, agents.found.value, cutoff);
        && i < |s.prefixes|
        && s.prefixes[i].removed == (if due && armed then RemovedNames(Named(p.listing.objects)) else [])
        && (i in PurgedAt(s.prefixes) <==> due && armed && AllRemovable(p.listing.objects))
  {
    var s := SweepSpec(h, agents, rooms, cutoff, armed);
    if s.Swept? && i < |OrEmpty(h.prefixes)| {
      PrefixFateExactly(OrEmpty(h.prefixes)[i], agents.found.value, cutoff, armed);
    }
  }

  /** Which objects go: for a prefix that is due in an armed pass its named objects, each once and in
      the order of the listing, up to the first that refuses; otherwise none. The prefix counts as
      purged if and only if none refused, and then every named object has gone. */
  lemma DeletedObjectsExactly(h: Host, agents: Liveness, rooms: Liveness, cutoff: int, armed: bool, i: nat)
    returns (at: seq<nat>, stop: nat)
    ensures
      var s := SweepSpec(h, agents, rooms, cutoff, armed);
      s.Swept? && i < |OrEmpty(h.prefixes)| ==>
        && var p := OrEmpty(h.prefixes)[i];
        && i < |s.prefixes|
        && if PrefixDue(p, agents.found.value, cutoff) && armed then
             && DeletesUpTo(p.listing.objects, s.prefixes[i].removed, at, stop)
             && (i in PurgedAt(s.prefixes) <==> stop == |p.listing.objects|)
           else s.prefixes[i].removed == [] && i !in PurgedAt(s.prefixes)
  {
    at, stop := [], 0;
    var s := SweepSpec(h, agents, rooms, cutoff, armed);
    if s.Swept? && i < |OrEmpty(h.prefixes)| {
      var p := OrEmpty(h.prefixes)[i];
      RemovedPrefixExactly(h, agents, rooms, cutoff, armed, i);
      if PrefixDue(p, agents.found.value, cutoff) && armed {
        at, stop := DeletionExactly(p.listing.objects);
        StopsAtTheEndExactly(p.listing.objects, s.prefixes[i].removed, at, stop);
      }
    }
  }

  lemma StopsAtTheEndExactly(objects: seq<Object>, names: seq<string>, at: seq<nat>, stop: nat)
    requires DeletesUpTo(objects, names, at, stop)
    ensures stop == |objects| <==> AllRemovable(objects)
  {
  }

  /** An armed pass removes a session volume exactly when a room matched or the probe found one, the
      daemon agrees and the volume is due. */
  lemma RemovedSessionExactly(h: Host, agents: Liveness, rooms: Liveness, cutoff: int, armed: bool, i: nat)
    ensures
      var s := SweepSpec(h, agents, rooms, cutoff, armed);
      s.Swept? ==>
        (i in PurgedAt(s.sessions) <==>
          && armed && !Unusable(rooms) && i < |OrEmpty(h.sessions)| && OrEmpty(h.sessions)[i].removable
          && SessionDue(OrEmpty(h.sessions)[i], agents.found.value, rooms.found.value, cutoff))
  {
    var s := SweepSpec(h, agents, rooms, cutoff, armed);
    if s.Swept? && i < |OrEmpty(h.sessions)| {
      var v := OrEmpty(h.sessions)[i];
      assert v in OrEmpty(h.sessions) && v.room in RoomIds(h);
      SessionFateExactly(v, agents.found.value, rooms.found.value, cutoff, armed);
    }
  }

  /** A table that is empty when the ids are looked up and has its first row by the time it is
      probed: an armed pass removes every volume older than the cutoff that the daemon lets go. */
  lemma FilledBeforeTheProbe(h: Host, agents: Reads, rooms: Reads, cutoff: int, i: nat)
    requires BatchesAnswer(|AgentIds(h)|, agents.batch) && NoneMatches(AgentIds(h), agents)
    requires agents.probe.Content? && agents.probe.rows != map[]
    requires BatchesAnswer(|RoomIds(h)|, rooms.batch) && rooms.probe.Content? && i < |OrEmpty(h.volumes)|
    ensures
      var s, v := PassSpec(h, agents, rooms, cutoff, true), OrEmpty(h.volumes)[i];
      && s.Swept?
      && (i in PurgedAt(s.volumes) <==> v.removable && v.age.CreatedAt? && v.age.time < cutoff)
  {
    var seen, seenRooms := Seen(AgentIds(h), agents), Seen(RoomIds(h), rooms);
    EmptyJoinExactly(AgentIds(h), agents);
    EmptyJoinExactly(RoomIds(h), rooms);
    SweptUnlessRefused(h, seen, seenRooms, cutoff, true);
    RemovedVolumeExactly(h, seen, seenRooms, cutoff, true, i);
  }

  /** Such a table, concretely: nobody's row at the lookup, somebody else's at the probe, and the
      volume of agent 1 is gone. */
  lemma RestoreBetweenLookupAndProbe() returns (h: Host, agents: Reads, rooms: Reads)
    ensures h.volumes == Some([Volume(1, CreatedAt(0), true)])
    ensures agents.batch(0) == Content(map[]) && agents.probe == Content(map[2 := None])
    ensures
      var s := PassSpec(h, agents, rooms, 1, true);
      s.Swept? && 0 in PurgedAt(s.volumes)
  {
    h := Host(Some([Volume(1, CreatedAt(0), true)]), None, None);
    agents := Reads(_ => Content(map[]), Content(map[2 := None]));
    rooms := Reads(_ => Content(map[]), Content(map[]));
    assert 2 in agents.probe.rows;
    FilledBeforeTheProbe(h, agents, rooms, 1, 0);
  }
}
