/** The nightly collector of per-agent volumes, per-session volumes and workspace prefixes.

    Docker, MinIO and the database are oracles: an artifact carries what asking for its age or
    listing would answer and whether its removal would succeed, and a table either answers or
    fails. `deleted_at` is an optional time, and an id without a row is absent from the map. */
module AgentFsGc {
  import opened Base

  type Id = nat
  type Rows = map<Id, Option<int>>

  datatype Reason = RowLive | RowInWindow | RowExpired | OrphanAgeUnknown | OrphanYoung | OrphanOld

  /** The answer of the age thunk, which may raise. */
  datatype Age = Raises | AgeUnknown | CreatedAt(time: int)

  datatype Verdict = Failed | Decided(purge: bool, reason: Reason)

  datatype Volume = Volume(agent: Id, age: Age, removable: bool)

  datatype SessionVolume = SessionVolume(agent: Id, room: Id, age: Age, removable: bool)

  datatype Object = Object(name: string, stamp: Option<int>, removable: bool)

  datatype Listing = ListFails | Listed(objects: seq<Object>)

  datatype Prefix = Prefix(agent: Id, listing: Listing)

  datatype SweepReport = SweepReport(
    seen: nat, live: nat, retained: nat, purged: nat, wouldPurge: nat, declined: nat,
    objectsRemoved: nat, dryRun: bool)

  function Classify(id: Id, rows: Rows, cutoff: int, age: Age): Verdict {
    if id in rows then
      match rows[id]
      case None => Decided(false, RowLive)
      case Some(deletedAt) =>
        if deletedAt >= cutoff then Decided(false, RowInWindow) else Decided(true, RowExpired)
    else
      match age
      case Raises => Failed
      case AgeUnknown => Decided(false, OrphanAgeUnknown)
      case CreatedAt(created) =>
        if created >= cutoff then Decided(false, OrphanYoung) else Decided(true, OrphanOld)
  }

  predicate ExpectedKeep(r: Reason) {
    r == RowInWindow || r == OrphanYoung
  }

  // ----- Ageing a prefix by its newest object -----

  /** The newest stamp, unless the listing is empty or some object has none. */
  function Newest(objects: seq<Object>): (newest: Option<int>)
    ensures newest.Some? <==> objects != [] && forall i :: 0 <= i < |objects| ==> objects[i].stamp.Some?
    ensures newest.Some? ==> forall i :: 0 <= i < |objects| ==> objects[i].stamp.value <= newest.value
    ensures newest.Some? ==> exists i :: 0 <= i < |objects| && objects[i].stamp == newest
  {
    if objects == [] then None else
    var n := |objects| - 1;
    var last := objects[n];
    if n == 0 then last.stamp else
    var r := Newest(objects[..n]);
    if r.None? || last.stamp.None? then None else Some(Max(r.value, last.stamp.value))
  }

  lemma NewestStep(objects: seq<Object>, i: nat)
    requires i < |objects| && objects[i].stamp.Some? && (i > 0 ==> Newest(objects[..i]).Some?)
    ensures
      var before := Newest(objects[..i]);
      Newest(objects[..i + 1]) ==
        if before.None? || before.value < objects[i].stamp.value then objects[i].stamp else before
  {
    assert objects[..i + 1][..i] == objects[..i];
  }

  method NewestObject(objects: seq<Object>) returns (newest: Option<int>)
    ensures newest == Newest(objects)
  {
    newest := None;
    for i := 0 to |objects|
      invariant newest == Newest(objects[..i]) && (i > 0 ==> newest.Some?)
    {
      var stamp := objects[i].stamp;
      if stamp.None? {
        return None;
      }
      NewestStep(objects, i);
      if newest.None? || newest.value < stamp.value {
        newest := stamp;
      }
    }
    assert objects[..|objects|] == objects;
  }

  function ListingAge(l: Listing): Age {
    match l
    case ListFails => Raises
    case Listed(objects) =>
      match Newest(objects)
      case None => AgeUnknown
      case Some(t) => CreatedAt(t)
  }

  // ----- What becomes of one artifact -----

  datatype Fate = KeptLive | KeptRetained | Declined | WouldPurge | Purged

  /** `marked` says the sweep counted it as purgeable; `removed` names the objects it deleted. */
  datatype Outcome = Outcome(fate: Fate, marked: bool, removed: seq<string>)

  function KeepFate(r: Reason): Fate {
    if r == RowLive then KeptLive else if ExpectedKeep(r) then KeptRetained else Declined
  }

  function RemovalFate(removable: bool, armed: bool): Fate {
    if !armed then WouldPurge else if removable then Purged else Declined
  }

  function VolumeOutcome(v: Volume, rows: Rows, cutoff: int, armed: bool): Outcome {
    match Classify(v.agent, rows, cutoff, v.age)
    case Failed => Outcome(Declined, false, [])
    case Decided(purge, reason) =>
      if !purge then Outcome(KeepFate(reason), false, []) else Outcome(RemovalFate(v.removable, armed), true, [])
  }

  function SessionOutcome(v: SessionVolume, agents: Rows, rooms: Rows, cutoff: int, armed: bool): Outcome {
    var a := Classify(v.agent, agents, cutoff, v.age);
    var r := Classify(v.room, rooms, cutoff, v.age);
    if a.Failed? || r.Failed? then Outcome(Declined, false, [])
    else if a.purge || r.purge then Outcome(RemovalFate(v.removable, armed), true, [])
    else if a.reason == RowLive && r.reason == RowLive then Outcome(KeptLive, false, [])
    else if ExpectedKeep(a.reason) || ExpectedKeep(r.reason) then Outcome(KeptRetained, false, [])
    else Outcome(Declined, false, [])
  }

  /** Objects without a name are skipped. */
  function Named(objects: seq<Object>): seq<Object> {
    if objects == [] then []
    else
      var last := objects[|objects| - 1];
      Named(objects[..|objects| - 1]) + if last.name == "" then [] else [last]
  }

  /** Deletion stops at the first object that cannot be removed. */
  function RemovablePrefix(objects: seq<Object>): (n: nat)
    ensures n <= |objects|
    ensures forall i :: 0 <= i < n ==> objects[i].removable
    ensures n < |objects| ==> !objects[n].removable
  {
    if objects == [] || !objects[0].removable then 0 else 1 + RemovablePrefix(objects[1..])
  }

  function RemovedNames(objects: seq<Object>): (names: seq<string>)
    ensures |names| == RemovablePrefix(objects)
    ensures forall i :: 0 <= i < |names| ==> names[i] == objects[i].name
  {
    seq(RemovablePrefix(objects), i requires 0 <= i < RemovablePrefix(objects) => objects[i].name)
  }

  function PrefixOutcome(p: Prefix, rows: Rows, cutoff: int, armed: bool): Outcome {
    match Classify(p.agent, rows, cutoff, ListingAge(p.listing))
    case Failed => Outcome(Declined, false, [])
    case Decided(purge, reason) =>
      if !purge then Outcome(KeepFate(reason), false, [])
      else if p.listing.ListFails? then Outcome(Declined, false, [])
      else if !armed then Outcome(WouldPurge, true, [])
      else
        var targets := Named(p.listing.objects);
        var removed := RemovedNames(targets);
        Outcome(if |removed| == |targets| then Purged else Declined, true, removed)
  }

  predicate RowExpires(id: Id, rows: Rows, cutoff: int) {
    id in rows && rows[id].Some? && rows[id].value < cutoff
  }

  predicate RowRecent(id: Id, rows: Rows, cutoff: int) {
    id in rows && rows[id].Some? && rows[id].value >= cutoff
  }

  predicate RowIsLive(id: Id, rows: Rows) {
    id in rows && rows[id].None?
  }

  /** The row has left the window, or is missing and the volume is older than the cutoff. */
  predicate VolumeDue(v: Volume, rows: Rows, cutoff: int) {
    RowExpires(v.agent, rows, cutoff) || (v.agent !in rows && v.age.CreatedAt? && v.age.time < cutoff)
  }

  /** Every fate of a volume, from its row, its age and the daemon's answer. */
  lemma VolumeFateExactly(v: Volume, rows: Rows, cutoff: int, armed: bool)
    ensures
      var f := VolumeOutcome(v, rows, cutoff, armed).fate;
      var due := VolumeDue(v, rows, cutoff);
      && (f == KeptLive <==> RowIsLive(v.agent, rows))
      && (f == KeptRetained <==>
            RowRecent(v.agent, rows, cutoff) || (v.agent !in rows && v.age.CreatedAt? && v.age.time >= cutoff))
      && (f == Purged <==> due && armed && v.removable)
      && (f == WouldPurge <==> due && !armed) && (VolumeOutcome(v, rows, cutoff, armed).marked <==> due)
      && (f == Declined <==> (due && armed && !v.removable) || (v.agent !in rows && !v.age.CreatedAt?))
  {
  }

  predicate SessionOrphan(v: SessionVolume, agents: Rows, rooms: Rows) {
    v.agent !in agents || v.room !in rooms
  }

  /** Either row has left the window, or one is missing and the volume is older than the cutoff.
      When asking for its age raises, a missing row of either kind keeps it. */
  predicate SessionDue(v: SessionVolume, agents: Rows, rooms: Rows, cutoff: int) {
    var orphan := SessionOrphan(v, agents, rooms);
    && (orphan ==> v.age != Raises)
    && (RowExpires(v.agent, agents, cutoff) || RowExpires(v.room, rooms, cutoff)
        || (orphan && v.age.CreatedAt? && v.age.time < cutoff))
  }

  /** A session volume is live only with both its rows live, and due once either row is. */
  lemma SessionFateExactly(v: SessionVolume, agents: Rows, rooms: Rows, cutoff: int, armed: bool)
    ensures
      var f := SessionOutcome(v, agents, rooms, cutoff, armed).fate;
      var orphan := SessionOrphan(v, agents, rooms);
      var due := SessionDue(v, agents, rooms, cutoff);
      && (f == KeptLive <==> RowIsLive(v.agent, agents) && RowIsLive(v.room, rooms))
      && (f == Purged <==> due && armed && v.removable)
      && (f == WouldPurge <==> due && !armed) && (SessionOutcome(v, agents, rooms, cutoff, armed).marked <==> due)
      && (f == KeptRetained <==>
            && !due && (orphan ==> v.age != Raises)
            && (RowRecent(v.agent, agents, cutoff) || RowRecent(v.room, rooms, cutoff)
                || (orphan && v.age.CreatedAt?)))
  {
  }

  /** Every object with a name can be removed. */
  predicate AllRemovable(objects: seq<Object>) {
    forall i :: 0 <= i < |objects| && objects[i].name != "" ==> objects[i].removable
  }

  lemma {:induction false} NamedAllRemovable(objects: seq<Object>)
    ensures AllRemovable(Named(objects)) <==> AllRemovable(objects)
    ensures forall o :: o in Named(objects) ==> o.name != ""
  {
    if objects == [] {
    } else {
      var n := |objects| - 1;
      NamedAllRemovable(objects[..n]);
      AllRemovableAppend(objects[..n], objects[n]);
      AllRemovableAppend(Named(objects[..n]), objects[n]);
      assert objects == objects[..n] + [objects[n]];
      assert Named(objects[..n]) + [] == Named(objects[..n]);
    }
  }

  lemma AllRemovableAppend(objects: seq<Object>, o: Object)
    ensures AllRemovable(objects + [o]) <==> AllRemovable(objects) && (o.name != "" ==> o.removable)
  {
    assert forall i :: 0 <= i < |objects| ==> (objects + [o])[i] == objects[i];
    assert (objects + [o])[|objects|] == o;
  }

  predicate HasName(o: Object) {
    o.name != ""
  }

  /** The named objects are those of the listing with a name, in its order, as often as they occur. */
  lemma {:induction false} NamedSelects(objects: seq<Object>) returns (at: seq<nat>)
    ensures Selects(objects, HasName, Named(objects), at)
  {
    if objects == [] {
      at := [];
    } else {
      var n := |objects| - 1;
      at := NamedSelects(objects[..n]);
      SelectsAppend(objects[..n], HasName, Named(objects[..n]), at, objects[n]);
      assert objects == objects[..n] + [objects[n]];
      if objects[n].name == "" {
        assert Named(objects) == Named(objects[..n]);
      } else {
        at := at + [n];
      }
    }
  }

  /** `names` are, in order, the names of the named objects before position `stop`, found at `at`, and
      `stop` is the first named object that refuses, or the end. */
  ghost predicate DeletesUpTo(objects: seq<Object>, names: seq<string>, at: seq<nat>, stop: nat) {
    && stop <= |objects|
    && (forall i :: 0 <= i < stop && objects[i].name != "" ==> objects[i].removable)
    && (stop < |objects| ==> objects[stop].name != "" && !objects[stop].removable)
    && |at| == |names|
    && (forall k :: 0 <= k < |at| ==> at[k] < stop && names[k] == objects[at[k]].name)
    && (forall j, k :: 0 <= j < k < |at| ==> at[j] < at[k])
    && (forall i: nat :: i in at <==> i < stop && objects[i].name != "")
  }

  lemma PrefixPositions(all: seq<nat>, n: nat, stop: nat, i: nat)
    requires n <= |all| && forall j, k :: 0 <= j < k < |all| ==> all[j] < all[k]
    requires (n < |all| ==> stop == all[n]) && (n == |all| ==> forall k :: 0 <= k < |all| ==> all[k] < stop)
    ensures i in all[..n] <==> i in all && i < stop
  {
    if i in all[..n] {
      var k :| 0 <= k < n && all[..n][k] == i;
      assert all[k] == i;
    }
    if i in all && i < stop {
      var k :| 0 <= k < |all| && all[k] == i;
      assert all[..n][k] == i;
    }
  }

  /** What deleting a listing takes: each named object once, in order, up to the first that refuses. */
  lemma DeletionExactly(objects: seq<Object>) returns (at: seq<nat>, stop: nat)
    ensures DeletesUpTo(objects, RemovedNames(Named(objects)), at, stop)
    ensures stop == |objects| <==> |RemovedNames(Named(objects))| == |Named(objects)|
  {
    var all := NamedSelects(objects);
    var n := RemovablePrefix(Named(objects));
    stop := if n < |all| then all[n] else |objects|;
    at := all[..n];
    forall i: nat ensures i in at <==> i < stop && objects[i].name != "" {
      PrefixPositions(all, n, stop, i);
    }
    forall i | 0 <= i < stop && objects[i].name != "" ensures objects[i].removable {
      assert i in at;
      var k :| 0 <= k < |at| && at[k] == i;
      assert Named(objects)[k] == objects[i];
    }
    if n < |all| {
      assert all[n] in all && Named(objects)[n] == objects[stop];
    }
  }

  predicate StampedThroughout(l: Listing) {
    l.Listed? && l.objects != [] && forall i :: 0 <= i < |l.objects| ==> l.objects[i].stamp.Some?
  }

  predicate OldThroughout(l: Listing, cutoff: int) {
    StampedThroughout(l) && forall i :: 0 <= i < |l.objects| ==> l.objects[i].stamp.value < cutoff
  }

  lemma OldThroughoutMeans(l: Listing, cutoff: int)
    ensures ListingAge(l).CreatedAt? <==> StampedThroughout(l)
    ensures OldThroughout(l, cutoff) <==> ListingAge(l).CreatedAt? && ListingAge(l).time < cutoff
    ensures ListingAge(l) == Raises <==> l == ListFails
  {
    if l.Listed? && Newest(l.objects).Some? {
      var i :| 0 <= i < |l.objects| && l.objects[i].stamp == Newest(l.objects);
    }
  }

  /** The prefix can be listed, and its row has left the window, or is missing and everything in the
      prefix is older than the cutoff. */
  predicate PrefixDue(p: Prefix, rows: Rows, cutoff: int) {
    p.listing.Listed?
    && (RowExpires(p.agent, rows, cutoff) || (p.agent !in rows && OldThroughout(p.listing, cutoff)))
  }

  /** The fates of a workspace prefix. A prefix that is due is purged only when every named object
      could be deleted, and deletes nothing unless it is due and the sweep is armed. */
  lemma PrefixFateExactly(p: Prefix, rows: Rows, cutoff: int, armed: bool)
    ensures
      var o := PrefixOutcome(p, rows, cutoff, armed);
      var orphan := p.agent !in rows;
      var due := PrefixDue(p, rows, cutoff);
      && (o.fate == KeptLive <==> RowIsLive(p.agent, rows))
      && (o.fate == KeptRetained <==>
            || RowRecent(p.agent, rows, cutoff)
            || (orphan && StampedThroughout(p.listing) && !OldThroughout(p.listing, cutoff)))
      && (o.marked <==> due) && (o.fate == WouldPurge <==> due && !armed)
      && (o.fate == Purged <==> due && armed && AllRemovable(p.listing.objects))
      && o.removed == if due && armed then RemovedNames(Named(p.listing.objects)) else []
  {
    OldThroughoutMeans(p.listing, cutoff);
    if p.listing.Listed? {
      NamedAllRemovable(p.listing.objects);
    }
  }

  // ----- Counting -----

  function CountFate(os: seq<Outcome>, f: Fate): nat {
    if os == [] then 0 else CountFate(os[..|os| - 1], f) + if os[|os| - 1].fate == f then 1 else 0
  }

  function CountMarked(os: seq<Outcome>): nat {
    if os == [] then 0 else CountMarked(os[..|os| - 1]) + if os[|os| - 1].marked then 1 else 0
  }

  function AllRemoved(os: seq<Outcome>): seq<string> {
    if os == [] then [] else AllRemoved(os[..|os| - 1]) + os[|os| - 1].removed
  }

  function Tally(os: seq<Outcome>, armed: bool): SweepReport {
    SweepReport(|os|, CountFate(os, KeptLive), CountFate(os, KeptRetained), CountFate(os, Purged),
                CountMarked(os), CountFate(os, Declined), |AllRemoved(os)|, !armed)
  }

  /** What an outcome may be, given whether the sweep is armed. */
  predicate Coherent(o: Outcome, armed: bool) {
    if armed then o.fate != WouldPurge && (o.fate == Purged ==> o.marked)
    else o.fate != Purged && (o.marked <==> o.fate == WouldPurge) && o.removed == []
  }

  predicate Conserves(r: SweepReport, armed: bool) {
    && r.dryRun == !armed
    && r.seen == r.live + r.retained + r.declined + (if armed then r.purged else r.wouldPurge)
    && r.purged <= r.wouldPurge
    && (!armed ==> r.purged == 0 && r.objectsRemoved == 0)
  }

  lemma {:induction false} TallyConserves(os: seq<Outcome>, armed: bool)
    requires forall o :: o in os ==> Coherent(o, armed)
    ensures Conserves(Tally(os, armed), armed)
    ensures !armed ==> AllRemoved(os) == []
  {
    if os == [] {
    } else {
      assert os[|os| - 1] in os;
      TallyConserves(os[..|os| - 1], armed);
    }
  }

  function VolumeOutcomes(vs: seq<Volume>, rows: Rows, cutoff: int, armed: bool): (os: seq<Outcome>)
    ensures forall o :: o in os ==> Coherent(o, armed) && o.removed == []
  {
    seq(|vs|, i requires 0 <= i < |vs| => VolumeOutcome(vs[i], rows, cutoff, armed))
  }

  function SessionOutcomes(vs: seq<SessionVolume>, agents: Rows, rooms: Rows, cutoff: int, armed: bool):
    (os: seq<Outcome>)
    ensures forall o :: o in os ==> Coherent(o, armed) && o.removed == []
  {
    seq(|vs|, i requires 0 <= i < |vs| => SessionOutcome(vs[i], agents, rooms, cutoff, armed))
  }

  function PrefixOutcomes(ps: seq<Prefix>, rows: Rows, cutoff: int, armed: bool): (os: seq<Outcome>)
    ensures forall o :: o in os ==> Coherent(o, armed)
  {
    seq(|ps|, i requires 0 <= i < |ps| => PrefixOutcome(ps[i], rows, cutoff, armed))
  }

  /** The positions of the purged artifacts. */
  function PurgedAt(os: seq<Outcome>): (at: set<nat>)
    ensures forall i :: i in at <==> 0 <= i < |os| && os[i].fate == Purged
  {
    if os == [] then {}
    else
      var n := |os| - 1;
      PurgedAt(os[..n]) + if os[n].fate == Purged then {n} else {}
  }

  /** The positions an outcome of which has fate `f`, and those marked purgeable. */
  ghost function FateAt(os: seq<Outcome>, f: Fate): set<nat> {
    set i: nat | i < |os| && os[i].fate == f
  }

  ghost function MarkedAt(os: seq<Outcome>): set<nat> {
    set i: nat | i < |os| && os[i].marked
  }

  lemma FateAtStep(os: seq<Outcome>, f: Fate, n: nat)
    requires n == |os| - 1
    ensures |FateAt(os, f)| == |FateAt(os[..n], f)| + if os[n].fate == f then 1 else 0
  {
    var before := FateAt(os[..n], f);
    assert n !in before;
    assert FateAt(os, f) == if os[n].fate == f then before + {n} else before;
  }

  lemma MarkedAtStep(os: seq<Outcome>, n: nat)
    requires n == |os| - 1
    ensures |MarkedAt(os)| == |MarkedAt(os[..n])| + if os[n].marked then 1 else 0
  {
    var before := MarkedAt(os[..n]);
    assert n !in before;
    assert MarkedAt(os) == if os[n].marked then before + {n} else before;
  }

  /** The counters count positions. */
  lemma {:induction false} CountersCount(os: seq<Outcome>, f: Fate)
    ensures CountFate(os, f) == |FateAt(os, f)| && CountMarked(os) == |MarkedAt(os)|
  {
    if os == [] {
      assert FateAt(os, f) == {} && MarkedAt(os) == {};
    } else {
      var n := |os| - 1;
      CountersCount(os[..n], f);
      FateAtStep(os, f, n);
      MarkedAtStep(os, n);
    }
  }

  /** The purge counter counts artifacts that were removed. */
  lemma PurgedCountsRemovals(os: seq<Outcome>)
    ensures |PurgedAt(os)| == CountFate(os, Purged)
  {
    CountersCount(os, Purged);
    assert PurgedAt(os) == FateAt(os, Purged);
  }

  /** The removed objects of a pass are those of its prefixes, one prefix after the other. */
  lemma {:induction false} AllRemovedConcat(a: seq<Outcome>, b: seq<Outcome>)
    ensures AllRemoved(a + b) == AllRemoved(a) + AllRemoved(b)
    ensures forall o :: AllRemoved([o]) == o.removed
  {
    forall o ensures AllRemoved([o]) == o.removed {
      assert [o][..0] == [];
    }
    if b == [] {
      assert a + b == a;
    } else {
      var n := |b| - 1;
      AllRemovedConcat(a, b[..n]);
      assert (a + b)[..|a| + n] == a + b[..n];
    }
  }

  // ----- What the reports count -----

  /** A volume sweep counts as live the volumes with a live row, as purgeable those that are due, as
      purged those of them that went, and as retained those young by row or age. */
  lemma VolumeReportExactly(vs: seq<Volume>, rows: Rows, cutoff: int, armed: bool)
    ensures
      var r := Tally(VolumeOutcomes(vs, rows, cutoff, armed), armed);
      && r.seen == |vs| && r.dryRun == !armed && r.objectsRemoved == 0
      && r.live == |set i: nat | i < |vs| && RowIsLive(vs[i].agent, rows)|
      && r.wouldPurge == |set i: nat | i < |vs| && VolumeDue(vs[i], rows, cutoff)|
      && r.purged == |set i: nat | i < |vs| && VolumeDue(vs[i], rows, cutoff) && armed && vs[i].removable|
      && r.retained ==
         |set i: nat | i < |vs| && (RowRecent(vs[i].agent, rows, cutoff)
                                    || (vs[i].agent !in rows && vs[i].age.CreatedAt? && vs[i].age.time >= cutoff))|
  {
    var os := VolumeOutcomes(vs, rows, cutoff, armed);
    forall i: nat | i < |vs| ensures os[i] == VolumeOutcome(vs[i], rows, cutoff, armed) {
    }
    forall i: nat | i < |vs| { VolumeFateExactly(vs[i], rows, cutoff, armed); }
    CountersCount(os, KeptLive);
    CountersCount(os, Purged);
    CountersCount(os, KeptRetained);
    assert FateAt(os, KeptLive) == set i: nat | i < |vs| && RowIsLive(vs[i].agent, rows);
    assert MarkedAt(os) == set i: nat | i < |vs| && VolumeDue(vs[i], rows, cutoff);
    assert FateAt(os, Purged) == set i: nat | i < |vs| && VolumeDue(vs[i], rows, cutoff) && armed && vs[i].removable;
    assert FateAt(os, KeptRetained) ==
           set i: nat | i < |vs| && (RowRecent(vs[i].agent, rows, cutoff)
                                     || (vs[i].agent !in rows && vs[i].age.CreatedAt? && vs[i].age.time >= cutoff));
    NothingRemoved(os);
  }

  /** The same for session volumes, judged on two tables. */
  lemma SessionReportExactly(vs: seq<SessionVolume>, agents: Rows, rooms: Rows, cutoff: int, armed: bool)
    ensures
      var r := Tally(SessionOutcomes(vs, agents, rooms, cutoff, armed), armed);
      && r.seen == |vs| && r.dryRun == !armed && r.objectsRemoved == 0
      && r.live == |set i: nat | i < |vs| && RowIsLive(vs[i].agent, agents) && RowIsLive(vs[i].room, rooms)|
      && r.wouldPurge == |set i: nat | i < |vs| && SessionDue(vs[i], agents, rooms, cutoff)|
      && r.purged == |set i: nat | i < |vs| && SessionDue(vs[i], agents, rooms, cutoff) && armed && vs[i].removable|
  {
    var os := SessionOutcomes(vs, agents, rooms, cutoff, armed);
    forall i: nat | i < |vs| ensures os[i] == SessionOutcome(vs[i], agents, rooms, cutoff, armed) {
    }
    forall i: nat | i < |vs| { SessionFateExactly(vs[i], agents, rooms, cutoff, armed); }
    CountersCount(os, KeptLive);
    CountersCount(os, Purged);
    assert FateAt(os, KeptLive) ==
           set i: nat | i < |vs| && RowIsLive(vs[i].agent, agents) && RowIsLive(vs[i].room, rooms);
    assert MarkedAt(os) == set i: nat | i < |vs| && SessionDue(vs[i], agents, rooms, cutoff);
    assert FateAt(os, Purged) ==
           set i: nat | i < |vs| && SessionDue(vs[i], agents, rooms, cutoff) && armed && vs[i].removable;
    NothingRemoved(os);
  }

  /** And for prefixes, whose purge counter counts those emptied whole. */
  lemma PrefixReportExactly(ps: seq<Prefix>, rows: Rows, cutoff: int, armed: bool)
    ensures
      var r := Tally(PrefixOutcomes(ps, rows, cutoff, armed), armed);
      && r.seen == |ps| && r.dryRun == !armed
      && r.live == |set i: nat | i < |ps| && RowIsLive(ps[i].agent, rows)|
      && r.wouldPurge == |set i: nat | i < |ps| && PrefixDue(ps[i], rows, cutoff)|
      && r.purged ==
         |set i: nat | i < |ps| && PrefixDue(ps[i], rows, cutoff) && armed && AllRemovable(ps[i].listing.objects)|
  {
    var os := PrefixOutcomes(ps, rows, cutoff, armed);
    forall i: nat | i < |ps| ensures os[i] == PrefixOutcome(ps[i], rows, cutoff, armed) {
    }
    forall i: nat | i < |ps| { PrefixFateExactly(ps[i], rows, cutoff, armed); }
    CountersCount(os, KeptLive);
    CountersCount(os, Purged);
    assert FateAt(os, KeptLive) == set i: nat | i < |ps| && RowIsLive(ps[i].agent, rows);
    assert MarkedAt(os) == set i: nat | i < |ps| && PrefixDue(ps[i], rows, cutoff);
    assert FateAt(os, Purged) ==
           set i: nat | i < |ps| && PrefixDue(ps[i], rows, cutoff) && armed && AllRemovable(ps[i].listing.objects);
  }

  lemma {:induction false} NothingRemoved(os: seq<Outcome>)
    requires forall o :: o in os ==> o.removed == []
    ensures AllRemoved(os) == []
  {
    if os == [] {
    } else {
      assert os[|os| - 1] in os;
      NothingRemoved(os[..|os| - 1]);
    }
  }

  /** One more artifact. */
  lemma TallyStep(os: seq<Outcome>, i: nat)
    requires i < |os|
    ensures forall f :: CountFate(os[..i + 1], f) == CountFate(os[..i], f) + if os[i].fate == f then 1 else 0
    ensures CountMarked(os[..i + 1]) == CountMarked(os[..i]) + if os[i].marked then 1 else 0
    ensures PurgedAt(os[..i + 1]) == PurgedAt(os[..i]) + if os[i].fate == Purged then {i} else {}
    ensures AllRemoved(os[..i + 1]) == AllRemoved(os[..i]) + os[i].removed
  {
    assert os[..i + 1][..i] == os[..i];
  }

  // ----- The three sweeps -----

  method RemoveOrReport(removable: bool, armed: bool) returns (disposition: Fate)
    ensures disposition == WouldPurge <==> !armed
    ensures disposition == Purged <==> armed && removable
    ensures disposition == Declined <==> armed && !removable
  {
    if !armed {
      return WouldPurge;
    }
    if !removable {
      return Declined;
    }
    return Purged;
  }

  method SweepVolumes(volumes: seq<Volume>, rows: Rows, cutoff: int, armed: bool)
    returns (report: SweepReport, removed: set<nat>)
    ensures report == Tally(VolumeOutcomes(volumes, rows, cutoff, armed), armed)
    ensures removed == PurgedAt(VolumeOutcomes(volumes, rows, cutoff, armed))
  {
    ghost var os := VolumeOutcomes(volumes, rows, cutoff, armed);
    var live: nat, retained: nat, purged: nat, would: nat, declined: nat := 0, 0, 0, 0, 0;
    removed := {};
    for i := 0 to |volumes|
      invariant live == CountFate(os[..i], KeptLive) && retained == CountFate(os[..i], KeptRetained)
      invariant purged == CountFate(os[..i], Purged) && declined == CountFate(os[..i], Declined)
      invariant would == CountMarked(os[..i]) && AllRemoved(os[..i]) == []
      invariant removed == PurgedAt(os[..i])
    {
      TallyStep(os, i);
      var verdict := Classify(volumes[i].agent, rows, cutoff, volumes[i].age);
      if verdict.Failed? {
        declined := declined + 1;
      } else if !verdict.purge {
        if verdict.reason == RowLive {
          live := live + 1;
        } else if ExpectedKeep(verdict.reason) {
          retained := retained + 1;
        } else {
          declined := declined + 1;
        }
      } else {
        would := would + 1;
        var disposition := RemoveOrReport(volumes[i].removable, armed);
        if disposition == Purged {
          purged := purged + 1;
          removed := removed + {i};
        } else if disposition == Declined {
          declined := declined + 1;
        }
      }
    }
    assert os[..|volumes|] == os;
    report := SweepReport(|volumes|, live, retained, purged, would, declined, 0, !armed);
  }

  method SweepSessionVolumes(volumes: seq<SessionVolume>, agents: Rows, rooms: Rows, cutoff: int, armed: bool)
    returns (report: SweepReport, removed: set<nat>)
    ensures report == Tally(SessionOutcomes(volumes, agents, rooms, cutoff, armed), armed)
    ensures removed == PurgedAt(SessionOutcomes(volumes, agents, rooms, cutoff, armed))
  {
    ghost var os := SessionOutcomes(volumes, agents, rooms, cutoff, armed);
    var live: nat, retained: nat, purged: nat, would: nat, declined: nat := 0, 0, 0, 0, 0;
    removed := {};
    for i := 0 to |volumes|
      invariant live == CountFate(os[..i], KeptLive) && retained == CountFate(os[..i], KeptRetained)
      invariant purged == CountFate(os[..i], Purged) && declined == CountFate(os[..i], Declined)
      invariant would == CountMarked(os[..i]) && AllRemoved(os[..i]) == []
      invariant removed == PurgedAt(os[..i])
    {
      TallyStep(os, i);
      var agent := Classify(volumes[i].agent, agents, cutoff, volumes[i].age);
      var room := Classify(volumes[i].room, rooms, cutoff, volumes[i].age);
      if agent.Failed? || room.Failed? {
        declined := declined + 1;
      } else if !(agent.purge || room.purge) {
        if agent.reason == RowLive && room.reason == RowLive {
          live := live + 1;
        } else if ExpectedKeep(agent.reason) || ExpectedKeep(room.reason) {
          retained := retained + 1;
        } else {
          declined := declined + 1;
        }
      } else {
        would := would + 1;
        var disposition := RemoveOrReport(volumes[i].removable, armed);
        if disposition == Purged {
          purged := purged + 1;
          removed := removed + {i};
        } else if disposition == Declined {
          declined := declined + 1;
        }
      }
    }
    assert os[..|volumes|] == os;
    report := SweepReport(|volumes|, live, retained, purged, would, declined, 0, !armed);
  }

  method NamedObjects(objects: seq<Object>) returns (names: seq<Object>)
    ensures names == Named(objects)
  {
    names := [];
    for i := 0 to |objects|
      invariant names == Named(objects[..i])
    {
      assert objects[..i + 1][..i] == objects[..i];
      if objects[i].name != "" {
        names := names + [objects[i]];
      }
    }
    assert objects[..|objects|] == objects;
  }

  /** Deletes the objects in order until one refuses. */
  method RemoveObjects(objects: seq<Object>) returns (removed: seq<string>, ok: bool)
    ensures removed == RemovedNames(objects)
    ensures ok <==> |removed| == |objects|
    ensures |removed| <= |objects| && (!ok ==> !objects[|removed|].removable)
    ensures forall i :: 0 <= i < |removed| ==> objects[i].removable && removed[i] == objects[i].name
  {
    removed := [];
    for k := 0 to |objects|
      invariant |removed| == k
      invariant forall i :: 0 <= i < k ==> objects[i].removable && removed[i] == objects[i].name
    {
      if !objects[k].removable {
        return removed, false;
      }
      removed := removed + [objects[k].name];
    }
    return removed, true;
  }

  /** The destructive step for one prefix. */
  method PurgePrefix(objects: seq<Object>, armed: bool) returns (fate: Fate, names: seq<string>)
    ensures
      var targets := Named(objects);
      if !armed then fate == WouldPurge && names == []
      else names == RemovedNames(targets) && fate == if |names| == |targets| then Purged else Declined
  {
    if !armed {
      return WouldPurge, [];
    }
    var targets := NamedObjects(objects);
    var ok: bool;
    names, ok := RemoveObjects(targets);
    return if ok then Purged else Declined, names;
  }

  method SweepWorkspaceObjects(prefixes: seq<Prefix>, rows: Rows, cutoff: int, armed: bool)
    returns (report: SweepReport, removed: seq<string>)
    ensures report == Tally(PrefixOutcomes(prefixes, rows, cutoff, armed), armed)
    ensures removed == AllRemoved(PrefixOutcomes(prefixes, rows, cutoff, armed))
  {
    ghost var os := PrefixOutcomes(prefixes, rows, cutoff, armed);
    var live: nat, retained: nat, purged: nat := 0, 0, 0;
    var would: nat, declined: nat, objects: nat := 0, 0, 0;
    removed := [];
    for i := 0 to |prefixes|
      invariant live == CountFate(os[..i], KeptLive) && retained == CountFate(os[..i], KeptRetained)
      invariant purged == CountFate(os[..i], Purged) && declined == CountFate(os[..i], Declined)
      invariant would == CountMarked(os[..i]) && objects == |removed|
      invariant removed == AllRemoved(os[..i])
    {
      TallyStep(os, i);
      var p := prefixes[i];
      var verdict := Classify(p.agent, rows, cutoff, ListingAge(p.listing));
      if verdict.Failed? {
        declined := declined + 1;
      } else if !verdict.purge {
        if verdict.reason == RowLive {
          live := live + 1;
        } else if ExpectedKeep(verdict.reason) {
          retained := retained + 1;
        } else {
          declined := declined + 1;
        }
      } else if p.listing.ListFails? {
        declined := declined + 1;
      } else {
        would := would + 1;
        var disposition, names := PurgePrefix(p.listing.objects, armed);
        assert os[i] == Outcome(disposition, true, names);
        removed := removed + names;
        objects := objects + |names|;
        if disposition == Purged {
          purged := purged + 1;
        } else if disposition == Declined {
          declined := declined + 1;
        }
      }
    }
    assert os[..|prefixes|] == os;
    report := SweepReport(|prefixes|, live, retained, purged, would, declined, objects, !armed);
  }
}
