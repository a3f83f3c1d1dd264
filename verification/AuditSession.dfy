/** The audit writer of one database session: rows written in the caller's transaction, a queue of
    events to publish once the transaction has committed, and a counter of lost isolated writes.

    The session also carries the caller's own statements and savepoints. A statement that fails
    leaves the transaction aborted: until it is rolled back, whole or to a savepoint, nothing more
    can be done in it, and a commit keeps nothing of it.

    Rows are numbered in the order they are written, which stands for their primary key. */
module AuditSession {
  import opened Base
  import opened JsonValues
  import opened AuditRedaction
  import Uuids

  /** `guestRoom` is the room of an actor who is an anonymous guest. */
  datatype Event = Event(action: string, actor: Option<nat>, ip: Option<string>, resourceType: Option<string>,
                         resource: Option<nat>, metadata: seq<Member>, session: Option<nat>, request: Option<nat>,
                         guestRoom: Option<nat>)

  /** The tail event of row `serial`. */
  datatype Payload = Payload(serial: nat, action: string, actor: Option<nat>, resourceType: Option<string>,
                             resource: Option<nat>)

  datatype Row = Row(serial: nat, action: string, actor: Option<nat>, ip: Option<string>,
                     resourceType: Option<string>, resource: Option<nat>, metadata: Json,
                     session: Option<nat>, request: Option<nat>)

  /** `savepoints` holds, for each open savepoint, the serial the next row had when it was set. */
  datatype State = State(
    serial: nat,
    committed: seq<Row>,
    pending: seq<Row>,
    savepoints: seq<nat>,
    aborted: bool,
    queue: seq<Payload>,
    failures: nat)

  /** `written` and `ok` say whether the statement would succeed in a transaction that is not
      aborted. `Work` is any other statement of the caller; `depth` counts the open savepoints
      outside the one that is named. */
  datatype Op =
    | Emit(event: Event, isolated: bool, written: bool)
    | Work(ok: bool)
    | Savepoint
    | Release(depth: nat)
    | RollbackTo(depth: nat)
    | Commit
    | Rollback
    | Flush

  const INITIAL := State(0, [], [], [], false, [], 0)

  /** The caller's metadata, tagged when the actor is a guest. */
  function MetadataOf(e: Event): seq<Member> {
    match e.guestRoom
    case None => e.metadata
    case Some(room) => Put(Put(e.metadata, "guest", Bool(true)), "chatroom_id", Str(Uuids.Text(room)))
  }

  function RowOf(p: Policy, serial: nat, e: Event): Row {
    Row(serial, e.action, e.actor, e.ip, e.resourceType, e.resource, Redact(p, Obj(MetadataOf(e))),
        e.session, e.request)
  }

  function PayloadOf(serial: nat, e: Event): Payload {
    Payload(serial, e.action, e.actor, e.resourceType, e.resource)
  }

  /** The rows that rolling back to a savepoint leaves. */
  function WrittenBefore(rows: seq<Row>, serial: nat): (kept: seq<Row>)
    ensures forall r :: r in kept <==> r in rows && r.serial < serial
  {
    if rows == [] then []
    else
      var n := |rows| - 1;
      assert rows == rows[..n] + [rows[n]];
      WrittenBefore(rows[..n], serial) + if rows[n].serial < serial then [rows[n]] else []
  }

  function Next(p: Policy, s: State, op: Op): State {
    match op
    case Emit(e, isolated, written) =>
      if written && !s.aborted then
        s.(serial := s.serial + 1,
           pending := s.pending + [RowOf(p, s.serial, e)],
           queue := s.queue + [PayloadOf(s.serial, e)])
      else if isolated then s.(failures := s.failures + 1)
      else s.(aborted := true)
    case Work(ok) => s.(aborted := s.aborted || !ok)
    case Savepoint => if s.aborted then s else s.(savepoints := s.savepoints + [s.serial])
    case Release(depth) =>
      if s.aborted then s
      else if depth < |s.savepoints| then s.(savepoints := s.savepoints[..depth])
      else s.(aborted := true)
    case RollbackTo(depth) =>
      if depth < |s.savepoints| then
        s.(pending := WrittenBefore(s.pending, s.savepoints[depth]),
           savepoints := s.savepoints[..depth],
           aborted := false)
      else s.(aborted := true)
    case Commit =>
      s.(committed := if s.aborted then s.committed else s.committed + s.pending,
         pending := [], savepoints := [], aborted := false)
    case Rollback => s.(pending := [], savepoints := [], aborted := false)
    case Flush => s.(queue := [])
  }

  function Run(p: Policy, ops: seq<Op>): State {
    if ops == [] then INITIAL else Next(p, Run(p, ops[..|ops| - 1]), ops[|ops| - 1])
  }

  // ----- The code -----

  datatype Outcome = Written | Lost | Raised

  class Session {
    const policy: Policy
    var serial: nat
    var committed: seq<Row>
    var pending: seq<Row>
    var savepoints: seq<nat>
    var aborted: bool
    var queue: seq<Payload>
    var failures: nat

    constructor (policy: Policy)
      ensures View() == INITIAL && this.policy == policy
    {
      this.policy := policy;
      serial, committed, pending, savepoints, aborted, queue, failures := 0, [], [], [], false, [], 0;
    }

    ghost function View(): State
      reads this
    {
      State(serial, committed, pending, savepoints, aborted, queue, failures)
    }

    /** Inserts the redacted row and queues its tail event, or reports what became of the failure. */
    method EmitEvent(event: Event, isolated: bool, written: bool) returns (outcome: Outcome)
      requires WellFormedMembers(event.metadata)
      modifies this
      ensures View() == Next(policy, old(View()), Emit(event, isolated, written))
      ensures outcome == Written <==> written && !old(aborted)
      ensures outcome == Lost <==> !(written && !old(aborted)) && isolated
      ensures committed == old(committed) && savepoints == old(savepoints)
      ensures
        match outcome
        case Written =>
          && |pending| == |old(pending)| + 1 && pending[..|old(pending)|] == old(pending)
          && pending[|old(pending)|].serial == old(serial) && Records(policy, pending[|old(pending)|], event)
          && |queue| == |old(queue)| + 1 && queue[..|old(queue)|] == old(queue)
          && queue[|old(queue)|].serial == old(serial) && Announces(queue[|old(queue)|], event)
          && serial == old(serial) + 1 && failures == old(failures) && !aborted
        case Lost =>
          && pending == old(pending) && queue == old(queue) && serial == old(serial)
          && failures == old(failures) + 1 && aborted == old(aborted)
        case Raised =>
          && pending == old(pending) && queue == old(queue) && serial == old(serial)
          && failures == old(failures) && aborted
    {
      var metadata := event.metadata;
      if event.guestRoom.Some? {
        PutKeepsWellFormed(metadata, "guest", Bool(true));
        metadata := Put(metadata, "guest", Bool(true));
        var room := Str(Uuids.Text(event.guestRoom.value));
        PutKeepsWellFormed(metadata, "chatroom_id", room);
        metadata := Put(metadata, "chatroom_id", room);
      }
      var payload := RedactValue(policy, Obj(metadata));
      if !written || aborted {
        if isolated {
          failures := failures + 1;
          return Lost;
        }
        aborted := true;
        return Raised;
      }
      pending := pending + [Row(serial, event.action, event.actor, event.ip, event.resourceType, event.resource,
                                payload, event.session, event.request)];
      queue := queue + [Payload(serial, event.action, event.actor, event.resourceType, event.resource)];
      RowRecords(policy, serial, event);
      serial := serial + 1;
      return Written;
    }

    method WriteFailures() returns (n: nat)
      ensures n == View().failures
    {
      return failures;
    }

    /** Publishes in order, swallowing failed deliveries, and leaves the queue empty. */
    method FlushTailEvents(delivers: Payload -> bool) returns (published: seq<Payload>)
      modifies this
      ensures View() == Next(policy, old(View()), Flush)
      ensures published == Delivered(delivers, old(View()).queue)
      ensures queue == [] && committed == old(committed) && pending == old(pending)
    {
      var events := queue;
      queue := [];
      published := [];
      for i := 0 to |events|
        invariant published == Delivered(delivers, events[..i])
        invariant View() == Next(policy, old(View()), Flush)
      {
        assert events[..i + 1][..i] == events[..i];
        if delivers(events[i]) {
          published := published + [events[i]];
        }
      }
      assert events[..|events|] == events;
    }
  }

  function Delivered(delivers: Payload -> bool, events: seq<Payload>): seq<Payload> {
    if events == [] then []
    else
      var last := events[|events| - 1];
      Delivered(delivers, events[..|events| - 1]) + if delivers(last) then [last] else []
  }

  /** What is published is the queued events whose delivery succeeds, in order. */
  lemma {:induction false} DeliveredSelects(delivers: Payload -> bool, events: seq<Payload>) returns (at: seq<nat>)
    ensures Selects(events, delivers, Delivered(delivers, events), at)
  {
    if events == [] {
      at := [];
    } else {
      var n := |events| - 1;
      at := DeliveredSelects(delivers, events[..n]);
      SelectsAppend(events[..n], delivers, Delivered(delivers, events[..n]), at, events[n]);
      assert events == events[..n] + [events[n]];
      if delivers(events[n]) {
        at := at + [n];
      } else {
        assert Delivered(delivers, events) == Delivered(delivers, events[..n]);
      }
    }
  }

  // ----- What a row and an event say -----

  /** The value a row keeps under key `k` before redaction: the guest's tag, or else the caller's. */
  function Tagged(e: Event, k: string): Option<Json> {
    if e.guestRoom.Some? && k == "guest" then Some(Bool(true))
    else if e.guestRoom.Some? && k == "chatroom_id" then Some(Str(Uuids.Text(e.guestRoom.value)))
    else Get(e.metadata, k)
  }

  function Masked(p: Policy, k: string, v: Option<Json>): Option<Json> {
    match v
    case None => None
    case Some(j) => Some(if p.sensitiveKey(k) then Str("<redacted>") else Redact(p, j))
  }

  /** The row says who did what to which resource, from where and in which session and request, and
      keeps the metadata key by key, redacted. */
  ghost predicate Records(p: Policy, r: Row, e: Event) {
    && r.action == e.action && r.actor == e.actor && r.ip == e.ip
    && r.resourceType == e.resourceType && r.resource == e.resource
    && r.session == e.session && r.request == e.request
    && r.metadata.Obj? && forall k :: Get(r.metadata.members, k) == Masked(p, k, Tagged(e, k))
  }

  predicate Announces(a: Payload, e: Event) {
    a.action == e.action && a.actor == e.actor && a.resourceType == e.resourceType && a.resource == e.resource
  }

  lemma GetMetadata(e: Event, k: string)
    ensures Get(MetadataOf(e), k) == Tagged(e, k)
  {
    if e.guestRoom.Some? {
      var room := Str(Uuids.Text(e.guestRoom.value));
      GetPut(e.metadata, "guest", Bool(true), k);
      GetPut(Put(e.metadata, "guest", Bool(true)), "chatroom_id", room, k);
    }
  }

  lemma RowRecords(p: Policy, serial: nat, e: Event)
    ensures Records(p, RowOf(p, serial, e), e)
  {
    forall k ensures Get(RedactMembers(p, MetadataOf(e)), k) == Masked(p, k, Tagged(e, k)) {
      GetMetadata(e, k);
      GetRedacted(p, MetadataOf(e), k);
    }
  }

  lemma {:induction false} GetRedacted(p: Policy, ms: seq<Member>, k: string)
    ensures Get(RedactMembers(p, ms), k) ==
            match Get(ms, k)
            case None => None
            case Some(v) => Some(if p.sensitiveKey(k) then Str(REDACTED) else Redact(p, v))
  {
    if ms == [] {
    } else {
      GetRedacted(p, ms[1..], k);
      assert RedactMembers(p, ms)[1..] == RedactMembers(p, ms[1..]);
    }
  }

  /** The stored row of a guest's event names the guest's room whatever the caller put under those
      keys, and every other key is the caller's, redacted. */
  lemma StoredRowTagsTheGuest(p: Policy, r: Row, e: Event, k: string)
    requires Records(p, r, e) && e.guestRoom.Some?
    requires !p.sensitiveKey("guest") && !p.sensitiveKey("chatroom_id") && !p.secret(Uuids.Text(e.guestRoom.value))
    ensures Get(r.metadata.members, "guest") == Some(Bool(true))
    ensures Get(r.metadata.members, "chatroom_id") == Some(Str(Uuids.Text(e.guestRoom.value)))
    ensures k != "guest" && k != "chatroom_id" ==> Get(r.metadata.members, k) == Masked(p, k, Get(e.metadata, k))
  {
    assert Get(r.metadata.members, "guest") == Masked(p, "guest", Tagged(e, "guest"));
    assert Get(r.metadata.members, "chatroom_id") == Masked(p, "chatroom_id", Tagged(e, "chatroom_id"));
  }

  // ----- Histories -----

  /** What a history leaves open: whether the transaction is aborted, and the positions at which its
      open savepoints were set. */
  datatype Tx = Tx(aborted: bool, savepoints: seq<nat>)

  /** What the operation at position `n` leaves of it. */
  function OpenNext(t: Tx, op: Op, n: nat): Tx {
    match op
    case Emit(_, isolated, written) => t.(aborted := t.aborted || (!isolated && !written))
    case Work(ok) => t.(aborted := t.aborted || !ok)
    case Savepoint => if t.aborted then t else t.(savepoints := t.savepoints + [n])
    case Release(depth) =>
      if t.aborted then t
      else if depth < |t.savepoints| then t.(savepoints := t.savepoints[..depth])
      else t.(aborted := true)
    case RollbackTo(depth) =>
      if depth < |t.savepoints| then Tx(false, t.savepoints[..depth]) else t.(aborted := true)
    case Commit => Tx(false, [])
    case Rollback => Tx(false, [])
    case Flush => t
  }

  function Open(ops: seq<Op>): (t: Tx)
    ensures forall d :: 0 <= d < |t.savepoints| ==> t.savepoints[d] < |ops|
    ensures forall d, e :: 0 <= d < e < |t.savepoints| ==> t.savepoints[d] < t.savepoints[e]
  {
    if ops == [] then Tx(false, [])
    else
      var n := |ops| - 1;
      OpenNext(Open(ops[..n]), ops[n], n)
  }

  predicate Aborted(ops: seq<Op>) {
    Open(ops).aborted
  }

  /** The operation at `j` closes the savepoint set at `q`: it ends the transaction, or releases or rolls
      back to that savepoint or one set before it. */
  predicate Closes(ops: seq<Op>, j: nat, q: nat)
    requires j < |ops|
  {
    ClosesIn(Open(ops[..j]), ops[j], q)
  }

  predicate ClosesIn(open: Tx, op: Op, q: nat) {
    match op
    case Commit => true
    case Rollback => true
    case Release(d) => !open.aborted && d < |open.savepoints| && open.savepoints[d] <= q
    case RollbackTo(d) => d < |open.savepoints| && open.savepoints[d] <= q
    case _ => false
  }

  /** The operation at `q` set a savepoint and nothing has closed it. */
  predicate StillOpen(ops: seq<Op>, q: nat)
    requires q < |ops|
  {
    ops[q].Savepoint? && !Aborted(ops[..q]) && forall j :: q < j < |ops| ==> !Closes(ops, j, q)
  }

  lemma StillOpenStep(ops: seq<Op>, n: nat, q: nat)
    requires q < n == |ops| - 1
    ensures StillOpen(ops, q) <==> StillOpen(ops[..n], q) && !Closes(ops, n, q)
  {
    assert ops[..n][..q] == ops[..q];
    forall j | q < j < n ensures Closes(ops, j, q) == Closes(ops[..n], j, q) {
      assert ops[..n][..j] == ops[..j];
    }
  }

  lemma OlderThan(open: seq<nat>, d: nat, q: nat)
    requires d < |open| && forall i, j :: 0 <= i < j < |open| ==> open[i] < open[j]
    ensures q in open[..d] <==> q in open && q < open[d]
  {
    if q in open && q < open[d] {
      var i :| 0 <= i < |open| && open[i] == q;
      assert open[..d][i] == q;
    }
    if q in open[..d] {
      var i :| 0 <= i < d && open[..d][i] == q;
      assert open[i] == q;
    }
  }

  lemma OpenNextKeeps(t: Tx, op: Op, n: nat, q: nat)
    requires q < n && forall i, j :: 0 <= i < j < |t.savepoints| ==> t.savepoints[i] < t.savepoints[j]
    ensures q in OpenNext(t, op, n).savepoints <==> q in t.savepoints && !ClosesIn(t, op, q)
  {
    match op
    case Release(d) =>
      if d < |t.savepoints| { OlderThan(t.savepoints, d, q); }
    case RollbackTo(d) =>
      if d < |t.savepoints| { OlderThan(t.savepoints, d, q); }
    case _ =>
  }

  lemma OpenUnfold(ops: seq<Op>, n: nat, t: Tx)
    requires n == |ops| - 1 && t == Open(ops[..n])
    ensures Open(ops) == OpenNext(t, ops[n], n)
  {
  }

  lemma OpenStep(ops: seq<Op>, n: nat, q: nat)
    requires q < n == |ops| - 1
    ensures q in Open(ops).savepoints <==> q in Open(ops[..n]).savepoints && !Closes(ops, n, q)
  {
    var t := Open(ops[..n]);
    OpenUnfold(ops, n, t);
    OpenNextKeeps(t, ops[n], n, q);
    var t' := OpenNext(t, ops[n], n);
    assert Closes(ops, n, q) == ClosesIn(t, ops[n], q);
    assert q in t'.savepoints <==> q in t.savepoints && !ClosesIn(t, ops[n], q);
  }

  /** The open savepoints are, in order, those set and not closed since. */
  lemma {:induction false} OpenSavepointsExactly(ops: seq<Op>, q: nat)
    ensures q in Open(ops).savepoints <==> q < |ops| && StillOpen(ops, q)
  {
    if |ops| <= q {
    } else {
      var n := |ops| - 1;
      if q < n {
        OpenSavepointsExactly(ops[..n], q);
        StillOpenStep(ops, n, q);
        OpenStep(ops, n, q);
      } else {
        NewestSavepoint(ops, n);
      }
    }
  }

  lemma OpenNextAdds(t: Tx, op: Op, n: nat)
    requires forall d :: 0 <= d < |t.savepoints| ==> t.savepoints[d] < n
    ensures n in OpenNext(t, op, n).savepoints <==> op.Savepoint? && !t.aborted
  {
    if op.Savepoint? && !t.aborted {
      assert OpenNext(t, op, n).savepoints[|t.savepoints|] == n;
    }
  }

  lemma NewestSavepoint(ops: seq<Op>, n: nat)
    requires n == |ops| - 1
    ensures n in Open(ops).savepoints <==> ops[n].Savepoint? && !Aborted(ops[..n])
  {
    var t := Open(ops[..n]);
    OpenUnfold(ops, n, t);
    OpenNextAdds(t, ops[n], n);
    var t' := OpenNext(t, ops[n], n);
    assert n in t'.savepoints <==> ops[n].Savepoint? && !t.aborted;
  }

  /** The emit at position `i` wrote its row. */
  predicate Wrote(ops: seq<Op>, i: nat)
    requires i < |ops|
  {
    ops[i].Emit? && ops[i].written && !Aborted(ops[..i])
  }

  /** How many rows a history wrote, and so the serial of the next. */
  function Writes(ops: seq<Op>): nat {
    if ops == [] then 0
    else
      var n := |ops| - 1;
      Writes(ops[..n]) + if Wrote(ops, n) then 1 else 0
  }

  /** The isolated emits from position `from` on whose row was not written. */
  ghost function LostSince(ops: seq<Op>, from: nat): set<nat> {
    set i: nat | from <= i < |ops| && ops[i].Emit? && ops[i].isolated && !Wrote(ops, i)
  }

  lemma LostSinceStep(ops: seq<Op>, from: nat, n: nat)
    requires from <= n == |ops| - 1
    ensures |LostSince(ops, from)| ==
            |LostSince(ops[..n], from)| + if ops[n].Emit? && ops[n].isolated && !Wrote(ops, n) then 1 else 0
  {
    var before := LostSince(ops[..n], from);
    forall i: nat | i < n ensures Wrote(ops, i) == Wrote(ops[..n], i) {
      assert ops[..n][..i] == ops[..i];
    }
    assert n !in before;
    assert LostSince(ops, from) ==
           if ops[n].Emit? && ops[n].isolated && !Wrote(ops, n) then before + {n} else before;
  }

  lemma {:induction false} OpenAgrees(p: Policy, ops: seq<Op>)
    ensures Run(p, ops).aborted == Aborted(ops)
    ensures |Run(p, ops).savepoints| == |Open(ops).savepoints|
  {
    if ops == [] {
    } else {
      OpenAgrees(p, ops[..|ops| - 1]);
    }
  }

  /** What a step does to the counters and the queue, given whether it writes. */
  lemma StepCounts(p: Policy, s: State, op: Op, wrote: bool)
    requires wrote == (op.Emit? && op.written && !s.aborted)
    ensures
      var s' := Next(p, s, op);
      && s'.serial == s.serial + (if wrote then 1 else 0)
      && s'.failures == s.failures + (if op.Emit? && op.isolated && !wrote then 1 else 0)
      && (op.Flush? ==> s'.queue == [])
      && (!op.Flush? ==> s'.queue == s.queue + if wrote then [PayloadOf(s.serial, op.event)] else [])
  {
  }

  lemma RunStep(p: Policy, ops: seq<Op>, n: nat)
    requires n == |ops| - 1
    ensures
      var s, s', wrote := Run(p, ops[..n]), Run(p, ops), Wrote(ops, n);
      && s'.serial == s.serial + (if wrote then 1 else 0)
      && s'.failures == s.failures + (if ops[n].Emit? && ops[n].isolated && !wrote then 1 else 0)
      && (ops[n].Flush? ==> s'.queue == [])
      && (!ops[n].Flush? ==> s'.queue == s.queue + if wrote then [PayloadOf(s.serial, ops[n].event)] else [])
  {
    OpenAgrees(p, ops[..n]);
    StepCounts(p, Run(p, ops[..n]), ops[n], Wrote(ops, n));
  }

  lemma {:induction false} SerialsCountWrites(p: Policy, ops: seq<Op>)
    ensures Run(p, ops).serial == Writes(ops)
  {
    if ops == [] {
    } else {
      SerialsCountWrites(p, ops[..|ops| - 1]);
      RunStep(p, ops, |ops| - 1);
    }
  }

  /** Two readings of the counter differ by the isolated emits lost between them. */
  lemma {:induction false} FailuresCountLosses(p: Policy, ops: seq<Op>, from: nat)
    requires from <= |ops|
    ensures Run(p, ops).failures - Run(p, ops[..from]).failures == |LostSince(ops, from)|
  {
    if |ops| == from {
      assert ops[..from] == ops && LostSince(ops, from) == {};
    } else {
      var n := |ops| - 1;
      FailuresCountLosses(p, ops[..n], from);
      RunStep(p, ops, n);
      LostSinceStep(ops, from, n);
      assert ops[..n][..from] == ops[..from];
    }
  }

  // ----- Events and the rows behind them -----

  predicate HasRow(rows: seq<Row>, serial: nat) {
    exists i :: 0 <= i < |rows| && rows[i].serial == serial
  }

  /** The operation at `k` rolls back to a savepoint set before position `i`. */
  predicate Undoes(ops: seq<Op>, k: nat, i: nat)
    requires k < |ops|
  {
    var open := Open(ops[..k]).savepoints;
    ops[k].RollbackTo? && ops[k].depth < |open| && open[ops[k].depth] < i
  }

  /** What became, from position `from` on, of a row written at `i`: kept by a commit of a transaction
      not aborted by then, or lost to any other end of it or to a savepoint set before the row. */
  function Decision(ops: seq<Op>, i: nat, from: nat): Option<bool>
    decreases |ops| - from
  {
    if |ops| <= from then None
    else if ops[from].Commit? then Some(!Aborted(ops[..from]))
    else if ops[from].Rollback? || Undoes(ops, from, i) then Some(false)
    else Decision(ops, i, from + 1)
  }

  lemma {:induction false} DecisionAppend(ops: seq<Op>, op: Op, i: nat, from: nat)
    requires from <= |ops|
    ensures Decision(ops + [op], i, from) ==
            if Decision(ops, i, from).Some? then Decision(ops, i, from)
            else if op.Commit? then Some(!Aborted(ops))
            else if op.Rollback? || Undoes(ops + [op], |ops|, i) then Some(false) else None
    decreases |ops| - from
  {
    assert (ops + [op])[..from] == ops[..from];
    if from == |ops| {
      assert (ops + [op])[from] == op && ops[..from] == ops;
      assert Decision(ops + [op], i, from + 1) == None;
    } else {
      assert (ops + [op])[from] == ops[from];
      DecisionAppend(ops, op, i, from + 1);
    }
  }

  /** The statement at `i` fails outside a savepoint of its own. */
  predicate Breaks(ops: seq<Op>, i: nat)
    requires i < |ops|
  {
    match ops[i]
    case Emit(_, isolated, written) => !isolated && !written
    case Work(ok) => !ok
    case Release(depth) => depth >= |Open(ops[..i]).savepoints|
    case RollbackTo(depth) => depth >= |Open(ops[..i]).savepoints|
    case _ => false
  }

  /** The operation at `i` ends the transaction, or rolls back to an open savepoint. */
  predicate Clears(ops: seq<Op>, i: nat)
    requires i < |ops|
  {
    || ops[i].Commit? || ops[i].Rollback?
    || (ops[i].RollbackTo? && ops[i].depth < |Open(ops[..i]).savepoints|)
  }

  predicate BrokenSince(ops: seq<Op>, i: nat)
    requires i < |ops|
  {
    Breaks(ops, i) && forall j :: i < j < |ops| ==> !Clears(ops, j)
  }

  lemma BrokenSinceStep(ops: seq<Op>, n: nat, i: nat)
    requires i < n == |ops| - 1
    ensures BrokenSince(ops, i) <==> BrokenSince(ops[..n], i) && !Clears(ops, n)
  {
    forall j | 0 <= j < n ensures Breaks(ops, j) == Breaks(ops[..n], j) && Clears(ops, j) == Clears(ops[..n], j) {
      assert ops[..n][..j] == ops[..j];
    }
  }

  /** A transaction is aborted if and only if a statement failed in it, outside a savepoint of its
      own, and it has not been rolled back since, whole or to a savepoint. */
  lemma {:induction false} AbortedExactly(ops: seq<Op>)
    ensures Aborted(ops) <==> exists i :: 0 <= i < |ops| && BrokenSince(ops, i)
  {
    if ops == [] {
    } else {
      var n := |ops| - 1;
      AbortedExactly(ops[..n]);
      forall i | 0 <= i < n ensures BrokenSince(ops, i) <==> BrokenSince(ops[..n], i) && !Clears(ops, n) {
        BrokenSinceStep(ops, n, i);
      }
      assert BrokenSince(ops, n) <==> Breaks(ops, n);
    }
  }

  lemma {:induction false} WritesMonotone(ops: seq<Op>, a: nat, b: nat)
    requires a <= b <= |ops|
    ensures Writes(ops[..a]) <= Writes(ops[..b])
    ensures a < b && Wrote(ops, a) ==> Writes(ops[..a]) < Writes(ops[..b])
  {
    if a == b {
    } else {
      WritesMonotone(ops, a, b - 1);
      assert ops[..b][..b - 1] == ops[..b - 1];
    }
  }

  /** A savepoint remembers the serial of the next row at the position where it was set. */
  lemma {:induction false} SavepointSerials(p: Policy, ops: seq<Op>, d: nat)
    requires d < |Open(ops).savepoints|
    ensures d < |Run(p, ops).savepoints| && Run(p, ops).savepoints[d] == Writes(ops[..Open(ops).savepoints[d]])
  {
    var n := |ops| - 1;
    OpenAgrees(p, ops);
    OpenAgrees(p, ops[..n]);
    if d < |Open(ops[..n]).savepoints| {
      SavepointSerials(p, ops[..n], d);
      var q := Open(ops[..n]).savepoints[d];
      assert ops[..n][..q] == ops[..q];
    } else {
      SerialsCountWrites(p, ops[..n]);
    }
  }

  /** Rolling back to a savepoint takes the row written at `i` exactly when the savepoint is older. */
  lemma SavepointBeforeRow(p: Policy, ops: seq<Op>, d: nat, i: nat)
    requires d < |Open(ops).savepoints| && i < |ops| && Wrote(ops, i)
    ensures d < |Run(p, ops).savepoints|
    ensures Run(p, ops).savepoints[d] <= Writes(ops[..i]) <==> Open(ops).savepoints[d] < i
  {
    var q := Open(ops).savepoints[d];
    SavepointSerials(p, ops, d);
    SavepointsAreSavepoints(ops, d);
    if q < i {
      WritesMonotone(ops, q, i);
    } else {
      WritesMonotone(ops, i, q);
    }
  }

  lemma {:induction false} SavepointsAreSavepoints(ops: seq<Op>, d: nat)
    requires d < |Open(ops).savepoints|
    ensures ops[Open(ops).savepoints[d]].Savepoint?
  {
    var n := |ops| - 1;
    if d == |Open(ops[..n]).savepoints| {
    } else {
      SavepointsAreSavepoints(ops[..n], d);
    }
  }

  /** One operation moves a row as it decides it. */
  lemma RowStep(p: Policy, init: seq<Op>, op: Op, i: nat)
    requires i < |init| && Wrote(init, i)
    ensures
      var s, s', n := Run(p, init), Next(p, Run(p, init), op), Writes(init[..i]);
      && n < s.serial <= s'.serial
      && (HasRow(s'.committed, n) <==>
            HasRow(s.committed, n) || (op.Commit? && !Aborted(init) && HasRow(s.pending, n)))
      && (HasRow(s'.pending, n) <==>
            HasRow(s.pending, n) && !op.Commit? && !op.Rollback? && !Undoes(init + [op], |init|, i))
  {
    var s, n := Run(p, init), Writes(init[..i]);
    OpenAgrees(p, init);
    SerialsCountWrites(p, init);
    WritesMonotone(init, i, |init|);
    assert init[..|init|] == init && (init + [op])[..|init|] == init && (init + [op])[|init|] == op;
    if op.Emit? {
      HasRowConcat(s.pending, [RowOf(p, s.serial, op.event)], n);
    } else if op.Commit? {
      HasRowConcat(s.committed, s.pending, n);
    } else if op.RollbackTo? && op.depth < |s.savepoints| {
      SavepointBeforeRow(p, init, op.depth, i);
      HasRowBefore(s.pending, s.savepoints[op.depth], n);
    }
  }

  /** The row written at position `i` is committed, pending or gone, as it was decided. */
  lemma {:induction false} RowFollowsItsTransaction(p: Policy, ops: seq<Op>, i: nat)
    requires i < |ops| && Wrote(ops, i)
    ensures
      var s, n := Run(p, ops), Writes(ops[..i]);
      && n < s.serial
      && (HasRow(s.committed, n) <==> Decision(ops, i, i + 1) == Some(true))
      && (HasRow(s.pending, n) <==> Decision(ops, i, i + 1) == None)
    decreases |ops|
  {
    var m := |ops| - 1;
    var init, op := ops[..m], ops[m];
    assert ops == init + [op] && init[..i] == ops[..i];
    if i == m {
      NewRowIsPending(p, init, op);
    } else {
      RowFollowsItsTransaction(p, init, i);
      DecisionAppend(init, op, i, i + 1);
      RowStep(p, init, op, i);
    }
  }

  lemma NewRowIsPending(p: Policy, init: seq<Op>, op: Op)
    requires Wrote(init + [op], |init|)
    ensures
      var s, n := Next(p, Run(p, init), op), Writes(init);
      n < s.serial && HasRow(s.pending, n) && !HasRow(s.committed, n)
  {
    var s := Run(p, init);
    assert (init + [op])[..|init|] == init;
    OpenAgrees(p, init);
    SerialsCountWrites(p, init);
    SerialsBelow(p, init);
    assert Next(p, s, op).pending[|s.pending|] == RowOf(p, s.serial, op.event);
  }

  lemma HasRowConcat(a: seq<Row>, b: seq<Row>, n: nat)
    ensures HasRow(a + b, n) <==> HasRow(a, n) || HasRow(b, n)
  {
    if HasRow(a, n) {
      var i :| 0 <= i < |a| && a[i].serial == n;
      assert (a + b)[i] == a[i];
    }
    if HasRow(b, n) {
      var i :| 0 <= i < |b| && b[i].serial == n;
      assert (a + b)[|a| + i] == b[i];
    }
  }

  lemma HasRowBefore(rows: seq<Row>, serial: nat, n: nat)
    ensures HasRow(WrittenBefore(rows, serial), n) <==> HasRow(rows, n) && n < serial
  {
    var kept := WrittenBefore(rows, serial);
    if HasRow(rows, n) && n < serial {
      var i :| 0 <= i < |rows| && rows[i].serial == n;
      assert rows[i] in kept;
    }
    if HasRow(kept, n) {
      var i :| 0 <= i < |kept| && kept[i].serial == n;
      assert kept[i] in rows;
    }
  }

  /** Rows in the store are older than the next serial. */
  lemma {:induction false} SerialsBelow(p: Policy, ops: seq<Op>)
    ensures forall r :: r in Run(p, ops).committed ==> r.serial < Run(p, ops).serial
    ensures forall r :: r in Run(p, ops).pending ==> r.serial < Run(p, ops).serial
  {
    if ops == [] {
    } else {
      SerialsBelow(p, ops[..|ops| - 1]);
    }
  }

  // ----- Histories and what their rows say -----

  /** Every stored row was written by an emit of the history, and none by two. */
  lemma {:induction false} StoredRowHasItsWrite(p: Policy, ops: seq<Op>, r: Row) returns (i: nat)
    requires r in Run(p, ops).pending || r in Run(p, ops).committed
    ensures i < |ops| && Wrote(ops, i) && r == RowOf(p, Writes(ops[..i]), ops[i].event)
  {
    var n := |ops| - 1;
    var init := Run(p, ops[..n]);
    if r in init.pending || r in init.committed {
      i := StoredRowHasItsWrite(p, ops[..n], r);
      assert ops[..n][..i] == ops[..i];
    } else {
      i := n;
      OpenAgrees(p, ops[..n]);
      SerialsCountWrites(p, ops[..n]);
      assert ops[..n] == ops[..i];
    }
  }

  /** Over every history, a stored row with the serial of a write records the event of that write. */
  lemma StoredRowRecordsItsEvent(p: Policy, ops: seq<Op>, i: nat, r: Row)
    requires i < |ops| && Wrote(ops, i) && r.serial == Writes(ops[..i])
    requires r in Run(p, ops).pending || r in Run(p, ops).committed
    ensures Records(p, r, ops[i].event)
  {
    var j := StoredRowHasItsWrite(p, ops, r);
    if i < j {
      WritesMonotone(ops, i, j);
    } else if j < i {
      WritesMonotone(ops, j, i);
    }
    RowRecords(p, r.serial, ops[i].event);
  }

  /** The write at `i` has not been flushed. */
  predicate Unflushed(ops: seq<Op>, i: nat)
    requires i < |ops|
  {
    Wrote(ops, i) && forall j :: i < j < |ops| ==> !ops[j].Flush?
  }

  /** The event is that of the write at `i`, with its serial. */
  predicate EventOf(ops: seq<Op>, a: Payload, i: nat) {
    i < |ops| && ops[i].Emit? && a.serial == Writes(ops[..i]) && Announces(a, ops[i].event)
  }

  /** The queue announces, in order, exactly the writes no flush has followed, each with its serial. */
  ghost predicate QueuedAt(ops: seq<Op>, queue: seq<Payload>, at: seq<nat>) {
    && |at| == |queue|
    && (forall k :: 0 <= k < |at| ==> EventOf(ops, queue[k], at[k]))
    && (forall j, k :: 0 <= j < k < |at| ==> at[j] < at[k])
    && (forall i: nat :: i in at <==> i < |ops| && Unflushed(ops, i))
  }

  lemma UnflushedStep(ops: seq<Op>, n: nat, i: nat)
    requires i < n == |ops| - 1
    ensures Unflushed(ops, i) <==> Unflushed(ops[..n], i) && !ops[n].Flush?
  {
    assert ops[..n][..i] == ops[..i];
    if Unflushed(ops[..n], i) && !ops[n].Flush? {
      forall j | i < j < |ops| ensures !ops[j].Flush? {
        assert j < n ==> ops[..n][j] == ops[j];
      }
    }
    if Unflushed(ops, i) {
      forall j | i < j < n ensures !ops[..n][j].Flush? {
        assert ops[..n][j] == ops[j];
      }
    }
  }

  lemma EventOfStep(ops: seq<Op>, n: nat, a: Payload, i: nat)
    requires n == |ops| - 1 && EventOf(ops[..n], a, i)
    ensures EventOf(ops, a, i)
  {
    assert ops[..n][..i] == ops[..i];
  }

  lemma {:induction false} QueueAnnouncesExactly(p: Policy, ops: seq<Op>) returns (at: seq<nat>)
    ensures QueuedAt(ops, Run(p, ops).queue, at)
  {
    if ops == [] {
      at := [];
    } else {
      var n := |ops| - 1;
      at := QueueAnnouncesExactly(p, ops[..n]);
      RunStep(p, ops, n);
      SerialsCountWrites(p, ops[..n]);
      QueuedStep(ops, n, Run(p, ops[..n]).queue, at, Run(p, ops).queue);
      at := if ops[n].Flush? then [] else if Wrote(ops, n) then at + [n] else at;
    }
  }

  lemma QueuedStep(ops: seq<Op>, n: nat, queue: seq<Payload>, at: seq<nat>, queue': seq<Payload>)
    requires n == |ops| - 1 && QueuedAt(ops[..n], queue, at)
    requires ops[n].Flush? ==> queue' == []
    requires !ops[n].Flush? ==>
               queue' == queue + if Wrote(ops, n) then [PayloadOf(Writes(ops[..n]), ops[n].event)] else []
    ensures QueuedAt(ops, queue', if ops[n].Flush? then [] else if Wrote(ops, n) then at + [n] else at)
  {
    forall i: nat | i < n ensures Unflushed(ops, i) <==> Unflushed(ops[..n], i) && !ops[n].Flush? {
      UnflushedStep(ops, n, i);
    }
    if ops[n].Flush? {
      assert forall i: nat :: i < |ops| ==> !Unflushed(ops, i);
    } else {
      QueuedEarlier(ops, n, queue, at);
      if Wrote(ops, n) {
        QueuedLast(ops, n, queue, at, PayloadOf(Writes(ops[..n]), ops[n].event));
      }
    }
  }

  /** Everything of the queue that was queued before the last operation. */
  ghost predicate QueuedBefore(ops: seq<Op>, n: nat, queue: seq<Payload>, at: seq<nat>)
    requires n < |ops|
  {
    && |at| == |queue|
    && (forall k :: 0 <= k < |at| ==> at[k] < n && EventOf(ops, queue[k], at[k]))
    && (forall j, k :: 0 <= j < k < |at| ==> at[j] < at[k])
    && (forall i: nat :: i in at <==> i < n && Unflushed(ops, i))
  }

  lemma QueuedEarlier(ops: seq<Op>, n: nat, queue: seq<Payload>, at: seq<nat>)
    requires n == |ops| - 1 && QueuedAt(ops[..n], queue, at) && !ops[n].Flush?
    ensures QueuedBefore(ops, n, queue, at)
    ensures !Wrote(ops, n) ==> QueuedAt(ops, queue, at)
  {
    forall i: nat | i < n ensures Unflushed(ops, i) <==> Unflushed(ops[..n], i) {
      UnflushedStep(ops, n, i);
    }
    forall k | 0 <= k < |at| ensures at[k] < n && EventOf(ops, queue[k], at[k]) {
      EventOfStep(ops, n, queue[k], at[k]);
    }
  }

  lemma QueuedLast(ops: seq<Op>, n: nat, queue: seq<Payload>, at: seq<nat>, a: Payload)
    requires n == |ops| - 1 && QueuedBefore(ops, n, queue, at) && Wrote(ops, n) && EventOf(ops, a, n)
    ensures QueuedAt(ops, queue + [a], at + [n])
  {
    var at' := at + [n];
    assert Unflushed(ops, n);
    forall i: nat ensures i in at' <==> i < |ops| && Unflushed(ops, i) {
      assert i in at' <==> i in at || i == n;
    }
  }

  /** Every event a flush would publish has its row committed. */
  ghost predicate Backed(s: State) {
    forall k :: 0 <= k < |s.queue| ==> HasRow(s.committed, s.queue[k].serial)
  }

  /** A flush publishes no event of a row that does not exist if and only if every write since the
      last flush was kept by the commit of a transaction not aborted by then. A rollback, whole or
      to an older savepoint, or the commit of an aborted transaction takes rows and leaves events. */
  lemma FlushIsBackedExactly(p: Policy, ops: seq<Op>)
    ensures Backed(Run(p, ops)) <==>
            forall i :: 0 <= i < |ops| && Unflushed(ops, i) ==> Decision(ops, i, i + 1) == Some(true)
  {
    var s := Run(p, ops);
    var at := QueueAnnouncesExactly(p, ops);
    if Backed(s) {
      forall i | 0 <= i < |ops| && Unflushed(ops, i) ensures Decision(ops, i, i + 1) == Some(true) {
        assert i in at;
        var k :| 0 <= k < |at| && at[k] == i;
        RowFollowsItsTransaction(p, ops, i);
        assert EventOf(ops, s.queue[k], i) && HasRow(s.committed, s.queue[k].serial);
      }
    }
    if forall i :: 0 <= i < |ops| && Unflushed(ops, i) ==> Decision(ops, i, i + 1) == Some(true) {
      forall k | 0 <= k < |s.queue| ensures HasRow(s.committed, s.queue[k].serial) {
        assert at[k] in at && EventOf(ops, s.queue[k], at[k]);
        RowFollowsItsTransaction(p, ops, at[k]);
      }
    }
  }

  // ----- Runs -----

  lemma RunAppend(p: Policy, ops: seq<Op>, op: Op)
    ensures Run(p, ops + [op]) == Next(p, Run(p, ops), op)
  {
    assert (ops + [op])[..|ops|] == ops;
  }

  lemma RunOne(p: Policy, a: Op)
    ensures Run(p, [a]) == Next(p, INITIAL, a)
  {
    assert [a][..0] == [];
  }

  lemma RunTwo(p: Policy, a: Op, b: Op)
    ensures Run(p, [a, b]) == Next(p, Next(p, INITIAL, a), b)
  {
    RunOne(p, a);
    assert [a, b][..1] == [a];
  }

  lemma RunThree(p: Policy, a: Op, b: Op, c: Op)
    ensures Run(p, [a, b, c]) == Next(p, Next(p, Next(p, INITIAL, a), b), c)
  {
    RunTwo(p, a, b);
    assert [a, b, c][..2] == [a, b];
  }

  lemma RunFour(p: Policy, a: Op, b: Op, c: Op, d: Op)
    ensures Run(p, [a, b, c, d]) == Next(p, Next(p, Next(p, Next(p, INITIAL, a), b), c), d)
  {
    RunThree(p, a, b, c);
    assert [a, b, c, d][..3] == [a, b, c];
  }

  /** A rollback, then a commit on the same session: the flush would publish two events for one row. */
  lemma RollbackLeavesAPhantomEvent(p: Policy, e: Event)
    ensures
      var s := Run(p, [Emit(e, false, true), Rollback, Emit(e, false, true), Commit]);
      |s.queue| == 2 && |s.committed| == 1 && !HasRow(s.committed, s.queue[0].serial)
  {
    var a := Emit(e, false, true);
    RunFour(p, a, Rollback, a, Commit);
  }

  /** A row written under the caller's savepoint and rolled back with it: the transaction commits,
      the row is gone and its event is queued. */
  lemma SavepointRollbackLeavesAPhantomEvent(p: Policy, e: Event)
    ensures
      var s := Run(p, [Savepoint, Emit(e, false, true), RollbackTo(0), Commit]);
      |s.queue| == 1 && s.committed == []
  {
    RunFour(p, Savepoint, Emit(e, false, true), RollbackTo(0), Commit);
    assert WrittenBefore([RowOf(p, 0, e)], 0) == [];
  }

  /** A written row, a statement that fails outside a savepoint, then a commit: the row is gone and
      its event is queued. */
  lemma AbortedCommitLeavesAPhantomEvent(p: Policy, e: Event, failing: Op)
    requires failing == Work(false) || failing == Emit(e, false, false)
    ensures
      var s := Run(p, [Emit(e, false, true), failing, Commit]);
      |s.queue| == 1 && s.committed == []
  {
    RunThree(p, Emit(e, false, true), failing, Commit);
  }

  lemma {:induction false} AllWrittenBefore(rows: seq<Row>, serial: nat)
    requires forall r :: r in rows ==> r.serial < serial
    ensures WrittenBefore(rows, serial) == rows
  {
    if rows == [] {
    } else {
      var n := |rows| - 1;
      assert rows == rows[..n] + [rows[n]] && rows[n] in rows;
      assert forall r :: r in rows[..n] ==> r in rows;
      AllWrittenBefore(rows[..n], serial);
    }
  }

  lemma ConfinedStep(p: Policy, s: State, failing: Op)
    requires !s.aborted && forall r :: r in s.pending ==> r.serial < s.serial
    requires failing == Work(false) || (failing.Emit? && !failing.isolated && !failing.written)
    ensures Next(p, Next(p, Next(p, s, Savepoint), failing), RollbackTo(|s.savepoints|)) == s
  {
    var under := s.(savepoints := s.savepoints + [s.serial]);
    assert Next(p, s, Savepoint) == under;
    assert Next(p, under, failing) == under.(aborted := true);
    assert under.savepoints[..|s.savepoints|] == s.savepoints;
    AllWrittenBefore(s.pending, s.serial);
  }

  /** A statement that fails under a savepoint of the caller, rolled back to that savepoint, leaves
      the session as it was, whatever came before. */
  lemma SavepointConfinesAFailure(p: Policy, ops: seq<Op>, failing: Op)
    requires !Aborted(ops)
    requires failing == Work(false) || (failing.Emit? && !failing.isolated && !failing.written)
    ensures Run(p, ops + [Savepoint] + [failing] + [RollbackTo(|Open(ops).savepoints|)]) == Run(p, ops)
  {
    RunAppend(p, ops, Savepoint);
    RunAppend(p, ops + [Savepoint], failing);
    RunAppend(p, ops + [Savepoint] + [failing], RollbackTo(|Open(ops).savepoints|));
    OpenAgrees(p, ops);
    SerialsBelow(p, ops);
    ConfinedStep(p, Run(p, ops), failing);
  }

  /** Whatever happened, no stored row holds a secret. */
  lemma {:induction false} StoredRowsAreScrubbed(p: Policy, ops: seq<Op>)
    requires !p.secret(REDACTED)
    ensures forall r :: r in Run(p, ops).committed ==> Scrubbed(p, r.metadata)
    ensures forall r :: r in Run(p, ops).pending ==> Scrubbed(p, r.metadata)
  {
    if ops == [] {
    } else {
      StoredRowsAreScrubbed(p, ops[..|ops| - 1]);
      var op := ops[|ops| - 1];
      if op.Emit? {
        RedactionScrubs(p, Obj(MetadataOf(op.event)));
      }
    }
  }
}
