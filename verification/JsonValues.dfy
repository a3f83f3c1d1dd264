/** JSON values with objects as insertion-ordered members, the way a dictionary keeps them. */
module JsonValues {
  import opened Base

  datatype Json =
    | Null
    | Bool(b: bool)
    | Num(n: int)
    | Str(s: string)
    | Arr(items: seq<Json>)
    | Obj(members: seq<Member>)

  datatype Member = Member(key: string, value: Json)

  predicate Has(ms: seq<Member>, k: string) {
    exists i :: 0 <= i < |ms| && ms[i].key == k
  }

  function Get(ms: seq<Member>, k: string): (r: Option<Json>)
    ensures r.Some? <==> Has(ms, k)
    ensures r.Some? ==> exists i :: 0 <= i < |ms| && ms[i] == Member(k, r.value)
  {
    if ms == [] then None
    else if ms[0].key == k then
      assert ms[0] == Member(k, ms[0].value);
      Some(ms[0].value)
    else
      assert forall i :: 1 <= i < |ms| ==> ms[i] == ms[1..][i - 1];
      Get(ms[1..], k)
  }

  /** Assignment: an existing key keeps its place, a new one goes last. */
  function Put(ms: seq<Member>, k: string, v: Json): seq<Member> {
    if ms == [] then [Member(k, v)]
    else if ms[0].key == k then [Member(k, v)] + ms[1..]
    else [ms[0]] + Put(ms[1..], k, v)
  }

  function Remove(ms: seq<Member>, k: string): seq<Member> {
    if ms == [] then []
    else if ms[0].key == k then Remove(ms[1..], k)
    else [ms[0]] + Remove(ms[1..], k)
  }

  ghost predicate DistinctKeys(ms: seq<Member>) {
    forall i, j :: 0 <= i < j < |ms| ==> ms[i].key != ms[j].key
  }

  /** Every object at any depth has distinct keys, as dictionaries do. */
  ghost predicate WellFormed(j: Json)
    decreases j
  {
    match j
    case Obj(ms) => WellFormedMembers(ms)
    case Arr(items) => forall i :: 0 <= i < |items| ==> WellFormed(items[i])
    case _ => true
  }

  ghost predicate WellFormedMembers(ms: seq<Member>)
    decreases ms
  {
    DistinctKeys(ms) && forall i :: 0 <= i < |ms| ==> WellFormed(ms[i].value)
  }

  // ----- Laws of the three operations -----

  lemma {:induction false} GetAt(ms: seq<Member>, i: nat)
    requires DistinctKeys(ms) && i < |ms|
    ensures Get(ms, ms[i].key) == Some(ms[i].value)
  {
    if i == 0 {
    } else {
      assert ms[1..][i - 1] == ms[i];
      GetAt(ms[1..], i - 1);
    }
  }

  lemma {:induction false} GetPut(ms: seq<Member>, k: string, v: Json, k': string)
    ensures Get(Put(ms, k, v), k') == if k' == k then Some(v) else Get(ms, k')
  {
    if ms == [] || ms[0].key == k {
    } else {
      GetPut(ms[1..], k, v, k');
      assert ([ms[0]] + Put(ms[1..], k, v))[1..] == Put(ms[1..], k, v);
    }
  }

  lemma {:induction false} GetRemove(ms: seq<Member>, k: string, k': string)
    ensures Get(Remove(ms, k), k') == if k' == k then None else Get(ms, k')
  {
    if ms == [] {
    } else {
      GetRemove(ms[1..], k, k');
      if ms[0].key != k {
        assert ([ms[0]] + Remove(ms[1..], k))[1..] == Remove(ms[1..], k);
      }
    }
  }

  lemma {:induction false} PutSame(ms: seq<Member>, k: string, v: Json)
    requires Get(ms, k) == Some(v)
    ensures Put(ms, k, v) == ms
  {
    if ms[0].key == k {
    } else {
      PutSame(ms[1..], k, v);
    }
  }

  lemma {:induction false} PutNew(ms: seq<Member>, k: string, v: Json)
    requires Get(ms, k) == None
    ensures Put(ms, k, v) == ms + [Member(k, v)]
  {
    if ms == [] {
    } else {
      assert ms[0].key != k;
      PutNew(ms[1..], k, v);
    }
  }

  /** Assigning to a key that is there changes its first member alone. */
  lemma {:induction false} PutKeepsPlaces(ms: seq<Member>, k: string, v: Json) returns (at: nat)
    requires Has(ms, k)
    ensures at < |ms| && ms[at].key == k && forall i :: 0 <= i < at ==> ms[i].key != k
    ensures Put(ms, k, v) == ms[at := Member(k, v)]
  {
    if ms[0].key == k {
      at := 0;
    } else {
      var i :| 0 <= i < |ms| && ms[i].key == k;
      assert ms[1..][i - 1].key == k;
      at := PutKeepsPlaces(ms[1..], k, v);
      at := at + 1;
      assert ms == [ms[0]] + ms[1..];
    }
  }

  /** Deleting a key takes its members and keeps the others in order. */
  lemma {:induction false} RemoveSelects(ms: seq<Member>, k: string) returns (at: seq<nat>)
    ensures Selects(ms, (m: Member) => m.key != k, Remove(ms, k), at)
  {
    var other := (m: Member) => m.key != k;
    if ms == [] {
      at := [];
    } else {
      var n := |ms| - 1;
      at := RemoveSelects(ms[..n], k);
      RemoveConcat(ms[..n], [ms[n]], k);
      assert Selects(ms[..n], other, Remove(ms[..n], k), at);
      SelectsAppend(ms[..n], other, Remove(ms[..n], k), at, ms[n]);
      assert ms == ms[..n] + [ms[n]] && [ms[n]][1..] == [];
      if ms[n].key != k {
        at := at + [n];
      }
    }
  }

  lemma {:induction false} RemoveConcat(a: seq<Member>, b: seq<Member>, k: string)
    ensures Remove(a + b, k) == Remove(a, k) + Remove(b, k)
  {
    if a == [] {
      assert a + b == b;
    } else {
      RemoveConcat(a[1..], b, k);
      assert (a + b)[1..] == a[1..] + b && (a + b)[0] == a[0];
      var rest := Remove(a[1..], k) + Remove(b, k);
      assert Remove(a + b, k) == if a[0].key == k then rest else [a[0]] + rest;
    }
  }

  lemma {:induction false} RemoveAbsent(ms: seq<Member>, k: string)
    requires Get(ms, k) == None
    ensures Remove(ms, k) == ms
  {
    if ms == [] {
    } else {
      assert ms[0].key != k;
      RemoveAbsent(ms[1..], k);
    }
  }

  lemma {:induction false} PutKeepsWellFormed(ms: seq<Member>, k: string, v: Json)
    requires WellFormedMembers(ms) && WellFormed(v)
    ensures WellFormedMembers(Put(ms, k, v))
    ensures forall m :: m in Put(ms, k, v) ==> m.key == k || m in ms
  {
    if ms == [] || ms[0].key == k {
    } else {
      PutKeepsWellFormed(ms[1..], k, v);
    }
  }
}
