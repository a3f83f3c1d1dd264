/** The additive merge of free-form configuration, compared with MergePatch of section 2 of
    RFC 7396. */
module JsonMerge {
  import opened Base
  import opened JsonValues

  /** `stored` with the members of `patch` applied in order. */
  function Merge(stored: seq<Member>, patch: seq<Member>): seq<Member>
    decreases patch, 1
  {
    if patch == [] then stored
    else Merge(Apply(stored, patch[0]), patch[1..])
  }

  function Apply(stored: seq<Member>, m: Member): seq<Member>
    decreases m, 0
  {
    match Merged(Get(stored, m.key), m.value)
    case None => Remove(stored, m.key)
    case Some(v) => Put(stored, m.key, v)
  }

  /** What one key becomes; `None` is a deleted key. */
  function Merged(existing: Option<Json>, v: Json): Option<Json>
    decreases v
  {
    match v
    case Null => None
    case Obj(pm) =>
      if existing.Some? && existing.value.Obj? then Some(Obj(Merge(existing.value.members, pm))) else Some(v)
    case _ => Some(v)
  }

  method MergeJsonConfig(stored: Option<seq<Member>>, patch: seq<Member>) returns (merged: seq<Member>)
    ensures merged == Merge(if stored.Some? then stored.value else [], patch)
    decreases patch
  {
    merged := if stored.Some? then stored.value else [];
    ghost var start := merged;
    for i := 0 to |patch|
      invariant Merge(start, patch) == Merge(merged, patch[i..])
    {
      var m := patch[i];
      ghost var next := Apply(merged, m);
      assert patch[i..][0] == m && patch[i..][1..] == patch[i + 1..];
      assert Merge(merged, patch[i..]) == Merge(next, patch[i + 1..]);
      if m.value.Null? {
        assert Merged(Get(merged, m.key), m.value) == None;
        merged := Remove(merged, m.key);
      } else {
        var existing := Get(merged, m.key);
        if existing.Some? && existing.value.Obj? && m.value.Obj? {
          var inner := MergeJsonConfig(Some(existing.value.members), m.value.members);
          assert Merged(existing, m.value) == Some(Obj(inner));
          merged := Put(merged, m.key, Obj(inner));
        } else {
          assert Merged(existing, m.value) == Some(m.value);
          merged := Put(merged, m.key, m.value);
        }
      }
      assert merged == next;
    }
  }

  // ----- MergePatch of RFC 7396 -----

  function MergePatch(target: Option<Json>, patch: Json): Json
    decreases patch
  {
    match patch
    case Obj(pm) => Obj(PatchMembers(if target.Some? && target.value.Obj? then target.value.members else [], pm))
    case _ => patch
  }

  function PatchMembers(target: seq<Member>, patch: seq<Member>): seq<Member>
    decreases patch, 1
  {
    if patch == [] then target
    else PatchMembers(PatchOne(target, patch[0]), patch[1..])
  }

  function PatchOne(target: seq<Member>, m: Member): seq<Member>
    decreases m, 0
  {
    if m.value.Null? then Remove(target, m.key)
    else Put(target, m.key, MergePatch(Get(target, m.key), m.value))
  }

  function Patched(existing: Option<Json>, v: Json): Option<Json> {
    if v.Null? then None else Some(MergePatch(existing, v))
  }

  // ----- What each key becomes -----

  lemma GetApply(stored: seq<Member>, m: Member, k: string)
    ensures Get(Apply(stored, m), k) ==
            if k == m.key then Merged(Get(stored, k), m.value) else Get(stored, k)
  {
    match Merged(Get(stored, m.key), m.value)
    case None => GetRemove(stored, m.key, k);
    case Some(v) => GetPut(stored, m.key, v, k);
  }

  /** Keys the patch does not have keep their value; the others combine with theirs. */
  lemma {:induction false} GetMerge(stored: seq<Member>, patch: seq<Member>, k: string)
    requires DistinctKeys(patch)
    ensures Get(Merge(stored, patch), k) ==
            if Has(patch, k) then Merged(Get(stored, k), Get(patch, k).value) else Get(stored, k)
    decreases |patch|
  {
    if patch == [] {
    } else {
      var rest := patch[1..];
      GetApply(stored, patch[0], k);
      GetMerge(Apply(stored, patch[0]), rest, k);
      if Has(rest, k) {
        var i :| 0 <= i < |rest| && rest[i].key == k;
        assert patch[i + 1] == rest[i];
      }
    }
  }

  lemma GetPatchOne(target: seq<Member>, m: Member, k: string)
    ensures Get(PatchOne(target, m), k) ==
            if k == m.key then Patched(Get(target, k), m.value) else Get(target, k)
  {
    if m.value.Null? {
      GetRemove(target, m.key, k);
    } else {
      GetPut(target, m.key, MergePatch(Get(target, m.key), m.value), k);
    }
  }

  lemma {:induction false} GetPatched(target: seq<Member>, patch: seq<Member>, k: string)
    requires DistinctKeys(patch)
    ensures Get(PatchMembers(target, patch), k) ==
            if Has(patch, k) then Patched(Get(target, k), Get(patch, k).value) else Get(target, k)
    decreases |patch|
  {
    if patch == [] {
    } else {
      var rest := patch[1..];
      GetPatchOne(target, patch[0], k);
      GetPatched(PatchOne(target, patch[0]), rest, k);
      if Has(rest, k) {
        var i :| 0 <= i < |rest| && rest[i].key == k;
        assert patch[i + 1] == rest[i];
      }
    }
  }

  // ----- The condition -----

  /** No null member at any depth reached through objects. */
  ghost predicate NullFree(j: Json)
    decreases j
  {
    j.Obj? ==> NullFreeMembers(j.members)
  }

  ghost predicate NullFreeMembers(ms: seq<Member>)
    decreases ms
  {
    forall i :: 0 <= i < |ms| ==> !ms[i].value.Null? && NullFree(ms[i].value)
  }

  /** Every object of the patch that does not land on a stored object is free of nulls. */
  ghost predicate Clean(stored: seq<Member>, patch: seq<Member>)
    decreases patch, 1
  {
    forall i :: 0 <= i < |patch| ==> CleanValue(Get(stored, patch[i].key), patch[i].value)
  }

  ghost predicate CleanValue(existing: Option<Json>, v: Json)
    decreases v
  {
    v.Obj? ==>
      if existing.Some? && existing.value.Obj? then Clean(existing.value.members, v.members)
      else NullFreeMembers(v.members)
  }

  // ----- Merge equals MergePatch exactly under the condition -----

  /** Patching onto nothing copies the patch if and only if it has no nulls to strip. */
  lemma {:induction false} PatchOntoNothing(pm: seq<Member>)
    requires WellFormedMembers(pm)
    ensures PatchMembers([], pm) == pm <==> NullFreeMembers(pm)
    decreases pm, 1
  {
    if PatchMembers([], pm) == pm {
      forall i | 0 <= i < |pm| ensures !pm[i].value.Null? && NullFree(pm[i].value) {
        GetPatched([], pm, pm[i].key);
        GetAt(pm, i);
        if pm[i].value.Obj? {
          PatchOntoNothing(pm[i].value.members);
        }
      }
    }
    if NullFreeMembers(pm) {
      NullFreeAppends([], pm);
      assert [] + pm == pm;
    }
  }

  lemma RestStaysNew(acc: seq<Member>, pm: seq<Member>)
    requires pm != [] && DistinctKeys(pm) && forall i :: 0 <= i < |pm| ==> Get(acc, pm[i].key) == None
    ensures forall i :: 0 <= i < |pm[1..]| ==> Get(acc + [pm[0]], pm[1..][i].key) == None
  {
    var m, rest := pm[0], pm[1..];
    PutNew(acc, m.key, m.value);
    forall i | 0 <= i < |rest| ensures Get(acc + [m], rest[i].key) == None {
      assert rest[i] == pm[i + 1];
      GetPut(acc, m.key, m.value, rest[i].key);
    }
  }

  lemma {:induction false} NullFreeAppends(acc: seq<Member>, pm: seq<Member>)
    requires WellFormedMembers(pm) && NullFreeMembers(pm)
    requires forall i :: 0 <= i < |pm| ==> Get(acc, pm[i].key) == None
    ensures PatchMembers(acc, pm) == acc + pm
    decreases pm, 0
  {
    if pm == [] {
      assert acc + pm == acc;
    } else {
      var m, rest := pm[0], pm[1..];
      if m.value.Obj? {
        PatchOntoNothing(m.value.members);
      }
      assert MergePatch(None, m.value) == m.value;
      PutNew(acc, m.key, m.value);
      assert PatchOne(acc, m) == acc + [m];
      RestStaysNew(acc, pm);
      NullFreeAppends(acc + [m], rest);
      assert acc + [m] + rest == acc + pm;
    }
  }

  lemma {:induction false} ValueAgrees(existing: Option<Json>, v: Json)
    requires WellFormed(v)
    ensures Merged(existing, v) == Patched(existing, v) <==> CleanValue(existing, v)
    decreases v, 1
  {
    if v.Obj? {
      if existing.Some? && existing.value.Obj? {
        MergeIsMergePatchExactly(existing.value.members, v.members);
      } else {
        PatchOntoNothing(v.members);
      }
    }
  }

  /** The merge is MergePatch of RFC 7396 if and only if every object in the patch that does not
      land on a stored object has no null member. */
  lemma {:induction false} MergeIsMergePatchExactly(stored: seq<Member>, patch: seq<Member>)
    requires WellFormedMembers(patch)
    ensures Merge(stored, patch) == PatchMembers(stored, patch) <==> Clean(stored, patch)
    decreases patch, 2
  {
    if Merge(stored, patch) == PatchMembers(stored, patch) {
      forall i | 0 <= i < |patch| ensures CleanValue(Get(stored, patch[i].key), patch[i].value) {
        GetMerge(stored, patch, patch[i].key);
        GetPatched(stored, patch, patch[i].key);
        GetAt(patch, i);
        ValueAgrees(Get(stored, patch[i].key), patch[i].value);
      }
    }
    if Clean(stored, patch) {
      CleanMergeAgrees(stored, patch);
    }
  }

  lemma {:induction false} CleanMergeAgrees(stored: seq<Member>, patch: seq<Member>)
    requires WellFormedMembers(patch) && Clean(stored, patch)
    ensures Merge(stored, patch) == PatchMembers(stored, patch)
    decreases patch, 1
  {
    if patch == [] {
    } else {
      var m, rest := patch[0], patch[1..];
      ValueAgrees(Get(stored, m.key), m.value);
      var next := Apply(stored, m);
      assert next == PatchOne(stored, m);
      forall i | 0 <= i < |rest| ensures CleanValue(Get(next, rest[i].key), rest[i].value) {
        assert rest[i] == patch[i + 1];
        GetApply(stored, m, rest[i].key);
      }
      CleanMergeAgrees(next, rest);
    }
  }

  // ----- Applying a patch twice -----

  /** A merge changes nothing if and only if no key of the patch changes. */
  lemma {:induction false} MergeIsNoOpExactly(r: seq<Member>, patch: seq<Member>)
    requires DistinctKeys(patch)
    ensures Merge(r, patch) == r <==>
            forall i :: 0 <= i < |patch| ==> Merged(Get(r, patch[i].key), patch[i].value) == Get(r, patch[i].key)
    decreases |patch|
  {
    if Merge(r, patch) == r {
      forall i | 0 <= i < |patch|
        ensures Merged(Get(r, patch[i].key), patch[i].value) == Get(r, patch[i].key)
      {
        GetMerge(r, patch, patch[i].key);
        GetAt(patch, i);
      }
    }
    if patch == [] {
    } else if forall i :: 0 <= i < |patch| ==> Merged(Get(r, patch[i].key), patch[i].value) == Get(r, patch[i].key) {
      var m := patch[0];
      match Get(r, m.key) {
        case None => RemoveAbsent(r, m.key);
        case Some(v) => PutSame(r, m.key, v);
      }
      assert Apply(r, m) == r;
      assert forall i :: 0 <= i < |patch[1..]| ==> patch[1..][i] == patch[i + 1];
      MergeIsNoOpExactly(r, patch[1..]);
    }
  }

  /** Merging members into themselves strips their nulls. */
  lemma {:induction false} SelfMerge(ms: seq<Member>)
    requires WellFormedMembers(ms)
    ensures Merge(ms, ms) == ms <==> NullFreeMembers(ms)
    decreases ms
  {
    MergeIsNoOpExactly(ms, ms);
    forall i | 0 <= i < |ms|
      ensures Merged(Get(ms, ms[i].key), ms[i].value) == Get(ms, ms[i].key) <==>
              !ms[i].value.Null? && NullFree(ms[i].value)
    {
      GetAt(ms, i);
      if ms[i].value.Obj? {
        SelfMerge(ms[i].value.members);
      }
    }
  }

  /** Applying a patch twice equals applying it once under exactly the same condition. */
  lemma {:induction false} MergeIsIdempotentExactly(stored: seq<Member>, patch: seq<Member>)
    requires WellFormedMembers(patch)
    ensures Merge(Merge(stored, patch), patch) == Merge(stored, patch) <==> Clean(stored, patch)
    decreases patch
  {
    var r := Merge(stored, patch);
    MergeIsNoOpExactly(r, patch);
    forall i | 0 <= i < |patch|
      ensures Merged(Get(r, patch[i].key), patch[i].value) == Get(r, patch[i].key) <==>
              CleanValue(Get(stored, patch[i].key), patch[i].value)
    {
      var existing, v := Get(stored, patch[i].key), patch[i].value;
      GetMerge(stored, patch, patch[i].key);
      GetAt(patch, i);
      if v.Obj? {
        if existing.Some? && existing.value.Obj? {
          MergeIsIdempotentExactly(existing.value.members, v.members);
        } else {
          SelfMerge(v.members);
        }
      }
    }
  }

  /** On an empty object the patch {"a": {"b": null}} is stored as it is, where MergePatch stores
      {"a": {}}, and applying it again strips the null. */
  lemma NestedNullIsStored()
    ensures
      var patch := [Member("a", Obj([Member("b", Null)]))];
      && !Clean([], patch)
      && Merge([], patch) == patch
      && PatchMembers([], patch) == [Member("a", Obj([]))]
      && Merge(Merge([], patch), patch) == [Member("a", Obj([]))]
  {
    var inner := [Member("b", Null)];
    var patch := [Member("a", Obj(inner))];
    assert inner[1..] == [] && patch[1..] == [];
    assert !NullFreeMembers(inner) && !CleanValue(Get([], "a"), patch[0].value);
    assert PatchMembers([], inner) == PatchOne([], inner[0]) == [];
    assert Merge(inner, inner) == Apply(inner, inner[0]) == [];
    assert Get(patch, "a") == Some(Obj(inner));
    assert Apply(patch, patch[0]) == Put(patch, "a", Obj([]));
  }

  // ----- Paths -----

  function At(ms: seq<Member>, path: seq<string>): Option<Json>
    requires path != []
    decreases |path|
  {
    var found := Get(ms, path[0]);
    if |path| == 1 then found
    else if found.Some? && found.value.Obj? then At(found.value.members, path[1..])
    else None
  }

  /** The patch says something about the value at the path. */
  predicate Touches(patch: seq<Member>, path: seq<string>)
    requires path != []
    decreases |path|
  {
    var found := Get(patch, path[0]);
    && found.Some?
    && (|path| > 1 && found.value.Obj? ==> Touches(found.value.members, path[1..]))
  }

  lemma {:induction false} UntouchedIsAbsent(ms: seq<Member>, path: seq<string>)
    requires path != [] && !Touches(ms, path)
    ensures At(ms, path) == None
    decreases |path|
  {
    if |path| == 1 || Get(ms, path[0]).None? {
    } else {
      UntouchedIsAbsent(Get(ms, path[0]).value.members, path[1..]);
    }
  }

  /** Whatever the patch holds, a path it does not touch keeps its stored value or its absence. */
  lemma {:induction false} UntouchedPathsKeepTheirValue(stored: seq<Member>, patch: seq<Member>, path: seq<string>)
    requires WellFormedMembers(patch) && path != [] && !Touches(patch, path)
    ensures At(Merge(stored, patch), path) == At(stored, path)
    decreases |path|
  {
    GetMerge(stored, patch, path[0]);
    if !Has(patch, path[0]) {
    } else {
      var pm := Get(patch, path[0]).value.members;
      var existing := Get(stored, path[0]);
      if existing.Some? && existing.value.Obj? {
        UntouchedPathsKeepTheirValue(existing.value.members, pm, path[1..]);
      } else {
        UntouchedIsAbsent(pm, path[1..]);
      }
    }
  }

  /** A scalar or a list at a path of the patch is what the merge has there. */
  lemma {:induction false} PatchedLeavesAreWritten(stored: seq<Member>, patch: seq<Member>, path: seq<string>)
    requires WellFormedMembers(patch) && path != []
    requires At(patch, path).Some? && !At(patch, path).value.Null? && !At(patch, path).value.Obj?
    ensures At(Merge(stored, patch), path) == At(patch, path)
    decreases |path|
  {
    GetMerge(stored, patch, path[0]);
    if |path| <= 1 {
    } else {
      var existing := Get(stored, path[0]);
      if existing.Some? && existing.value.Obj? {
        PatchedLeavesAreWritten(existing.value.members, Get(patch, path[0]).value.members, path[1..]);
      }
    }
  }
}
