/** Redaction of audit metadata. Which keys are sensitive and which strings look like secrets are
    parameters. */
module AuditRedaction {
  import opened JsonValues

  const REDACTED: string := "<redacted>"

  datatype Policy = Policy(sensitiveKey: string -> bool, secret: string -> bool)

  function Redact(p: Policy, j: Json): Json
    decreases j
  {
    match j
    case Obj(ms) => Obj(RedactMembers(p, ms))
    case Arr(items) => Arr(RedactItems(p, items))
    case Str(s) => if p.secret(s) then Str(REDACTED) else j
    case _ => j
  }

  function RedactMember(p: Policy, m: Member): Member
    decreases m
  {
    Member(m.key, if p.sensitiveKey(m.key) then Str(REDACTED) else Redact(p, m.value))
  }

  function RedactMembers(p: Policy, ms: seq<Member>): (r: seq<Member>)
    ensures |r| == |ms|
    decreases ms
  {
    seq(|ms|, i requires 0 <= i < |ms| => RedactMember(p, ms[i]))
  }

  function RedactItems(p: Policy, items: seq<Json>): (r: seq<Json>)
    ensures |r| == |items|
    decreases items
  {
    seq(|items|, i requires 0 <= i < |items| => Redact(p, items[i]))
  }

  /** The recursive walk that fills a fresh dictionary or list. */
  method RedactValue(p: Policy, j: Json) returns (r: Json)
    requires WellFormed(j)
    ensures r == Redact(p, j)
    decreases j
  {
    match j {
      case Obj(ms) =>
        var out: seq<Member> := [];
        for i := 0 to |ms|
          invariant out == RedactMembers(p, ms[..i])
        {
          var k, v := ms[i].key, ms[i].value;
          var scrubbed: Json;
          if p.sensitiveKey(k) {
            scrubbed := Str(REDACTED);
          } else {
            scrubbed := RedactValue(p, v);
          }
          assert forall n :: 0 <= n < i ==> out[n].key == ms[n].key != k;
          PutNew(out, k, scrubbed);
          out := Put(out, k, scrubbed);
          assert out == RedactMembers(p, ms[..i + 1]);
        }
        assert ms[..|ms|] == ms;
        return Obj(out);
      case Arr(items) =>
        var out: seq<Json> := [];
        for i := 0 to |items|
          invariant out == RedactItems(p, items[..i])
        {
          var v := RedactValue(p, items[i]);
          out := out + [v];
          assert out == RedactItems(p, items[..i + 1]);
        }
        assert items[..|items|] == items;
        return Arr(out);
      case Str(s) =>
        return if p.secret(s) then Str(REDACTED) else j;
      case _ =>
        return j;
    }
  }

  // ----- What redaction achieves -----

  /** No string value looks like a secret and every sensitive key is masked, at any depth. */
  ghost predicate Scrubbed(p: Policy, j: Json)
    decreases j
  {
    match j
    case Obj(ms) =>
      forall i :: 0 <= i < |ms| ==>
        if p.sensitiveKey(ms[i].key) then ms[i].value == Str(REDACTED) else Scrubbed(p, ms[i].value)
    case Arr(items) => forall i :: 0 <= i < |items| ==> Scrubbed(p, items[i])
    case Str(s) => !p.secret(s)
    case _ => true
  }

  lemma {:induction false} RedactionScrubs(p: Policy, j: Json)
    requires !p.secret(REDACTED)
    ensures Scrubbed(p, Redact(p, j))
    decreases j
  {
    match j
    case Obj(ms) =>
      var r := RedactMembers(p, ms);
      forall i | 0 <= i < |r|
        ensures if p.sensitiveKey(r[i].key) then r[i].value == Str(REDACTED) else Scrubbed(p, r[i].value)
      {
        assert r[i] == RedactMember(p, ms[i]);
        RedactionScrubs(p, ms[i].value);
      }
    case Arr(items) =>
      forall i | 0 <= i < |items| ensures Scrubbed(p, Redact(p, items[i])) { RedactionScrubs(p, items[i]); }
    case _ =>
  }

  /** Redaction changes nothing if and only if there is nothing to scrub. */
  lemma {:induction false} UnchangedExactlyWhenScrubbed(p: Policy, j: Json)
    requires !p.secret(REDACTED)
    ensures Redact(p, j) == j <==> Scrubbed(p, j)
    decreases j
  {
    match j
    case Obj(ms) =>
      var r := RedactMembers(p, ms);
      forall i | 0 <= i < |ms|
        ensures r[i] == ms[i] <==>
                if p.sensitiveKey(ms[i].key) then ms[i].value == Str(REDACTED) else Scrubbed(p, ms[i].value)
      {
        assert r[i] == RedactMember(p, ms[i]);
        UnchangedExactlyWhenScrubbed(p, ms[i].value);
      }
      assert r == ms <==> forall i :: 0 <= i < |ms| ==> r[i] == ms[i];
    case Arr(items) =>
      var r := RedactItems(p, items);
      forall i | 0 <= i < |items| ensures r[i] == items[i] <==> Scrubbed(p, items[i]) {
        UnchangedExactlyWhenScrubbed(p, items[i]);
      }
      assert r == items <==> forall i :: 0 <= i < |items| ==> r[i] == items[i];
    case _ =>
  }

  lemma RedactionIsIdempotent(p: Policy, j: Json)
    requires !p.secret(REDACTED)
    ensures Redact(p, Redact(p, j)) == Redact(p, j)
  {
    RedactionScrubs(p, j);
    UnchangedExactlyWhenScrubbed(p, Redact(p, j));
  }

  /** `r` has the keys, list lengths and harmless scalars of `j` wherever `j` is not masked. */
  ghost predicate SameShape(p: Policy, j: Json, r: Json)
    decreases j
  {
    match j
    case Obj(ms) =>
      && r.Obj? && |r.members| == |ms|
      && forall i :: 0 <= i < |ms| ==>
           && r.members[i].key == ms[i].key
           && (!p.sensitiveKey(ms[i].key) ==> SameShape(p, ms[i].value, r.members[i].value))
    case Arr(items) =>
      r.Arr? && |r.items| == |items| && forall i :: 0 <= i < |items| ==> SameShape(p, items[i], r.items[i])
    case Str(s) => if p.secret(s) then r == Str(REDACTED) else r == j
    case _ => r == j
  }

  lemma {:induction false} RedactionKeepsShape(p: Policy, j: Json)
    ensures SameShape(p, j, Redact(p, j))
    decreases j
  {
    match j
    case Obj(ms) =>
      var r := RedactMembers(p, ms);
      forall i | 0 <= i < |ms|
        ensures r[i].key == ms[i].key && (!p.sensitiveKey(ms[i].key) ==> SameShape(p, ms[i].value, r[i].value))
      {
        assert r[i] == RedactMember(p, ms[i]);
        RedactionKeepsShape(p, ms[i].value);
      }
    case Arr(items) =>
      forall i | 0 <= i < |items| ensures SameShape(p, items[i], Redact(p, items[i])) {
        RedactionKeepsShape(p, items[i]);
      }
    case _ =>
  }
}
