/** Keyset-paged rewrites of a name column: migrations 0100 and 0101.

    A table maps primary keys to an optional name. A key has two ordered components; a table keyed
    by one column uses zero for the second. */
module PagedRepair {
  import opened Base
  import opened Labels

  datatype Key = Key(first: nat, second: nat)

  type Table = map<Key, Option<string>>

  predicate Less(a: Key, b: Key) {
    a.first < b.first || (a.first == b.first && a.second < b.second)
  }

  predicate After(after: Option<Key>, k: Key) {
    after.None? || Less(after.value, k)
  }

  predicate Candidate(t: Table, filter: string -> bool, k: Key) {
    k in t && t[k].Some? && filter(t[k].value)
  }

  function Candidates(t: Table, filter: string -> bool, after: Option<Key>): set<Key> {
    set k | k in t && Candidate(t, filter, k) && After(after, k)
  }

  // ----- ORDER BY key LIMIT page -----

  ghost predicate IsLeast(s: set<Key>, k: Key) {
    k in s && forall k' :: k' in s ==> k' == k || Less(k, k')
  }

  lemma {:induction false} LeastExists(s: set<Key>)
    requires s != {}
    ensures exists k :: IsLeast(s, k)
  {
    var x :| x in s;
    if s == {x} {
      assert IsLeast(s, x);
    } else {
      LeastExists(s - {x});
      var k :| IsLeast(s - {x}, k);
      if Less(x, k) {
        forall k' | k' in s ensures k' == x || Less(x, k') { assert k' == x || k' in s - {x}; }
        assert IsLeast(s, x);
      } else {
        forall k' | k' in s ensures k' == k || Less(k, k') { assert k' == x || k' in s - {x}; }
        assert IsLeast(s, k);
      }
    }
  }

  function Least(s: set<Key>): (k: Key)
    requires s != {}
    ensures k in s && forall k' :: k' in s ==> k' == k || Less(k, k')
  {
    LeastExists(s);
    assert exists k :: k in s && forall k' :: k' in s ==> k' == k || Less(k, k') by {
      var k :| IsLeast(s, k);
    }
    var k :| k in s && forall k' :: k' in s ==> k' == k || Less(k, k');
    k
  }

  /** The first `page` candidates past `after`, in key order. */
  function SelectPage(t: Table, filter: string -> bool, after: Option<Key>, page: nat): (rows: seq<Key>)
    ensures forall i :: 0 <= i < |rows| ==> rows[i] in Candidates(t, filter, after)
    ensures forall i, j :: 0 <= i < j < |rows| ==> Less(rows[i], rows[j])
    ensures rows == [] <==> page == 0 || Candidates(t, filter, after) == {}
    ensures |rows| <= page
    decreases page
  {
    var c := Candidates(t, filter, after);
    if page == 0 || c == {} then []
    else
      var k := Least(c);
      [k] + SelectPage(t, filter, Some(k), page - 1)
  }

  /** A page skips no candidate on the way to its last row. */
  lemma {:induction false} PageSkipsNothing(t: Table, filter: string -> bool, after: Option<Key>, page: nat, k: Key)
    requires k in Candidates(t, filter, after)
    requires
      var rows := SelectPage(t, filter, after, page);
      rows != [] && !Less(rows[|rows| - 1], k)
    ensures k in SelectPage(t, filter, after, page)
    decreases page
  {
    var c := Candidates(t, filter, after);
    var least := Least(c);
    var rest := SelectPage(t, filter, Some(least), page - 1);
    assert SelectPage(t, filter, after, page) == [least] + rest;
    if k == least {
    } else {
      assert k in Candidates(t, filter, Some(least));
      if rest != [] {
        PageSkipsNothing(t, filter, Some(least), page - 1, k);
      }
    }
  }

  /** A page that is not full leaves no candidate behind. */
  lemma {:induction false} ShortPageIsTheLast(t: Table, filter: string -> bool, after: Option<Key>, page: nat, k: Key)
    requires k in Candidates(t, filter, after) && |SelectPage(t, filter, after, page)| < page
    ensures k in SelectPage(t, filter, after, page)
    decreases page
  {
    var least := Least(Candidates(t, filter, after));
    assert SelectPage(t, filter, after, page) == [least] + SelectPage(t, filter, Some(least), page - 1);
    if k == least {
    } else {
      assert k in Candidates(t, filter, Some(least));
      ShortPageIsTheLast(t, filter, Some(least), page - 1, k);
    }
  }

  // ----- The rewrite in one pass -----

  type Rule = string -> Option<string>

  function RewriteAll(t: Table, filter: string -> bool, rule: Rule): Table {
    map k | k in t :: if Candidate(t, filter, k) then rule(t[k].value) else t[k]
  }

  ghost predicate Increasing(ks: seq<Key>) {
    forall i, j :: 0 <= i < j < |ks| ==>
      ks[i].first < ks[j].first || (ks[i].first == ks[j].first && ks[i].second < ks[j].second)
  }

  /** Everything up to `after` is rewritten and the rest is as it was. */
  ghost predicate DoneUpTo(t: Table, out: Table, filter: string -> bool, rule: Rule, after: Option<Key>) {
    && out.Keys == t.Keys
    && forall k :: k in t ==>
         out[k] == if Candidate(t, filter, k) && !After(after, k) then rule(t[k].value) else t[k]
  }

  /** Executes one page of updates. */
  method UpdatePage(t: Table, rows: seq<Key>, rule: Rule) returns (out: Table)
    requires Increasing(rows) && forall i :: 0 <= i < |rows| ==> rows[i] in t && t[rows[i]].Some?
    ensures out.Keys == t.Keys
    ensures forall k :: k in t ==> out[k] == if k in rows then rule(t[k].value) else t[k]
  {
    out := t;
    for i := 0 to |rows|
      invariant out.Keys == t.Keys
      invariant forall k :: k in t ==> out[k] == if k in rows[..i] then rule(t[k].value) else t[k]
    {
      var name := t[rows[i]].value;
      var changed := rule(name);
      if changed != Some(name) {
        out := out[rows[i] := changed];
      }
    }
  }

  lemma LaterCandidatesUnchanged(
      t: Table, out: Table, filter: string -> bool, rule: Rule, after: Option<Key>)
    requires DoneUpTo(t, out, filter, rule, after)
    ensures Candidates(out, filter, after) == Candidates(t, filter, after)
  {
    forall k ensures k in Candidates(out, filter, after) <==> k in Candidates(t, filter, after) {
    }
  }

  /** A page is exactly the candidates past `after` up to its own last row. */
  lemma PageIsAnInterval(
      t: Table, out: Table, filter: string -> bool, rule: Rule, after: Option<Key>, page: nat, k: Key)
    requires DoneUpTo(t, out, filter, rule, after)
    requires SelectPage(out, filter, after, page) != []
    ensures
      var rows := SelectPage(out, filter, after, page);
      k in rows <==> k in Candidates(t, filter, after) && !Less(rows[|rows| - 1], k)
  {
    var rows := SelectPage(out, filter, after, page);
    LaterCandidatesUnchanged(t, out, filter, rule, after);
    if k in Candidates(t, filter, after) && !Less(rows[|rows| - 1], k) {
      PageSkipsNothing(out, filter, after, page, k);
    }
    if k in rows {
      var i :| 0 <= i < |rows| && rows[i] == k;
      assert i < |rows| - 1 ==> Less(rows[i], rows[|rows| - 1]);
    }
  }

  lemma PageAdvances(
      t: Table, out: Table, out': Table, filter: string -> bool, rule: Rule, after: Option<Key>, rows: seq<Key>)
    requires DoneUpTo(t, out, filter, rule, after) && rows != [] && out'.Keys == out.Keys
    requires forall k :: k in rows <==> k in Candidates(t, filter, after) && !Less(rows[|rows| - 1], k)
    requires forall k :: k in out ==>
               (k in rows ==> out[k].Some?) && out'[k] == if k in rows then rule(out[k].value) else out[k]
    ensures DoneUpTo(t, out', filter, rule, Some(rows[|rows| - 1]))
  {
    var last := rows[|rows| - 1];
    assert last in rows;
    forall k | k in t
      ensures out'[k] == if Candidate(t, filter, k) && !Less(last, k) then rule(t[k].value) else t[k]
    {
      assert k in Candidates(t, filter, after) <==> Candidate(t, filter, k) && After(after, k);
    }
  }

  /** `ks` is, in order, exactly the candidates that are not past `after`. */
  ghost predicate VisitedUpTo(t: Table, filter: string -> bool, after: Option<Key>, ks: seq<Key>) {
    && Increasing(ks)
    && forall k :: k in ks <==> k in Candidates(t, filter, None) && !After(after, k)
  }

  lemma VisitedAdvances(t: Table, filter: string -> bool, after: Option<Key>, visited: seq<Key>, rows: seq<Key>)
    requires VisitedUpTo(t, filter, after, visited) && Increasing(rows) && rows != []
    requires forall k :: k in rows <==> k in Candidates(t, filter, after) && !Less(rows[|rows| - 1], k)
    ensures VisitedUpTo(t, filter, Some(rows[|rows| - 1]), visited + rows)
    ensures Candidates(t, filter, Some(rows[|rows| - 1])) < Candidates(t, filter, after)
  {
    var last := rows[|rows| - 1];
    assert last in rows && last !in Candidates(t, filter, Some(last));
    var ks := visited + rows;
    forall i, j | 0 <= i < j < |ks| ensures Less(ks[i], ks[j]) {
      if i < |visited| <= j {
        assert ks[i] in visited && ks[j] in rows;
      }
    }
  }

  lemma NothingLeft(t: Table, out: Table, filter: string -> bool, rule: Rule, after: Option<Key>, visited: seq<Key>)
    requires DoneUpTo(t, out, filter, rule, after) && VisitedUpTo(t, filter, after, visited)
    requires Candidates(out, filter, after) == {}
    ensures out == RewriteAll(t, filter, rule) && VisitedUpTo(t, filter, after, visited)
    ensures forall k :: k in visited <==> k in Candidates(t, filter, None)
  {
    LaterCandidatesUnchanged(t, out, filter, rule, after);
    forall k | k in Candidates(t, filter, None) ensures !After(after, k) {
      assert k !in Candidates(t, filter, after);
    }
    assert forall k :: Candidate(t, filter, k) ==> k in Candidates(t, filter, None);
  }

  /** The paging loop terminates, visits each candidate once and in order although it updates the
      table it reads, and leaves the table one pass over all rows would leave. */
  method PagedRewrite(t: Table, filter: string -> bool, rule: Rule, page: nat)
    returns (out: Table, visited: seq<Key>)
    requires page >= 1
    ensures out == RewriteAll(t, filter, rule)
    ensures out.Keys == t.Keys
    ensures forall k :: k in t ==>
              out[k] == if t[k].Some? && filter(t[k].value) then rule(t[k].value) else t[k]
    ensures Increasing(visited)
    ensures forall k :: k in visited <==> k in t && t[k].Some? && filter(t[k].value)
  {
    out, visited := t, [];
    var after: Option<Key> := None;
    var rows := SelectPage(out, filter, after, page);
    while rows != []
      invariant DoneUpTo(t, out, filter, rule, after)
      invariant rows == SelectPage(out, filter, after, page)
      invariant VisitedUpTo(t, filter, after, visited)
      decreases Candidates(t, filter, after)
    {
      var out' := UpdatePage(out, rows, rule);
      forall k ensures k in rows <==> k in Candidates(t, filter, after) && !Less(rows[|rows| - 1], k) {
        PageIsAnInterval(t, out, filter, rule, after, page, k);
      }
      PageAdvances(t, out, out', filter, rule, after, rows);
      VisitedAdvances(t, filter, after, visited, rows);
      visited := visited + rows;
      out, after := out', Some(rows[|rows| - 1]);
      rows := SelectPage(out, filter, after, page);
    }
    NothingLeft(t, out, filter, rule, after, visited);
    assert forall k :: k in Candidates(t, filter, None) <==> k in t && t[k].Some? && filter(t[k].value);
  }

  // ----- Repeating a rewrite -----

  lemma RewriteIsIdempotent(t: Table, filter: string -> bool, rule: Rule)
    requires forall s :: rule(s).Some? ==> rule(rule(s).value) == rule(s)
    ensures RewriteAll(RewriteAll(t, filter, rule), filter, rule) == RewriteAll(t, filter, rule)
  {
    var once := RewriteAll(t, filter, rule);
    var twice := RewriteAll(once, filter, rule);
    forall k | k in t ensures twice[k] == once[k] {
      if Candidate(once, filter, k) && Candidate(t, filter, k) {
        assert rule(t[k].value) == once[k];
      }
    }
  }

  /** A prefilter that only skips rows the rule keeps does not change the result. */
  lemma PrefilterIsHarmless(t: Table, filter: string -> bool, rule: Rule)
    requires forall s :: !filter(s) ==> rule(s) == Some(s)
    ensures RewriteAll(t, filter, rule) == RewriteAll(t, _ => true, rule)
  {
  }

  // ----- Migration 0101 -----

  predicate HasAsciiAlnum(s: string) {
    exists i :: 0 <= i < |s| && AsciiAlnum(s[i])
  }

  function Prefilter(): string -> bool {
    s => !HasAsciiAlnum(s)
  }

  /** Blank names become `value`; every other name stays. */
  function RepairRule(u: Unicode, value: Option<string>): Rule {
    s => if HasVisible(u, s) then Some(s) else value
  }

  /** The replacement is absent or is itself visible. */
  predicate GoodReplacement(u: Unicode, value: Option<string>) {
    value.Some? ==> HasVisible(u, value.value)
  }

  lemma GuestIsVisible(u: Unicode)
    requires Standard(u)
    ensures GoodReplacement(u, Some("Guest"))
  {
    assert Visible(u, "Guest"[0]);
  }

  lemma AlnumIsVisible(u: Unicode, s: string)
    requires Standard(u) && HasAsciiAlnum(s)
    ensures HasVisible(u, s)
  {
    var i :| 0 <= i < |s| && AsciiAlnum(s[i]);
    assert Visible(u, s[i]);
  }

  /** Afterwards no stored name is blank, names that were not blank are untouched, and the prefilter
      has skipped no blank one. */
  method Repair(u: Unicode, t: Table, value: Option<string>, page: nat) returns (out: Table, visited: seq<Key>)
    requires Standard(u) && GoodReplacement(u, value) && page >= 1
    ensures out == RewriteAll(t, _ => true, RepairRule(u, value))
    ensures forall k :: k in out && out[k].Some? ==> HasVisible(u, out[k].value)
    ensures out.Keys == t.Keys
    ensures forall k :: k in t && t[k].Some? && HasVisible(u, t[k].value) ==> out[k] == t[k]
    ensures forall k :: k in t && t[k].Some? && !HasVisible(u, t[k].value) ==> out[k] == value && k in visited
    ensures forall k :: k in t && t[k].None? ==> out[k] == None
    ensures Increasing(visited)
    ensures forall k :: k in visited <==>
              k in t && t[k].Some? && forall i :: 0 <= i < |t[k].value| ==> !AsciiAlnum(t[k].value[i])
  {
    out, visited := PagedRewrite(t, Prefilter(), RepairRule(u, value), page);
    forall s | !Prefilter()(s) ensures HasVisible(u, s) && RepairRule(u, value)(s) == Some(s) { AlnumIsVisible(u, s); }
    PrefilterIsHarmless(t, Prefilter(), RepairRule(u, value));
    forall k | k in t && t[k].Some? && !HasVisible(u, t[k].value) ensures k in visited {
      assert Prefilter()(t[k].value);
    }
  }

  lemma SecondRepairChangesNothing(u: Unicode, t: Table, value: Option<string>)
    requires GoodReplacement(u, value)
    ensures
      var once := RewriteAll(t, _ => true, RepairRule(u, value));
      RewriteAll(once, _ => true, RepairRule(u, value)) == once
  {
    RewriteIsIdempotent(t, _ => true, RepairRule(u, value));
  }

  /** Blank names have become `value` and nothing else changed. */
  ghost predicate RepairedTo(u: Unicode, t: Table, out: Table, value: Option<string>) {
    && out.Keys == t.Keys
    && forall k :: k in t ==> out[k] == if t[k].Some? && !HasVisible(u, t[k].value) then value else t[k]
  }

  ghost predicate NotNull(t: Table) {
    forall k :: k in t ==> t[k].Some?
  }

  ghost predicate NoBlank(u: Unicode, t: Table) {
    forall k :: k in t && t[k].Some? ==> HasVisible(u, t[k].value)
  }

  /** The four repairs: accounts and room guests lose a blank name, guest sessions and bans, whose
      column is not nullable, become "Guest". */
  method UpgradeBlankNames(u: Unicode, users: Table, guests: Table, sessions: Table, bans: Table, page: nat)
    returns (users': Table, guests': Table, sessions': Table, bans': Table)
    requires Standard(u) && page >= 1 && NotNull(sessions) && NotNull(bans)
    ensures NoBlank(u, users') && NoBlank(u, guests') && NoBlank(u, sessions') && NoBlank(u, bans')
    ensures NotNull(sessions') && NotNull(bans')
    ensures RepairedTo(u, users, users', None) && RepairedTo(u, guests, guests', None)
    ensures RepairedTo(u, sessions, sessions', Some("Guest")) && RepairedTo(u, bans, bans', Some("Guest"))
    ensures users' == RewriteAll(users, _ => true, RepairRule(u, None))
    ensures guests' == RewriteAll(guests, _ => true, RepairRule(u, None))
    ensures sessions' == RewriteAll(sessions, _ => true, RepairRule(u, Some("Guest")))
    ensures bans' == RewriteAll(bans, _ => true, RepairRule(u, Some("Guest")))
  {
    GuestIsVisible(u);
    var visited: seq<Key>;
    users', visited := Repair(u, users, None, page);
    guests', visited := Repair(u, guests, None, page);
    sessions', visited := Repair(u, sessions, Some("Guest"), page);
    bans', visited := Repair(u, bans, Some("Guest"), page);
  }

  // ----- Migration 0100 -----

  method FilterCategoryC(u: Unicode, raw: string) returns (r: string)
    ensures r == Filter(Unfiltered(u), raw)
  {
    r := "";
    for i := 0 to |raw|
      invariant r == Filter(Unfiltered(u), raw[..i])
    {
      FilterOneMore(Unfiltered(u), raw, i);
      if Keep(raw[i]) || raw[i] == ' ' || !u.categoryC(raw[i]) {
        r := r + [raw[i]];
      }
    }
    assert raw[..|raw|] == raw;
  }

  lemma FilterOneMore(keep: char -> bool, s: string, i: nat)
    requires i < |s|
    ensures Filter(keep, s[..i + 1]) == Filter(keep, s[..i]) + if keep(s[i]) then [s[i]] else []
  {
    FilterConcat(keep, s[..i], [s[i]]);
    assert s[..i + 1] == s[..i] + [s[i]] && [s[i]][1..] == "";
  }

  method Normalise(u: Unicode, seg: Segmenter, raw: string) returns (r: Option<string>)
    requires Segments(seg)
    ensures r == Normalise0100(u, seg, raw)
  {
    var cleaned := FilterCategoryC(u, raw);
    cleaned := Strip(u, cleaned);
    cleaned := TruncateGraphemes(seg, cleaned, 50);
    cleaned := Strip(u, cleaned);
    return if cleaned == "" then None else Some(cleaned);
  }

  function NormaliseRule(u: Unicode, seg: Segmenter): Rule
    requires Segments(seg)
  {
    s => Normalise0100(u, seg, s)
  }

  method NormaliseNames(u: Unicode, seg: Segmenter, t: Table, page: nat) returns (out: Table, visited: seq<Key>)
    requires Segments(seg) && page >= 1
    ensures out == RewriteAll(t, _ => true, NormaliseRule(u, seg))
    ensures out.Keys == t.Keys
    ensures forall k :: k in t ==> out[k] == if t[k].None? then None else Normalise0100(u, seg, t[k].value)
    ensures Increasing(visited) && forall k :: k in visited <==> k in t && t[k].Some?
  {
    out, visited := PagedRewrite(t, _ => true, NormaliseRule(u, seg), page);
  }

  lemma SecondNormalisationChangesNothing(u: Unicode, seg: Segmenter, t: Table)
    requires Segments(seg)
    ensures
      var once := RewriteAll(t, _ => true, NormaliseRule(u, seg));
      RewriteAll(once, _ => true, NormaliseRule(u, seg)) == once
  {
    forall s | Normalise0100(u, seg, s).Some?
      ensures Normalise0100(u, seg, Normalise0100(u, seg, s).value) == Normalise0100(u, seg, s)
    {
      Normalise0100IsIdempotent(u, seg, s);
    }
    RewriteIsIdempotent(t, _ => true, NormaliseRule(u, seg));
  }
}
