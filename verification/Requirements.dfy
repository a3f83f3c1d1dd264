/** The requirement index: which lines of a document define a requirement, and with what section
    and summary.

    The patterns that recognise headings, markers and block ends are parameters, and so is the
    stripping of inline Markdown. Lines are numbered from one in the results. */
module Requirements {
  import opened Base

  /** A definition marker: its id, and where in the line it ends. */
  datatype Marker = Marker(id: string, end: nat)

  datatype Grammar = Grammar(
    heading: string -> Option<string>,
    markers: string -> seq<Marker>,
    blockEnd: string -> bool,
    nextDefinition: string -> bool,
    strip: string -> string)

  datatype Requirement = Requirement(id: string, section: string, summary: string, line: nat)

  datatype Problem =
    | TwoMarkers(line: nat)
    | DefinedTwice(id: string, first: nat, line: nat)
    | NoSection(id: string, line: nat)

  datatype Result = Ok(found: seq<Requirement>) | Err(problem: Problem)

  /** Markers end inside their line. */
  ghost predicate Proper(g: Grammar) {
    forall line, i :: 0 <= i < |g.markers(line)| ==> g.markers(line)[i].end <= |line|
  }

  // ----- What a document defines -----

  predicate Defines(g: Grammar, line: string) {
    g.heading(line).None? && g.markers(line) != []
  }

  /** The nearest heading, or nothing. */
  function SectionBefore(g: Grammar, lines: seq<string>): string {
    if lines == [] then ""
    else
      match g.heading(lines[|lines| - 1])
      case Some(section) => section
      case None => SectionBefore(g, lines[..|lines| - 1])
  }

  predicate EndsBlock(g: Grammar, line: string) {
    g.blockEnd(line) || g.nextDefinition(line)
  }

  /** The end of the block that continues at line `i`. */
  function BlockEnd(g: Grammar, lines: seq<string>, i: nat): (j: nat)
    requires i <= |lines|
    ensures i <= j <= |lines|
    ensures forall k :: i <= k < j ==> !EndsBlock(g, lines[k])
    ensures j < |lines| ==> EndsBlock(g, lines[j])
    decreases |lines| - i
  {
    if i == |lines| || EndsBlock(g, lines[i]) then i else BlockEnd(g, lines, i + 1)
  }

  function Summary(g: Grammar, lines: seq<string>, i: nat): string
    requires Proper(g) && i < |lines| && Defines(g, lines[i])
  {
    var m := g.markers(lines[i])[0];
    g.strip(JoinSpace([lines[i][m.end..]] + lines[i + 1..BlockEnd(g, lines, i + 1)]))
  }

  function IdAt(g: Grammar, lines: seq<string>, i: nat): string
    requires i < |lines| && Defines(g, lines[i])
  {
    g.markers(lines[i])[0].id
  }

  function Entry(g: Grammar, lines: seq<string>, i: nat): Requirement
    requires Proper(g) && i < |lines| && Defines(g, lines[i])
  {
    Requirement(IdAt(g, lines, i), SectionBefore(g, lines[..i]), Summary(g, lines, i), i + 1)
  }

  /** A line is unambiguous: one marker, under a heading, with an id no earlier line has. */
  ghost predicate LineGood(g: Grammar, lines: seq<string>, i: nat)
    requires i < |lines|
  {
    Defines(g, lines[i]) ==>
      && |g.markers(lines[i])| == 1
      && SectionBefore(g, lines[..i]) != ""
      && forall j :: 0 <= j < i && Defines(g, lines[j]) ==> IdAt(g, lines, j) != IdAt(g, lines, i)
  }

  ghost predicate Good(g: Grammar, lines: seq<string>, n: nat)
    requires n <= |lines|
  {
    forall i :: 0 <= i < n ==> LineGood(g, lines, i)
  }

  /** One entry for each defining line among the first `n`, in order. */
  function Entries(g: Grammar, lines: seq<string>, n: nat): seq<Requirement>
    requires Proper(g) && n <= |lines|
  {
    if n == 0 then []
    else Entries(g, lines, n - 1) + if Defines(g, lines[n - 1]) then [Entry(g, lines, n - 1)] else []
  }

  // ----- The parser -----

  method CollectBlock(g: Grammar, lines: seq<string>, i: nat, m: Marker) returns (block: seq<string>)
    requires Proper(g) && i < |lines| && Defines(g, lines[i]) && m == g.markers(lines[i])[0]
    ensures g.strip(JoinSpace(block)) == Summary(g, lines, i)
    ensures 1 <= |block| <= |lines| - i && block[0] == lines[i][m.end..]
    ensures forall k :: 1 <= k < |block| ==>
              block[k] == lines[i + k] && !g.blockEnd(lines[i + k]) && !g.nextDefinition(lines[i + k])
    ensures i + |block| < |lines| ==> g.blockEnd(lines[i + |block|]) || g.nextDefinition(lines[i + |block|])
  {
    block := [lines[i][m.end..]];
    var j := i + 1;
    while j < |lines| && !EndsBlock(g, lines[j])
      invariant i + 1 <= j <= |lines|
      invariant block == [lines[i][m.end..]] + lines[i + 1..j]
      invariant BlockEnd(g, lines, i + 1) == BlockEnd(g, lines, j)
    {
      block := block + [lines[j]];
      j := j + 1;
    }
  }

  /** Which lines the parser has met each id on. */
  ghost predicate SeenOk(g: Grammar, lines: seq<string>, n: nat, seen: map<string, nat>)
    requires n <= |lines|
  {
    && (forall j :: 0 <= j < n && Defines(g, lines[j]) ==> IdAt(g, lines, j) in seen)
    && (forall id :: id in seen ==>
          1 <= seen[id] <= n && Defines(g, lines[seen[id] - 1]) && IdAt(g, lines, seen[id] - 1) == id)
  }

  /** The problem names the first ambiguous line and what is wrong with it, the earlier problem when a
      line has two. */
  ghost predicate Explains(g: Grammar, lines: seq<string>, p: Problem) {
    && 1 <= p.line <= |lines|
    && Good(g, lines, p.line - 1) && Defines(g, lines[p.line - 1])
    && match p
       case TwoMarkers(line) => |g.markers(lines[line - 1])| > 1
       case DefinedTwice(id, first, line) =>
         && |g.markers(lines[line - 1])| == 1 && g.markers(lines[line - 1])[0].id == id
         && 1 <= first < line && Defines(g, lines[first - 1]) && g.markers(lines[first - 1])[0].id == id
       case NoSection(id, line) =>
         && |g.markers(lines[line - 1])| == 1 && g.markers(lines[line - 1])[0].id == id
         && (forall j :: 0 <= j < line - 1 && Defines(g, lines[j]) ==> g.markers(lines[j])[0].id != id)
         && SectionBefore(g, lines[..line - 1]) == ""
  }

  lemma ExplainedIsNotGood(g: Grammar, lines: seq<string>, p: Problem)
    requires Explains(g, lines, p)
    ensures !LineGood(g, lines, p.line - 1) && !Good(g, lines, |lines|)
  {
    if p.DefinedTwice? {
      assert IdAt(g, lines, p.first - 1) == IdAt(g, lines, p.line - 1);
    }
    assert !LineGood(g, lines, p.line - 1);
  }

  /** The loop's state after the first `n` lines. */
  ghost predicate ParsedUpTo(
      g: Grammar, lines: seq<string>, n: nat, section: string, seen: map<string, nat>, found: seq<Requirement>)
    requires Proper(g) && n <= |lines|
  {
    && section == SectionBefore(g, lines[..n])
    && SeenOk(g, lines, n, seen)
    && Good(g, lines, n)
    && found == Entries(g, lines, n)
  }

  lemma SkipLine(
      g: Grammar, lines: seq<string>, n: nat, section: string, seen: map<string, nat>, found: seq<Requirement>)
    requires Proper(g) && n < |lines| && ParsedUpTo(g, lines, n, section, seen, found)
    requires !Defines(g, lines[n])
    ensures
      var heading := g.heading(lines[n]);
      ParsedUpTo(g, lines, n + 1, if heading.Some? then heading.value else section, seen, found)
  {
    assert lines[..n + 1][..n] == lines[..n];
    assert LineGood(g, lines, n);
  }

  /** A new id joins the ids seen. */
  lemma SeeLine(g: Grammar, lines: seq<string>, n: nat, seen: map<string, nat>)
    requires n < |lines| && SeenOk(g, lines, n, seen) && Defines(g, lines[n]) && IdAt(g, lines, n) !in seen
    ensures SeenOk(g, lines, n + 1, seen[IdAt(g, lines, n) := n + 1])
    ensures forall j :: 0 <= j < n && Defines(g, lines[j]) ==> IdAt(g, lines, j) != IdAt(g, lines, n)
  {
  }

  lemma AddLine(
      g: Grammar, lines: seq<string>, n: nat, section: string, seen: map<string, nat>, found: seq<Requirement>)
    requires Proper(g) && n < |lines| && ParsedUpTo(g, lines, n, section, seen, found)
    requires Defines(g, lines[n]) && |g.markers(lines[n])| == 1
    requires IdAt(g, lines, n) !in seen && section != ""
    ensures
      ParsedUpTo(g, lines, n + 1, section, seen[IdAt(g, lines, n) := n + 1], found + [Entry(g, lines, n)])
  {
    SeeLine(g, lines, n, seen);
    assert SectionBefore(g, lines[..n + 1]) == section by { assert lines[..n + 1][..n] == lines[..n]; }
    assert LineGood(g, lines, n);
    assert Good(g, lines, n + 1);
  }

  /** The three refusals for a line with a marker, in the order the parser makes them. */
  method CheckMarkers(
      g: Grammar, lines: seq<string>, n: nat, section: string, seen: map<string, nat>, markers: seq<Marker>)
    returns (problem: Option<Problem>)
    requires n < |lines| && Defines(g, lines[n]) && markers == g.markers(lines[n])
    requires section == SectionBefore(g, lines[..n]) && SeenOk(g, lines, n, seen) && Good(g, lines, n)
    ensures problem.Some? ==> problem.value.line == n + 1 && Explains(g, lines, problem.value)
    ensures problem.None? ==> |markers| == 1 && markers[0].id !in seen && section != ""
  {
    if |markers| > 1 {
      return Some(TwoMarkers(n + 1));
    }
    var id := markers[0].id;
    if id in seen {
      return Some(DefinedTwice(id, seen[id], n + 1));
    }
    if section == "" {
      return Some(NoSection(id, n + 1));
    }
    return None;
  }

  /** Success is exactly the absence of ambiguity, and then the result has one entry for each
      defining line; a failure names the first ambiguous line and what is wrong with it. */
  method ParseRequirements(g: Grammar, lines: seq<string>) returns (r: Result)
    requires Proper(g)
    ensures r.Ok? <==> Good(g, lines, |lines|)
    ensures r.Ok? ==> r.found == Entries(g, lines, |lines|)
    ensures r.Err? ==> Explains(g, lines, r.problem) && !LineGood(g, lines, r.problem.line - 1)
  {
    var section := "";
    var seen: map<string, nat> := map[];
    var found: seq<Requirement> := [];
    for i := 0 to |lines|
      invariant ParsedUpTo(g, lines, i, section, seen, found)
    {
      var heading := g.heading(lines[i]);
      var markers := g.markers(lines[i]);
      if heading.Some? {
        SkipLine(g, lines, i, section, seen, found);
        section := heading.value;
      } else if markers == [] {
        SkipLine(g, lines, i, section, seen, found);
      } else {
        var problem := CheckMarkers(g, lines, i, section, seen, markers);
        if problem.Some? {
          ExplainedIsNotGood(g, lines, problem.value);
          return Err(problem.value);
        }
        var m := markers[0];
        var block := CollectBlock(g, lines, i, m);
        AddLine(g, lines, i, section, seen, found);
        seen := seen[m.id := i + 1];
        found := found + [Requirement(m.id, section, g.strip(JoinSpace(block)), i + 1)];
      }
    }
    return Ok(found);
  }

  // ----- What the index holds -----

  /** `section` is the nearest heading before line `i`, or nothing when there is none. */
  ghost predicate NearestHeading(g: Grammar, lines: seq<string>, i: nat, section: string)
    requires i <= |lines|
  {
    || (section == "" && forall k :: 0 <= k < i ==> g.heading(lines[k]).None?)
    || exists h :: 0 <= h < i && g.heading(lines[h]) == Some(section)
                   && forall k :: h < k < i ==> g.heading(lines[k]).None?
  }

  /** The block of line `i` runs to line `j`: the first after it that ends a block or defines anew. */
  predicate BlockRunsTo(g: Grammar, lines: seq<string>, i: nat, j: nat) {
    && i < j <= |lines|
    && (forall k :: i < k < j ==> !g.blockEnd(lines[k]) && !g.nextDefinition(lines[k]))
    && (j < |lines| ==> g.blockEnd(lines[j]) || g.nextDefinition(lines[j]))
  }

  /** `e` says of its line what the document says: the id of its first marker, its nearest heading, and
      what follows the marker up to the end of the block, joined and stripped. */
  ghost predicate Describes(g: Grammar, lines: seq<string>, e: Requirement)
    requires Proper(g)
  {
    && 1 <= e.line <= |lines|
    && var i := e.line - 1;
    && g.heading(lines[i]).None? && g.markers(lines[i]) != []
    && e.id == g.markers(lines[i])[0].id
    && NearestHeading(g, lines, i, e.section)
    && exists j: nat :: BlockRunsTo(g, lines, i, j)
                   && e.summary == g.strip(JoinSpace([lines[i][g.markers(lines[i])[0].end..]] + lines[i + 1..j]))
  }

  lemma {:induction false} SectionIsNearestHeading(g: Grammar, lines: seq<string>, i: nat)
    requires i <= |lines|
    ensures NearestHeading(g, lines, i, SectionBefore(g, lines[..i]))
  {
    if i == 0 {
    } else {
      var n := i - 1;
      SectionIsNearestHeading(g, lines, n);
      assert lines[..i][..n] == lines[..n] && lines[..i][n] == lines[n];
      if g.heading(lines[n]).None? && SectionBefore(g, lines[..n]) != "" {
        var h :| 0 <= h < n && g.heading(lines[h]) == Some(SectionBefore(g, lines[..n]))
                 && forall k :: h < k < n ==> g.heading(lines[k]).None?;
        assert forall k :: h < k < i ==> g.heading(lines[k]).None?;
      }
    }
  }

  lemma EntryDescribes(g: Grammar, lines: seq<string>, i: nat)
    requires Proper(g) && i < |lines| && Defines(g, lines[i])
    ensures Describes(g, lines, Entry(g, lines, i))
  {
    SectionIsNearestHeading(g, lines, i);
    assert BlockRunsTo(g, lines, i, BlockEnd(g, lines, i + 1));
  }

  ghost predicate AllDescribe(g: Grammar, lines: seq<string>, es: seq<Requirement>, n: nat)
    requires Proper(g)
  {
    forall e :: e in es ==> Describes(g, lines, e) && e.line <= n
  }

  ghost predicate InOrder(es: seq<Requirement>) {
    forall j, k :: 0 <= j < k < |es| ==> es[j].line < es[k].line
  }

  lemma AppendInOrder(es: seq<Requirement>, e: Requirement)
    requires InOrder(es) && forall x :: x in es ==> x.line < e.line
    ensures InOrder(es + [e])
  {
    forall j, k | 0 <= j < k < |es + [e]| ensures (es + [e])[j].line < (es + [e])[k].line {
      if k == |es| {
        assert es[j] in es;
      }
    }
  }

  lemma AppendDescribed(g: Grammar, lines: seq<string>, es: seq<Requirement>, n: nat)
    requires Proper(g) && n < |lines| && Defines(g, lines[n]) && AllDescribe(g, lines, es, n) && InOrder(es)
    ensures AllDescribe(g, lines, es + [Entry(g, lines, n)], n + 1) && InOrder(es + [Entry(g, lines, n)])
  {
    var e := Entry(g, lines, n);
    EntryDescribes(g, lines, n);
    AppendInOrder(es, e);
  }

  lemma {:induction false} EntriesInOrder(g: Grammar, lines: seq<string>, n: nat)
    requires Proper(g) && n <= |lines|
    ensures AllDescribe(g, lines, Entries(g, lines, n), n) && InOrder(Entries(g, lines, n))
  {
    if n == 0 {
    } else {
      EntriesInOrder(g, lines, n - 1);
      var init := Entries(g, lines, n - 1);
      if Defines(g, lines[n - 1]) {
        AppendDescribed(g, lines, init, n - 1);
        assert Entries(g, lines, n) == init + [Entry(g, lines, n - 1)];
      } else {
        assert Entries(g, lines, n) == init;
      }
    }
  }

  lemma {:induction false} EveryDefiningLineHasAnEntry(g: Grammar, lines: seq<string>, n: nat, i: nat)
    requires Proper(g) && i < n <= |lines| && Defines(g, lines[i])
    ensures Entry(g, lines, i) in Entries(g, lines, n)
  {
    if i == n - 1 {
    } else {
      EveryDefiningLineHasAnEntry(g, lines, n - 1, i);
    }
  }

  /** The entries are the defining lines, each once, in document order, with the id, section and
      summary of its line, and no two share an id. */
  lemma IndexIsComplete(g: Grammar, lines: seq<string>)
    requires Proper(g) && Good(g, lines, |lines|)
    ensures
      var es := Entries(g, lines, |lines|);
      && AllDescribe(g, lines, es, |lines|) && InOrder(es)
      && (forall j, k :: 0 <= j < k < |es| ==> es[j].id != es[k].id)
      && (forall i :: 0 <= i < |lines| && Defines(g, lines[i]) ==> Entry(g, lines, i) in es)
  {
    var es := Entries(g, lines, |lines|);
    EntriesInOrder(g, lines, |lines|);
    forall i | 0 <= i < |lines| && Defines(g, lines[i]) ensures Entry(g, lines, i) in es {
      EveryDefiningLineHasAnEntry(g, lines, |lines|, i);
    }
    forall j, k | 0 <= j < k < |es| ensures es[j].id != es[k].id {
      assert es[j] in es && es[k] in es;
      GoodIdsDiffer(g, lines, es[j], es[k]);
    }
  }

  lemma GoodIdsDiffer(g: Grammar, lines: seq<string>, a: Requirement, b: Requirement)
    requires Proper(g) && Good(g, lines, |lines|)
    requires Describes(g, lines, a) && Describes(g, lines, b) && a.line < b.line
    ensures a.id != b.id
  {
    assert LineGood(g, lines, b.line - 1);
    assert IdAt(g, lines, a.line - 1) == a.id && IdAt(g, lines, b.line - 1) == b.id;
  }
}
