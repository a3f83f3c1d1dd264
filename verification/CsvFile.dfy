/** The rendered index and a reader for it.

    The reader follows section 2 of RFC 4180 for fields, quotes and separators; records end with a
    bare line feed, because that is what the file has. */
module CsvFile {
  import opened Base
  import opened Requirements

  const QUOTE: char := '"'
  const HEADER: seq<string> := ["requirement_id", "section", "summary"]

  // ----- Writing -----

  function Escape(s: string): string {
    if s == "" then "" else (if s[0] == QUOTE then [QUOTE, QUOTE] else [s[0]]) + Escape(s[1..])
  }

  function Quoted(s: string): string {
    [QUOTE] + Escape(s) + [QUOTE]
  }

  function RenderRow(r: Requirement): string {
    r.id + "," + (Quoted(r.section) + "," + Quoted(r.summary))
  }

  /** Every row ends with a line feed. */
  function RenderRows(rs: seq<Requirement>): string {
    if rs == [] then "" else RenderRow(rs[0]) + ("\n" + RenderRows(rs[1..]))
  }

  function RenderCsv(rs: seq<Requirement>): string {
    HEADER[0] + ("," + (HEADER[1] + ("," + (HEADER[2] + ("\n" + RenderRows(rs))))))
  }

  // ----- Reading -----

  /** A field and the text after it. */
  datatype Piece = Piece(field: string, rest: string)

  /** The rest of a quoted field, after its opening quote. */
  function ReadQuoted(s: string): (p: Option<Piece>)
    ensures p.Some? ==> |p.value.rest| < |s|
    decreases |s|
  {
    if s == "" then None
    else if s[0] != QUOTE then
      match ReadQuoted(s[1..])
      case None => None
      case Some(p) => Some(Piece([s[0]] + p.field, p.rest))
    else if |s| > 1 && s[1] == QUOTE then
      match ReadQuoted(s[2..])
      case None => None
      case Some(p) => Some(Piece([QUOTE] + p.field, p.rest))
    else Some(Piece("", s[1..]))
  }

  predicate EndsBare(c: char) {
    c == ',' || c == '\n'
  }

  function ReadBare(s: string): (p: Piece)
    ensures |p.rest| <= |s|
  {
    if s == "" || EndsBare(s[0]) then Piece("", s)
    else
      var p := ReadBare(s[1..]);
      Piece([s[0]] + p.field, p.rest)
  }

  function ReadField(s: string): (p: Option<Piece>)
    ensures p.Some? ==> |p.value.rest| <= |s|
  {
    if s != "" && s[0] == QUOTE then ReadQuoted(s[1..]) else Some(ReadBare(s))
  }

  /** The fields up to the line feed, and the text after it. */
  function ReadRecord(s: string): (r: Option<(seq<string>, string)>)
    ensures r.Some? ==> |r.value.1| < |s|
    decreases |s|
  {
    match ReadField(s)
    case None => None
    case Some(p) =>
      if p.rest == "" then None
      else if p.rest[0] == '\n' then Some(([p.field], p.rest[1..]))
      else if p.rest[0] != ',' then None
      else
        match ReadRecord(p.rest[1..])
        case None => None
        case Some((fields, rest)) => Some(([p.field] + fields, rest))
  }

  function ReadRecords(s: string): Option<seq<seq<string>>>
    decreases |s|
  {
    if s == "" then Some([])
    else
      match ReadRecord(s)
      case None => None
      case Some((fields, rest)) =>
        match ReadRecords(rest)
        case None => None
        case Some(records) => Some([fields] + records)
  }

  // ----- Round trip -----

  /** An id needs no quotes. */
  predicate BareSafe(s: string) {
    forall i :: 0 <= i < |s| ==> !EndsBare(s[i]) && s[i] != QUOTE
  }

  predicate Boundary(rest: string) {
    rest != "" && EndsBare(rest[0])
  }

  lemma {:induction false} ReadsBareBack(s: string, rest: string)
    requires BareSafe(s) && Boundary(rest)
    ensures ReadBare(s + rest) == Piece(s, rest)
  {
    if s == "" {
      assert s + rest == rest;
    } else {
      assert (s + rest)[1..] == s[1..] + rest;
      ReadsBareBack(s[1..], rest);
    }
  }

  lemma ReadsBareFieldBack(s: string, rest: string)
    requires BareSafe(s) && Boundary(rest)
    ensures ReadField(s + rest) == Some(Piece(s, rest))
  {
    ReadsBareBack(s, rest);
    assert (s + rest)[0] == if s == "" then rest[0] else s[0];
  }

  lemma ReadsOneChar(c: char, tail: string)
    ensures ReadQuoted((if c == QUOTE then [QUOTE, QUOTE] else [c]) + tail) ==
            match ReadQuoted(tail)
            case None => None
            case Some(p) => Some(Piece([c] + p.field, p.rest))
  {
    if c == QUOTE {
      assert ([QUOTE, QUOTE] + tail)[2..] == tail;
    } else {
      assert ([c] + tail)[1..] == tail;
    }
  }

  lemma ConcatAssoc(a: string, b: string, c: string)
    ensures a + b + c == a + (b + c)
  {
  }

  lemma {:induction false} ReadsQuotedBack(s: string, rest: string)
    requires Boundary(rest)
    ensures ReadQuoted(Escape(s) + ([QUOTE] + rest)) == Some(Piece(s, rest))
  {
    if s == "" {
      assert Escape(s) + ([QUOTE] + rest) == [QUOTE] + rest;
      assert ([QUOTE] + rest)[1..] == rest;
    } else {
      var head := if s[0] == QUOTE then [QUOTE, QUOTE] else [s[0]];
      var end := [QUOTE] + rest;
      ReadsQuotedBack(s[1..], rest);
      ReadsOneChar(s[0], Escape(s[1..]) + end);
      ConcatAssoc(head, Escape(s[1..]), end);
      assert s == [s[0]] + s[1..];
    }
  }

  lemma ReadsFieldBack(s: string, rest: string)
    requires Boundary(rest)
    ensures ReadField(Quoted(s) + rest) == Some(Piece(s, rest))
  {
    ReadsQuotedBack(s, rest);
    assert (Quoted(s) + rest)[1..] == Escape(s) + ([QUOTE] + rest);
  }

  /** A field followed by a comma and a record. */
  lemma ReadsFieldThen(text: string, field: string, tail: string)
    requires ReadField(text) == Some(Piece(field, "," + tail))
    ensures ReadRecord(text) ==
            match ReadRecord(tail)
            case None => None
            case Some((fields, rest)) => Some(([field] + fields, rest))
  {
    assert ("," + tail)[1..] == tail;
  }

  lemma ReadsLastField(text: string, field: string, rest: string)
    requires ReadField(text) == Some(Piece(field, "\n" + rest))
    ensures ReadRecord(text) == Some(([field], rest))
  {
    assert ("\n" + rest)[1..] == rest;
  }

  lemma ReadsTwoQuotedBack(x: string, y: string, rest: string)
    ensures ReadRecord(Quoted(x) + ("," + (Quoted(y) + ("\n" + rest)))) == Some(([x, y], rest))
  {
    var c := Quoted(y) + ("\n" + rest);
    ReadsFieldBack(y, "\n" + rest);
    ReadsLastField(c, y, rest);
    ReadsFieldBack(x, "," + c);
    ReadsFieldThen(Quoted(x) + ("," + c), x, c);
    assert [x] + [y] == [x, y];
  }

  lemma RowShape(id: string, x: string, y: string, end: string)
    ensures id + "," + (x + "," + y) + end == id + ("," + (x + ("," + (y + end))))
  {
  }

  lemma ReadsRowBack(r: Requirement, rest: string)
    requires BareSafe(r.id)
    ensures ReadRecord(RenderRow(r) + ("\n" + rest)) == Some(([r.id, r.section, r.summary], rest))
  {
    var b := Quoted(r.section) + ("," + (Quoted(r.summary) + ("\n" + rest)));
    ReadsTwoQuotedBack(r.section, r.summary, rest);
    ReadsBareFieldBack(r.id, "," + b);
    ReadsFieldThen(r.id + ("," + b), r.id, b);
    RowShape(r.id, Quoted(r.section), Quoted(r.summary), "\n" + rest);
    assert [r.id] + [r.section, r.summary] == [r.id, r.section, r.summary];
  }

  function Fields(r: Requirement): seq<string> {
    [r.id, r.section, r.summary]
  }

  function AllFields(rs: seq<Requirement>): (fs: seq<seq<string>>)
    ensures |fs| == |rs| && forall i :: 0 <= i < |rs| ==> fs[i] == Fields(rs[i])
  {
    seq(|rs|, i requires 0 <= i < |rs| => Fields(rs[i]))
  }

  lemma {:induction false} ReadsRowsBack(rs: seq<Requirement>)
    requires forall i :: 0 <= i < |rs| ==> BareSafe(rs[i].id)
    ensures ReadRecords(RenderRows(rs)) == Some(AllFields(rs))
  {
    if rs == [] {
    } else {
      ReadsRowBack(rs[0], RenderRows(rs[1..]));
      ReadsRowsBack(rs[1..]);
      assert AllFields(rs) == [Fields(rs[0])] + AllFields(rs[1..]);
    }
  }

  lemma ReadsThreeBareBack(x: string, y: string, z: string, rest: string)
    requires BareSafe(x) && BareSafe(y) && BareSafe(z)
    ensures ReadRecord(x + ("," + (y + ("," + (z + ("\n" + rest)))))) == Some(([x, y, z], rest))
  {
    var c := z + ("\n" + rest);
    var b := y + ("," + c);
    ReadsBareFieldBack(z, "\n" + rest);
    ReadsLastField(c, z, rest);
    ReadsBareFieldBack(y, "," + c);
    ReadsFieldThen(b, y, c);
    ReadsBareFieldBack(x, "," + b);
    ReadsFieldThen(x + ("," + b), x, b);
    assert [x] + ([y] + [z]) == [x, y, z];
  }

  lemma HeaderIsBareSafe()
    ensures forall i :: 0 <= i < |HEADER| ==> BareSafe(HEADER[i])
  {
    assert BareSafe("requirement_id") && BareSafe("section") && BareSafe("summary");
  }

  /** The reader recovers the header and then id, section and summary of every requirement, whatever
      characters the section and the summary contain. */
  lemma CsvRoundTrip(rs: seq<Requirement>)
    requires forall i :: 0 <= i < |rs| ==> BareSafe(rs[i].id)
    ensures ReadRecords(RenderCsv(rs)) == Some([HEADER] + AllFields(rs))
  {
    HeaderIsBareSafe();
    ReadsThreeBareBack(HEADER[0], HEADER[1], HEADER[2], RenderRows(rs));
    assert [HEADER[0], HEADER[1], HEADER[2]] == HEADER;
    ReadsRowsBack(rs);
  }

  /** Only quotation marks are written differently, twice each. */
  lemma {:induction false} EscapeDoublesQuotes(a: string, b: string, c: char)
    ensures Escape(a + b) == Escape(a) + Escape(b)
    ensures Escape([c]) == if c == '"' then "\"\"" else [c]
  {
    assert [c][1..] == "";
    if a == "" {
      assert a + b == b;
    } else {
      EscapeDoublesQuotes(a[1..], b, c);
      assert (a + b)[1..] == a[1..] + b;
    }
  }

  /** Record by record: the three column names, then id, section and summary in that order. */
  lemma CsvRecordsExactly(rs: seq<Requirement>)
    requires forall i :: 0 <= i < |rs| ==> BareSafe(rs[i].id)
    ensures
      var records := ReadRecords(RenderCsv(rs));
      && records.Some? && |records.value| == |rs| + 1
      && records.value[0] == ["requirement_id", "section", "summary"]
      && forall i :: 0 <= i < |rs| ==> records.value[i + 1] == [rs[i].id, rs[i].section, rs[i].summary]
  {
    CsvRoundTrip(rs);
    forall i | 0 <= i < |rs| ensures ([HEADER] + AllFields(rs))[i + 1] == [rs[i].id, rs[i].section, rs[i].summary] {
    }
  }

  /** Equal files mean equal requirement lists. */
  lemma EqualFilesMeanEqualRequirements(a: seq<Requirement>, b: seq<Requirement>)
    requires forall i :: 0 <= i < |a| ==> BareSafe(a[i].id)
    requires forall i :: 0 <= i < |b| ==> BareSafe(b[i].id)
    requires RenderCsv(a) == RenderCsv(b)
    ensures |a| == |b|
    ensures forall i :: 0 <= i < |a| ==>
              a[i].id == b[i].id && a[i].section == b[i].section && a[i].summary == b[i].summary
  {
    CsvRoundTrip(a);
    CsvRoundTrip(b);
    assert ([HEADER] + AllFields(a))[1..] == AllFields(a);
    assert ([HEADER] + AllFields(b))[1..] == AllFields(b);
    forall i | 0 <= i < |a|
      ensures a[i].id == b[i].id && a[i].section == b[i].section && a[i].summary == b[i].summary
    {
      assert Fields(a[i]) == AllFields(a)[i] == AllFields(b)[i] == Fields(b[i]);
      assert Fields(a[i])[0] == Fields(b[i])[0] && Fields(a[i])[1] == Fields(b[i])[1]
          && Fields(a[i])[2] == Fields(b[i])[2];
    }
  }
}
