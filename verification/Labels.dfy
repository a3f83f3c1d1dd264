/** Normalisation of human labels, and the copies of the rule frozen in two migrations.

    The Unicode tables and the grapheme segmentation are parameters: every result holds for all
    tables that classify ASCII as Unicode does and for all segmentations into non-empty clusters. */
module Labels {
  import opened Base

  const ZWJ: char := '\U{200D}'
  const VS16: char := '\U{FE0F}'
  const BLANK_GLYPH: char := '\U{2800}'

  datatype Unicode = Unicode(
    categoryC: char -> bool,
    mark: char -> bool,
    ignorable: char -> bool,
    space: char -> bool)

  predicate AsciiAlnum(c: char) {
    'A' <= c <= 'Z' || 'a' <= c <= 'z' || '0' <= c <= '9'
  }

  /** The facts about ASCII the code relies on. */
  ghost predicate Standard(u: Unicode) {
    && u.space(' ') && !u.categoryC(' ') && !u.ignorable(' ')
    && forall c :: AsciiAlnum(c) ==> !u.space(c) && !u.categoryC(c) && !u.mark(c) && !u.ignorable(c)
  }

  predicate Keep(c: char) {
    c == ZWJ || c == VS16
  }

  predicate Hidden(u: Unicode, c: char) {
    !Keep(c) && (u.categoryC(c) || u.ignorable(c))
  }

  predicate Visible(u: Unicode, c: char) {
    !u.space(c) && !Keep(c) && c != BLANK_GLYPH && !u.mark(c) && !Hidden(u, c)
  }

  predicate HasVisible(u: Unicode, text: string) {
    exists i :: 0 <= i < |text| && Visible(u, text[i])
  }

  // ----- Filtering and stripping -----

  function Filter(keep: char -> bool, s: string): (r: string)
    ensures forall i :: 0 <= i < |r| ==> keep(r[i])
    ensures |r| <= |s|
  {
    if s == "" then "" else (if keep(s[0]) then [s[0]] else "") + Filter(keep, s[1..])
  }

  lemma {:induction false} FilterKeepsAll(keep: char -> bool, s: string)
    requires forall i :: 0 <= i < |s| ==> keep(s[i])
    ensures Filter(keep, s) == s
  {
    if s == "" {
    } else {
      FilterKeepsAll(keep, s[1..]);
    }
  }

  lemma {:induction false} FilterConcat(keep: char -> bool, a: string, b: string)
    ensures Filter(keep, a + b) == Filter(keep, a) + Filter(keep, b)
  {
    if a == "" {
      assert a + b == b;
    } else {
      assert (a + b)[1..] == a[1..] + b;
      FilterConcat(keep, a[1..], b);
    }
  }

  /** Filtering keeps the characters `keep` holds of, in order and as often as they occur. `told` says
      which those are, character by character. */
  lemma {:induction false} FilterSelects(keep: char -> bool, told: char -> bool, s: string) returns (at: seq<nat>)
    requires forall c :: keep(c) == told(c)
    ensures Selects(s, told, Filter(keep, s), at)
  {
    if s == "" {
      at := [];
    } else {
      var n := |s| - 1;
      at := FilterSelects(keep, told, s[..n]);
      FilterConcat(keep, s[..n], [s[n]]);
      SelectsAppend(s[..n], told, Filter(keep, s[..n]), at, s[n]);
      assert s == s[..n] + [s[n]] && [s[n]][1..] == "";
      if keep(s[n]) {
        at := at + [n];
      }
    }
  }

  predicate Stripped(u: Unicode, s: string) {
    s == "" || (!u.space(s[0]) && !u.space(s[|s| - 1]))
  }

  /** Removes spaces at both ends. */
  function Strip(u: Unicode, s: string): (r: string)
    ensures Stripped(u, r) && |r| <= |s|
    ensures forall c :: c in r ==> c in s
    decreases |s|
  {
    if s == "" then s
    else if u.space(s[0]) then Strip(u, s[1..])
    else if u.space(s[|s| - 1]) then Strip(u, s[..|s| - 1])
    else s
  }

  predicate AllSpace(u: Unicode, s: string) {
    forall i :: 0 <= i < |s| ==> u.space(s[i])
  }

  /** Stripping takes spaces from the ends and nothing else. */
  lemma {:induction false} StripTakesOnlyOuterSpace(u: Unicode, s: string) returns (a: string, b: string)
    ensures s == a + Strip(u, s) + b && AllSpace(u, a) && AllSpace(u, b)
    decreases |s|
  {
    a, b := "", "";
    if s == "" {
    } else if u.space(s[0]) {
      a, b := StripTakesOnlyOuterSpace(u, s[1..]);
      a := [s[0]] + a;
      assert s == [s[0]] + s[1..];
    } else if u.space(s[|s| - 1]) {
      a, b := StripTakesOnlyOuterSpace(u, s[..|s| - 1]);
      b := b + [s[|s| - 1]];
      assert s == s[..|s| - 1] + [s[|s| - 1]];
    }
  }

  /** `r` is `s` without spaces at its ends. */
  ghost predicate Trims(u: Unicode, s: string, r: string) {
    Stripped(u, r) && exists a, b :: s == a + r + b && AllSpace(u, a) && AllSpace(u, b)
  }

  lemma StripTrims(u: Unicode, s: string)
    ensures Trims(u, s, Strip(u, s))
  {
    var a, b := StripTakesOnlyOuterSpace(u, s);
  }

  // ----- Truncation at cluster boundaries -----

  type Segmenter = string -> seq<nat>

  function Sum(sizes: seq<nat>): nat {
    if sizes == [] then 0 else Sum(sizes[..|sizes| - 1]) + sizes[|sizes| - 1]
  }

  /** Every text is cut into non-empty clusters that cover it. */
  ghost predicate Segments(seg: Segmenter) {
    forall text :: Sum(seg(text)) == |text| && forall i :: 0 <= i < |seg(text)| ==> seg(text)[i] > 0
  }

  /** The size of the longest prefix of whole clusters that fits. */
  function Kept(sizes: seq<nat>, maxLen: nat): (kept: nat)
    ensures kept <= maxLen && kept <= Sum(sizes)
  {
    if sizes == [] then 0
    else
      var n := |sizes| - 1;
      if Sum(sizes) <= maxLen then Sum(sizes) else Kept(sizes[..n], maxLen)
  }

  /** Where a text is cut: not at all, at the last boundary that fits, or after one code point. */
  function Cut(seg: Segmenter, text: string, maxLen: nat): (n: nat)
    requires Segments(seg)
    ensures n <= |text| && n <= Max(maxLen, 1)
  {
    if |text| <= maxLen then |text|
    else if Kept(seg(text), maxLen) == 0 then 1
    else Kept(seg(text), maxLen)
  }

  function Truncate(seg: Segmenter, text: string, maxLen: nat): (r: string)
    requires Segments(seg)
    ensures r <= text
    ensures |r| <= Max(maxLen, 1)
  {
    text[..Cut(seg, text, maxLen)]
  }

  lemma {:induction false} SumMonotone(sizes: seq<nat>, m: nat, n: nat)
    requires m <= n <= |sizes|
    ensures Sum(sizes[..m]) <= Sum(sizes[..n])
  {
    if m == n {
    } else {
      SumMonotone(sizes, m, n - 1);
      assert sizes[..n][..n - 1] == sizes[..n - 1];
    }
  }

  /** `Kept` is a boundary, and no later boundary fits. */
  lemma {:induction false} KeptIsTheLastBoundaryThatFits(sizes: seq<nat>, maxLen: nat) returns (n: nat)
    ensures n <= |sizes| && Kept(sizes, maxLen) == Sum(sizes[..n])
    ensures forall m :: n < m <= |sizes| ==> Sum(sizes[..m]) > maxLen
  {
    if sizes == [] {
      n := 0;
    } else if Sum(sizes) <= maxLen {
      n := |sizes|;
      assert sizes[..n] == sizes;
    } else {
      var last := |sizes| - 1;
      n := KeptIsTheLastBoundaryThatFits(sizes[..last], maxLen);
      assert sizes[..last][..n] == sizes[..n];
      forall m | n < m <= |sizes| ensures Sum(sizes[..m]) > maxLen {
        if m <= last {
          assert sizes[..last][..m] == sizes[..m];
        } else {
          assert sizes[..m] == sizes;
        }
      }
    }
  }

  /** A text over the cap keeps the longest prefix of whole clusters that fits, or its first code
      point when not even the first cluster does. */
  lemma TruncationIsTheLongestFit(seg: Segmenter, text: string, maxLen: nat) returns (n: nat)
    requires Segments(seg) && |text| > maxLen
    ensures n <= |seg(text)| && Sum(seg(text)[..n]) <= maxLen
    ensures forall m :: n < m <= |seg(text)| ==> Sum(seg(text)[..m]) > maxLen
    ensures Sum(seg(text)[..n]) <= |text|
    ensures Cut(seg, text, maxLen) == if n == 0 then 1 else Sum(seg(text)[..n])
  {
    var sizes := seg(text);
    n := KeptIsTheLastBoundaryThatFits(sizes, maxLen);
    if n > 0 {
      assert sizes[..n][..n - 1] == sizes[..n - 1] && sizes[n - 1] > 0;
    }
  }

  lemma {:induction false} KeptStops(sizes: seq<nat>, maxLen: nat, i: nat)
    requires i < |sizes| && Sum(sizes[..i]) <= maxLen < Sum(sizes[..i + 1])
    ensures Kept(sizes, maxLen) == Sum(sizes[..i])
    decreases |sizes|
  {
    SumMonotone(sizes, i + 1, |sizes|);
    assert sizes[..|sizes|] == sizes;
    if i + 1 < |sizes| {
      var init := sizes[..|sizes| - 1];
      assert init[..i] == sizes[..i] && init[..i + 1] == sizes[..i + 1];
      KeptStops(init, maxLen, i);
    } else if i > 0 {
      assert sizes[..i][..i - 1] == sizes[..i - 1];
    }
  }

  /** At most `maxLen` code points, cut between clusters; a first cluster that alone is too long
      keeps its first code point. */
  method TruncateGraphemes(seg: Segmenter, text: string, maxLen: nat) returns (r: string)
    requires Segments(seg)
    ensures r == Truncate(seg, text, maxLen)
  {
    if |text| <= maxLen {
      return text;
    }
    var sizes := seg(text);
    var kept: nat := 0;
    var i := 0;
    while i < |sizes| && kept + sizes[i] <= maxLen
      invariant 0 <= i <= |sizes|
      invariant kept == Sum(sizes[..i]) <= maxLen
    {
      assert sizes[..i + 1][..i] == sizes[..i];
      kept := kept + sizes[i];
      i := i + 1;
    }
    assert sizes[..|sizes|] == sizes;
    assert sizes[..i + 1][..i] == sizes[..i];
    KeptStops(sizes, maxLen, i);
    return text[..if kept == 0 then 1 else kept];
  }

  /** The cap holds exactly when it allows one code point, or there is nothing to cut. */
  lemma TruncationFitsExactly(seg: Segmenter, text: string, maxLen: nat)
    requires Segments(seg)
    ensures |Truncate(seg, text, maxLen)| <= maxLen <==> maxLen >= 1 || text == ""
  {
  }

  // ----- The rule -----

  function Shown(u: Unicode): char -> bool {
    c => c == ' ' || !Hidden(u, c)
  }

  function Cleaned(u: Unicode, raw: string): string {
    Strip(u, Filter(Shown(u), raw))
  }

  function NormaliseLabel(u: Unicode, seg: Segmenter, raw: Option<string>, maxLen: nat): Option<string>
    requires Segments(seg)
  {
    match raw
    case None => None
    case Some(text) =>
      var r := Strip(u, Truncate(seg, Cleaned(u, text), maxLen));
      if HasVisible(u, r) then Some(r) else None
  }

  /** The rule of migration 0100: no default-ignorable test and no visibility test. */
  function Unfiltered(u: Unicode): char -> bool {
    c => Keep(c) || c == ' ' || !u.categoryC(c)
  }

  function Normalise0100(u: Unicode, seg: Segmenter, raw: string): Option<string>
    requires Segments(seg)
  {
    var r := Strip(u, Truncate(seg, Strip(u, Filter(Unfiltered(u), raw)), 50));
    if r == "" then None else Some(r)
  }

  // ----- Normal form -----

  lemma PipelineKeeps(u: Unicode, seg: Segmenter, keep: char -> bool, s: string, maxLen: nat)
    requires Segments(seg) && Stripped(u, s) && |s| <= maxLen && forall i :: 0 <= i < |s| ==> keep(s[i])
    ensures Strip(u, Truncate(seg, Strip(u, Filter(keep, s)), maxLen)) == s
  {
    FilterKeepsAll(keep, s);
    assert Strip(u, s) == s;
    assert s[..|s|] == s;
  }

  /** Cutting and stripping a filtered text leaves a text the whole pipeline does not change. */
  lemma PipelineFixesItsResults(u: Unicode, seg: Segmenter, keep: char -> bool, raw: string, maxLen: nat)
    requires Segments(seg) && maxLen >= 1
    ensures
      var r := Strip(u, Truncate(seg, Strip(u, Filter(keep, raw)), maxLen));
      && |r| <= maxLen && Stripped(u, r)
      && (forall i :: 0 <= i < |r| ==> keep(r[i]))
      && Strip(u, Truncate(seg, Strip(u, Filter(keep, r)), maxLen)) == r
  {
    var once := Strip(u, Filter(keep, raw));
    var cut := Truncate(seg, once, maxLen);
    var r := Strip(u, cut);
    assert forall c :: c in r ==> c in cut;
    assert forall c :: c in cut ==> c in once;
    assert forall c :: c in once ==> c in Filter(keep, raw);
    forall i | 0 <= i < |r| ensures keep(r[i]) {
      assert r[i] in r && r[i] in Filter(keep, raw);
    }
    PipelineKeeps(u, seg, keep, r, maxLen);
  }

  /** A label is a fixed point of its own rule, fits, has no space at its ends, hides nothing and
      shows something. */
  lemma LabelsAreInNormalForm(u: Unicode, seg: Segmenter, raw: Option<string>, maxLen: nat)
    requires Standard(u) && Segments(seg) && maxLen >= 1
    ensures
      var r := NormaliseLabel(u, seg, raw, maxLen);
      && NormaliseLabel(u, seg, r, maxLen) == r
      && (r.Some? ==>
            && 1 <= |r.value| <= maxLen && Stripped(u, r.value) && HasVisible(u, r.value)
            && forall i :: 0 <= i < |r.value| ==> !Hidden(u, r.value[i]))
  {
    if raw.Some? {
      PipelineFixesItsResults(u, seg, Shown(u), raw.value, maxLen);
    }
  }

  /** The frozen copy of the rule is idempotent too. */
  lemma Normalise0100IsIdempotent(u: Unicode, seg: Segmenter, raw: string)
    requires Segments(seg)
    ensures
      var r := Normalise0100(u, seg, raw);
      r.Some? ==> Normalise0100(u, seg, r.value) == r && 1 <= |r.value| <= 50
  {
    PipelineFixesItsResults(u, seg, Unfiltered(u), raw, 50);
  }

  // ----- What stays and what goes -----

  lemma PipelineUnchangedExactly(u: Unicode, seg: Segmenter, keep: char -> bool, s: string, maxLen: nat)
    requires Segments(seg) && maxLen >= 1
    ensures Strip(u, Truncate(seg, Strip(u, Filter(keep, s)), maxLen)) == s <==>
            Stripped(u, s) && |s| <= maxLen && forall i :: 0 <= i < |s| ==> keep(s[i])
  {
    if Stripped(u, s) && |s| <= maxLen && forall i :: 0 <= i < |s| ==> keep(s[i]) {
      PipelineKeeps(u, seg, keep, s, maxLen);
    } else {
      PipelineFixesItsResults(u, seg, keep, s, maxLen);
    }
  }

  /** A name is left as it is if and only if it fits, has no space at its ends, shows something and
      hides nothing but plain spaces. */
  lemma LabelUnchangedExactly(u: Unicode, seg: Segmenter, text: string, maxLen: nat)
    requires Segments(seg) && maxLen >= 1
    ensures NormaliseLabel(u, seg, Some(text), maxLen) == Some(text) <==>
            && Stripped(u, text) && HasVisible(u, text) && |text| <= maxLen
            && forall i :: 0 <= i < |text| ==>
                 || text[i] == ' ' || text[i] == '\U{200D}' || text[i] == '\U{FE0F}'
                 || (!u.categoryC(text[i]) && !u.ignorable(text[i]))
  {
    PipelineUnchangedExactly(u, seg, Shown(u), text, maxLen);
  }

  /** A label is the raw name without its hidden characters, plain spaces excepted, in order, without
      the spaces then at its ends, and, where that is too long, cut and trimmed again. */
  lemma LabelKeepsTheShownText(u: Unicode, seg: Segmenter, raw: string, maxLen: nat)
    returns (kept: string, at: seq<nat>, middle: string)
    requires Segments(seg)
    ensures Selects(raw, c => c == ' ' || !Hidden(u, c), kept, at)
    ensures Trims(u, kept, middle)
    ensures
      var r := NormaliseLabel(u, seg, Some(raw), maxLen);
      if |middle| <= maxLen then r == if HasVisible(u, raw) then Some(middle) else None
      else r.Some? ==> Trims(u, middle[..Cut(seg, middle, maxLen)], r.value)
  {
    kept := Filter(Shown(u), raw);
    at := FilterSelects(Shown(u), c => c == ' ' || !Hidden(u, c), raw);
    middle := Strip(u, kept);
    StripTrims(u, kept);
    CleaningKeepsVisibility(u, raw);
    StripTrims(u, middle[..Cut(seg, middle, maxLen)]);
    assert middle[..|middle|] == middle;
  }

  /** The frozen rule leaves a name as it is if and only if it is not empty, fits fifty characters, has
      no space at its ends and no control character but the two joiners. */
  lemma Normalise0100UnchangedExactly(u: Unicode, seg: Segmenter, text: string)
    requires Segments(seg)
    ensures Normalise0100(u, seg, text) == Some(text) <==>
            && text != "" && |text| <= 50 && Stripped(u, text)
            && forall i :: 0 <= i < |text| ==>
                 text[i] == ' ' || text[i] == '\U{200D}' || text[i] == '\U{FE0F}' || !u.categoryC(text[i])
  {
    PipelineUnchangedExactly(u, seg, Unfiltered(u), text, 50);
  }

  /** And otherwise keeps the rest of its characters, trimmed, and cut and trimmed where too long. */
  lemma Normalise0100KeepsTheText(u: Unicode, seg: Segmenter, raw: string)
    returns (kept: string, at: seq<nat>, middle: string)
    requires Segments(seg)
    ensures Selects(raw, c => Keep(c) || c == ' ' || !u.categoryC(c), kept, at)
    ensures Trims(u, kept, middle)
    ensures
      var r := Normalise0100(u, seg, raw);
      if |middle| <= 50 then r == if middle == "" then None else Some(middle)
      else r.Some? ==> Trims(u, middle[..Cut(seg, middle, 50)], r.value)
  {
    kept := Filter(Unfiltered(u), raw);
    at := FilterSelects(Unfiltered(u), c => Keep(c) || c == ' ' || !u.categoryC(c), raw);
    middle := Strip(u, kept);
    StripTrims(u, kept);
    StripTrims(u, middle[..Cut(seg, middle, 50)]);
    assert middle[..|middle|] == middle;
  }

  // ----- Blank names -----

  predicate DrawsNothing(u: Unicode, c: char) {
    Keep(c) || c == BLANK_GLYPH || u.space(c) || u.categoryC(c) || u.mark(c) || u.ignorable(c)
  }

  /** The predicate migration 0101 froze, in its own loop. */
  method IsBlank(u: Unicode, name: string) returns (blank: bool)
    ensures blank <==> !HasVisible(u, name)
    ensures blank <==>
            forall i :: 0 <= i < |name| ==>
              || name[i] == '\U{200D}' || name[i] == '\U{FE0F}' || name[i] == '\U{2800}' || u.space(name[i])
              || u.categoryC(name[i]) || u.mark(name[i]) || u.ignorable(name[i])
  {
    for i := 0 to |name|
      invariant forall j :: 0 <= j < i ==> !Visible(u, name[j])
    {
      if !DrawsNothing(u, name[i]) {
        return false;
      }
    }
    return true;
  }

  lemma {:induction false} FilterKeepsVisibility(u: Unicode, keep: char -> bool, s: string)
    requires forall i :: 0 <= i < |s| && Visible(u, s[i]) ==> keep(s[i])
    ensures HasVisible(u, Filter(keep, s)) <==> HasVisible(u, s)
  {
    if s == "" {
    } else {
      var rest := Filter(keep, s[1..]);
      FilterKeepsVisibility(u, keep, s[1..]);
      VisibleSplits(u, [s[0]], s[1..]);
      assert [s[0]] + s[1..] == s;
      if keep(s[0]) {
        VisibleSplits(u, [s[0]], rest);
      } else {
        assert !HasVisible(u, [s[0]]) && Filter(keep, s) == rest;
      }
    }
  }

  lemma VisibleSplits(u: Unicode, a: string, b: string)
    ensures HasVisible(u, a + b) <==> HasVisible(u, a) || HasVisible(u, b)
  {
    if HasVisible(u, a) {
      var i :| 0 <= i < |a| && Visible(u, a[i]);
      assert (a + b)[i] == a[i];
    }
    if HasVisible(u, b) {
      var i :| 0 <= i < |b| && Visible(u, b[i]);
      assert (a + b)[|a| + i] == b[i];
    }
  }

  lemma {:induction false} StripKeepsVisibility(u: Unicode, s: string)
    ensures HasVisible(u, Strip(u, s)) <==> HasVisible(u, s)
    decreases |s|
  {
    if s == "" {
    } else if u.space(s[0]) {
      VisibleSplits(u, [s[0]], s[1..]);
      assert [s[0]] + s[1..] == s;
      StripKeepsVisibility(u, s[1..]);
    } else if u.space(s[|s| - 1]) {
      VisibleSplits(u, s[..|s| - 1], [s[|s| - 1]]);
      assert s[..|s| - 1] + [s[|s| - 1]] == s;
      StripKeepsVisibility(u, s[..|s| - 1]);
    }
  }

  lemma CleaningKeepsVisibility(u: Unicode, raw: string)
    ensures HasVisible(u, Cleaned(u, raw)) <==> HasVisible(u, raw)
  {
    FilterKeepsVisibility(u, Shown(u), raw);
    StripKeepsVisibility(u, Filter(Shown(u), raw));
  }

  /** A name normalises to nothing if and only if none of its cleaned text before the cut is visible;
      otherwise the label is that text, stripped. When nothing has to be cut, this is exactly
      blankness of the raw name. */
  lemma NothingLeftExactly(u: Unicode, seg: Segmenter, raw: string, maxLen: nat)
    requires Segments(seg)
    ensures
      var cleaned := Cleaned(u, raw);
      var cut := Cut(seg, cleaned, maxLen);
      var r := NormaliseLabel(u, seg, Some(raw), maxLen);
      && (r == None <==> forall i :: 0 <= i < cut ==> !Visible(u, cleaned[i]))
      && (r.Some? ==> r.value == Strip(u, cleaned[..cut]))
      && (|cleaned| <= maxLen ==>
            && (r == None <==> !HasVisible(u, raw))
            && (r.Some? ==> r.value == cleaned))
  {
    var cleaned := Cleaned(u, raw);
    VisibleBefore(u, cleaned, Cut(seg, cleaned, maxLen));
    CleaningKeepsVisibility(u, raw);
    assert cleaned[..|cleaned|] == cleaned;
  }

  lemma VisibleBefore(u: Unicode, s: string, cut: nat)
    requires cut <= |s|
    ensures HasVisible(u, Strip(u, s[..cut])) <==> exists i :: 0 <= i < cut && Visible(u, s[i])
  {
    var kept := s[..cut];
    StripKeepsVisibility(u, kept);
    assert forall i :: 0 <= i < cut ==> kept[i] == s[i];
  }

  /** A visible name keeps a label if and only if something visible comes before the cut. */
  lemma VisibleNamesKeepALabelExactly(u: Unicode, seg: Segmenter, raw: string, maxLen: nat)
    requires Segments(seg) && HasVisible(u, raw)
    ensures
      var cleaned := Cleaned(u, raw);
      && HasVisible(u, cleaned)
      && (NormaliseLabel(u, seg, Some(raw), maxLen).Some? <==>
            exists i :: 0 <= i < Cut(seg, cleaned, maxLen) && Visible(u, cleaned[i]))
  {
    CleaningKeepsVisibility(u, raw);
    NothingLeftExactly(u, seg, raw, maxLen);
  }

  /** A blank name always normalises to nothing, cut or not. */
  lemma BlankNamesNormaliseToNothing(u: Unicode, seg: Segmenter, raw: string, maxLen: nat)
    requires Segments(seg) && !HasVisible(u, raw)
    ensures NormaliseLabel(u, seg, Some(raw), maxLen) == None
  {
    CleaningKeepsVisibility(u, raw);
    NothingLeftExactly(u, seg, raw, maxLen);
  }

  /** Cutting can take away the only visible character: blank cells up to the cap, then a letter. */
  lemma CuttingCanHideAName(u: Unicode, seg: Segmenter, maxLen: nat)
    requires Standard(u) && Segments(seg) && maxLen >= 1
    requires !u.space(BLANK_GLYPH) && !Hidden(u, BLANK_GLYPH)
    ensures
      var raw := seq(maxLen, _ => BLANK_GLYPH) + "a";
      HasVisible(u, raw) && NormaliseLabel(u, seg, Some(raw), maxLen) == None
  {
    var raw := seq(maxLen, _ => BLANK_GLYPH) + "a";
    assert raw[maxLen] == 'a' && Visible(u, 'a');
    FilterKeepsAll(Shown(u), raw);
    assert Cleaned(u, raw) == raw;
    var cut := Truncate(seg, raw, maxLen);
    assert forall i :: 0 <= i < |cut| ==> cut[i] == BLANK_GLYPH;
  }

  // ----- One line -----

  predicate Delimiter(c: char) {
    c == '"' || c == '[' || c == ']'
  }

  function OnLine(u: Unicode): char -> bool {
    c => u.space(c) || !Hidden(u, c)
  }

  function NotDelimiter(): char -> bool {
    c => !Delimiter(c)
  }

  function RunLength(u: Unicode, s: string): (n: nat)
    ensures n <= |s|
    ensures forall i :: 0 <= i < n ==> !u.space(s[i])
    ensures n < |s| ==> u.space(s[n])
  {
    if s == "" || u.space(s[0]) then 0 else 1 + RunLength(u, s[1..])
  }

  /** Splitting on runs of whitespace. */
  function Words(u: Unicode, s: string): (ws: seq<string>)
    ensures forall i :: 0 <= i < |ws| ==> IsWord(u, ws[i])
    ensures forall i, j :: 0 <= i < |ws| && 0 <= j < |ws[i]| ==> ws[i][j] in s
    decreases |s|
  {
    if s == "" then []
    else if u.space(s[0]) then
      assert forall c :: c in s[1..] ==> c in s;
      Words(u, s[1..])
    else
      var n := RunLength(u, s);
      assert forall c :: c in s[n..] ==> c in s;
      [s[..n]] + Words(u, s[n..])
  }

  function NotSpace(u: Unicode): char -> bool {
    c => !u.space(c)
  }

  function Flatten(ws: seq<string>): string {
    if ws == [] then "" else ws[0] + Flatten(ws[1..])
  }

  /** The words are the text without its whitespace, in order. */
  lemma {:induction false} WordsKeepEverything(u: Unicode, s: string)
    ensures Flatten(Words(u, s)) == Filter(NotSpace(u), s)
    decreases |s|
  {
    if s == "" {
    } else if u.space(s[0]) {
      WordsKeepEverything(u, s[1..]);
    } else {
      var n := RunLength(u, s);
      WordsKeepEverything(u, s[n..]);
      FilterConcat(NotSpace(u), s[..n], s[n..]);
      FilterKeepsAll(NotSpace(u), s[..n]);
      assert s == s[..n] + s[n..];
      assert Words(u, s)[1..] == Words(u, s[n..]);
    }
  }

  predicate IsWord(u: Unicode, w: string) {
    w != "" && forall i :: 0 <= i < |w| ==> !u.space(w[i])
  }

  function OneLineLabel(u: Unicode, text: string): string {
    JoinSpace(Words(u, Filter(NotDelimiter(), Filter(OnLine(u), text))))
  }

  lemma FirstWord(u: Unicode, w: string, tail: string)
    requires IsWord(u, w) && (tail == "" || u.space(tail[0]))
    ensures Words(u, w + tail) == [w] + Words(u, tail)
  {
    var s := w + tail;
    var n := RunLength(u, s);
    assert forall i :: 0 <= i < |w| ==> s[i] == w[i];
    assert tail != "" ==> s[|w|] == tail[0];
    assert n == |w|;
    assert s[..n] == w && s[n..] == tail;
  }

  lemma {:induction false} WordsOfJoin(u: Unicode, ws: seq<string>)
    requires u.space(' ') && forall i :: 0 <= i < |ws| ==> IsWord(u, ws[i])
    ensures Words(u, JoinSpace(ws)) == ws
    decreases |ws|
  {
    if |ws| == 1 {
      FirstWord(u, ws[0], "");
      assert ws[0] + "" == ws[0];
    } else if |ws| > 1 {
      var tail := " " + JoinSpace(ws[1..]);
      FirstWord(u, ws[0], tail);
      assert ws[0] + tail == JoinSpace(ws);
      WordsOfJoin(u, ws[1..]);
      assert tail[1..] == JoinSpace(ws[1..]);
    }
  }

  /** Characters of a joined line come from its words or are the separating space, the line has no
      space at either end and no two in a row. */
  lemma {:induction false} JoinShape(u: Unicode, ws: seq<string>)
    requires forall i :: 0 <= i < |ws| ==> IsWord(u, ws[i])
    ensures forall k :: 0 <= k < |JoinSpace(ws)| ==>
              JoinSpace(ws)[k] == ' ' || exists i :: 0 <= i < |ws| && JoinSpace(ws)[k] in ws[i]
    ensures ws != [] ==> JoinSpace(ws) != ""
    ensures Stripped(u, JoinSpace(ws))
    ensures forall k :: 0 <= k < |JoinSpace(ws)| - 1 ==> !(u.space(JoinSpace(ws)[k]) && u.space(JoinSpace(ws)[k + 1]))
    decreases |ws|
  {
    if |ws| <= 1 {
    } else {
      JoinShape(u, ws[1..]);
      var rest := JoinSpace(ws[1..]);
      var s := JoinSpace(ws);
      forall k | 0 <= k < |s| ensures s[k] == ' ' || exists i :: 0 <= i < |ws| && s[k] in ws[i] {
        if k < |ws[0]| {
          assert s[k] in ws[0];
        } else if k > |ws[0]| {
          assert s[k] == rest[k - |ws[0]| - 1];
          if s[k] != ' ' {
            var i :| 0 <= i < |ws[1..]| && rest[k - |ws[0]| - 1] in ws[1..][i];
            assert s[k] in ws[i + 1];
          }
        }
      }
    }
  }

  /** The rendered label is a fixed point, with single inner spaces and neither hidden characters
      nor delimiters. */
  lemma OneLineLabelsAreInNormalForm(u: Unicode, text: string)
    requires Standard(u)
    ensures
      var r := OneLineLabel(u, text);
      && OneLineLabel(u, r) == r
      && Stripped(u, r)
      && Words(u, r) == Words(u, Filter(NotDelimiter(), Filter(OnLine(u), text)))
      && (forall k :: 0 <= k < |r| ==> !Hidden(u, r[k]) && !Delimiter(r[k]) && (u.space(r[k]) ==> r[k] == ' '))
      && (forall k :: 0 <= k < |r| - 1 ==> !(r[k] == ' ' && r[k + 1] == ' '))
  {
    var once := Filter(OnLine(u), text);
    var line := Filter(NotDelimiter(), once);
    FilterSubset(NotDelimiter(), once);
    var ws := Words(u, line);
    var r := OneLineLabel(u, text);
    JoinShape(u, ws);
    forall k | 0 <= k < |r|
      ensures !Hidden(u, r[k]) && !Delimiter(r[k]) && (u.space(r[k]) ==> r[k] == ' ')
    {
      if r[k] != ' ' {
        var i :| 0 <= i < |ws| && r[k] in ws[i];
        var j :| 0 <= j < |ws[i]| && ws[i][j] == r[k];
        assert IsWord(u, ws[i]) && ws[i][j] in line;
      }
    }
    FilterKeepsAll(OnLine(u), r);
    FilterKeepsAll(NotDelimiter(), r);
    WordsOfJoin(u, ws);
  }

  lemma {:induction false} FilterTwice(f: char -> bool, g: char -> bool, both: char -> bool, s: string)
    requires forall c :: both(c) == (f(c) && g(c))
    ensures Filter(g, Filter(f, s)) == Filter(both, s)
  {
    if s == "" {
    } else {
      FilterTwice(f, g, both, s[1..]);
      if f(s[0]) {
        FilterConcat(g, [s[0]], Filter(f, s[1..]));
        assert [s[0]][1..] == "";
        assert Filter(g, [s[0]]) == if g(s[0]) then [s[0]] else "";
      } else {
        assert Filter(f, s) == Filter(f, s[1..]) && Filter(both, s) == Filter(both, s[1..]);
      }
    }
  }

  /** The words of a rendered label are those of the text without its delimiters and its hidden
      characters, whitespace excepted. */
  lemma OneLineKeepsTheWords(u: Unicode, text: string) returns (line: string, at: seq<nat>)
    requires u.space(' ')
    ensures Selects(text, c => (u.space(c) || !Hidden(u, c)) && !Delimiter(c), line, at)
    ensures Words(u, OneLineLabel(u, text)) == Words(u, line)
  {
    var told := (c: char) => (u.space(c) || !Hidden(u, c)) && !Delimiter(c);
    line := Filter(told, text);
    FilterTwice(OnLine(u), NotDelimiter(), told, text);
    at := FilterSelects(told, c => (u.space(c) || !Hidden(u, c)) && !Delimiter(c), text);
    WordsOfJoin(u, Words(u, line));
  }

  /** No two spaces in a row, and every space a plain one. */
  ghost predicate SingleSpaced(u: Unicode, s: string) {
    && (forall k :: 0 <= k < |s| && u.space(s[k]) ==> s[k] == ' ')
    && forall j, k :: 0 <= j < k < |s| && k == j + 1 ==> !(s[j] == ' ' && s[k] == ' ')
  }

  lemma OneWord(u: Unicode, s: string)
    requires s != "" && RunLength(u, s) == |s|
    ensures Words(u, s) == [s]
  {
    assert s[..|s|] == s && s[|s|..] == "";
  }

  lemma JoinCons(w: string, ws: seq<string>)
    requires ws != []
    ensures JoinSpace([w] + ws) == w + " " + JoinSpace(ws)
  {
    assert ([w] + ws)[1..] == ws;
  }

  lemma AfterTheFirstWord(u: Unicode, s: string, n: nat)
    requires u.space(' ') && s != "" && Stripped(u, s) && SingleSpaced(u, s) && n == RunLength(u, s) < |s|
    ensures
      var tail := s[n + 1..];
      && s[n] == ' ' && tail != "" && Stripped(u, tail) && SingleSpaced(u, tail)
      && Words(u, tail) != [] && Words(u, s) == [s[..n]] + Words(u, tail)
  {
    var tail := s[n + 1..];
    assert n < |s| - 1 && s[n + 1] != ' ';
    assert tail[0] == s[n + 1] && tail[|tail| - 1] == s[|s| - 1];
    assert forall k :: 0 <= k < |tail| ==> tail[k] == s[n + 1 + k];
    assert s[n..][1..] == tail;
    assert Words(u, s[n..]) == Words(u, tail);
  }

  lemma FirstSplit(u: Unicode, s: string) returns (w: string, tail: string)
    requires u.space(' ') && s != "" && Stripped(u, s) && SingleSpaced(u, s)
    ensures tail == "" ==> Words(u, s) == [s]
    ensures tail != "" ==>
              && s == w + " " + tail && Stripped(u, tail) && SingleSpaced(u, tail)
              && Words(u, tail) != [] && Words(u, s) == [w] + Words(u, tail)
  {
    var n := RunLength(u, s);
    w, tail := s[..n], "";
    if n == |s| {
      OneWord(u, s);
    } else {
      AfterTheFirstWord(u, s, n);
      tail := s[n + 1..];
    }
  }

  lemma {:induction false} JoinOfWords(u: Unicode, s: string)
    requires u.space(' ') && Stripped(u, s) && SingleSpaced(u, s)
    ensures JoinSpace(Words(u, s)) == s
    decreases |s|
  {
    if s == "" {
    } else {
      var w, tail := FirstSplit(u, s);
      if tail != "" {
        JoinOfWords(u, tail);
        JoinCons(w, Words(u, tail));
      }
    }
  }

  /** A text is rendered as it is if and only if it has no delimiter, no hidden character and no space
      at its ends, and single plain spaces inside. */
  lemma OneLineUnchangedExactly(u: Unicode, text: string)
    requires Standard(u)
    ensures OneLineLabel(u, text) == text <==>
            && Stripped(u, text) && SingleSpaced(u, text)
            && forall k :: 0 <= k < |text| ==>
                 && text[k] != '"' && text[k] != '[' && text[k] != ']'
                 && (text[k] == '\U{200D}' || text[k] == '\U{FE0F}' || (!u.categoryC(text[k]) && !u.ignorable(text[k])))
  {
    OneLineLabelsAreInNormalForm(u, text);
    if Stripped(u, text) && SingleSpaced(u, text)
       && forall k :: 0 <= k < |text| ==> !Hidden(u, text[k]) && !Delimiter(text[k])
    {
      FilterKeepsAll(OnLine(u), text);
      FilterKeepsAll(NotDelimiter(), text);
      JoinOfWords(u, text);
    }
  }

  lemma {:induction false} FilterSubset(keep: char -> bool, s: string)
    ensures forall c :: c in Filter(keep, s) ==> c in s
  {
    if s == "" {
    } else {
      FilterSubset(keep, s[1..]);
    }
  }
}
