/** Identifiers and their text.

    An id is a 128-bit number. Its canonical text is the form of section 4 of RFC 9562: thirty-two
    lower-case hexadecimal digits in groups of 8, 4, 4, 4 and 12. */
module Uuids {
  import opened Base

  const DIGITS: string := "0123456789abcdef"

  function Pow16(n: nat): (r: nat)
    ensures r > 0
  {
    if n == 0 then 1 else 16 * Pow16(n - 1)
  }

  /** `width` digits, most significant first. */
  function ToHex(value: nat, width: nat): (s: string)
    ensures |s| == width
    ensures forall c :: c in s ==> c in DIGITS
  {
    if width == 0 then "" else
      assert DIGITS[value % 16] in DIGITS;
      ToHex(value / 16, width - 1) + [DIGITS[value % 16]]
  }

  function Text(id: nat): (s: string)
    ensures |s| == 36
    ensures forall c :: c in s ==> c == '-' || c in DIGITS
  {
    var h := ToHex(id, 32);
    h[..8] + "-" + h[8..12] + "-" + h[12..16] + "-" + h[16..20] + "-" + h[20..]
  }

  predicate IsId(n: nat) {
    n < Pow16(32)
  }

  // ----- What the text shows -----

  /** The digits are those of the number in base sixteen, most significant first. */
  lemma {:induction false} HexDigitAt(value: nat, width: nat, k: nat)
    requires k < width
    ensures ToHex(value, width)[k] == "0123456789abcdef"[value / Pow16(width - 1 - k) % 16]
  {
    if k == width - 1 {
    } else {
      HexDigitAt(value / 16, width - 1, k);
      DivideTwice(value, Pow16(width - 2 - k));
    }
  }

  lemma DivideTwice(value: nat, p: nat)
    requires p > 0
    ensures value / (16 * p) == value / 16 / p
  {
    var q := value / 16 / p;
    var r, s := value % 16, value / 16 % p;
    assert value / 16 == q * p + s;
    assert value == 16 * (q * p + s) + r;
    assert value == q * (16 * p) + (16 * s + r) by {
      assert 16 * (q * p + s) == q * (16 * p) + 16 * s;
    }
    assert 0 <= 16 * s + r < 16 * p;
    QuotientIs(value, 16 * p, q, 16 * s + r);
  }

  lemma QuotientIs(n: nat, d: nat, q: nat, r: nat)
    requires d > 0 && n == q * d + r && r < d
    ensures n / d == q
  {
    var x := n / d;
    assert n == x * d + n % d;
    assert x < q ==> (x + 1) * d <= q * d;
    assert x > q ==> (q + 1) * d <= x * d;
  }

  /** Groups of 8, 4, 4, 4 and 12 digits with a hyphen between each two. */
  lemma TextLayout(id: nat, k: nat)
    requires k < 32
    ensures
      var t := Text(id);
      && t[8] == t[13] == t[18] == t[23] == '-'
      && t[if k < 8 then k else if k < 12 then k + 1 else if k < 16 then k + 2 else if k < 20 then k + 3 else k + 4]
         == ToHex(id, 32)[k]
  {
  }

  // ----- Canonical text can be read back -----

  function DigitValue(c: char): Option<nat> {
    if '0' <= c <= '9' then Some((c - '0') as nat)
    else if 'a' <= c <= 'f' then Some((c - 'a') as nat + 10)
    else if 'A' <= c <= 'F' then Some((c - 'A') as nat + 10)
    else None
  }

  function FromHex(s: string): Option<nat> {
    if s == "" then Some(0)
    else
      var high := FromHex(s[..|s| - 1]);
      var low := DigitValue(s[|s| - 1]);
      if high.None? || low.None? then None else Some(16 * high.value + low.value)
  }

  function DropHyphens(s: string): string {
    if s == "" then "" else (if s[0] == '-' then "" else [s[0]]) + DropHyphens(s[1..])
  }

  /** Hyphens anywhere, digits of either case. */
  function LooseParse(s: string): Option<nat> {
    var h := DropHyphens(s);
    if |h| != 32 then None else FromHex(h)
  }

  lemma DropHyphensConcat(a: string, b: string)
    ensures DropHyphens(a + b) == DropHyphens(a) + DropHyphens(b)
  {
    if a == "" {
      assert a + b == b;
    } else {
      assert (a + b)[1..] == a[1..] + b;
      DropHyphensConcat(a[1..], b);
    }
  }

  lemma DropHyphensKeeps(a: string)
    requires HyphenFree(a)
    ensures DropHyphens(a) == a
  {
    if a == "" {
    } else {
      assert a == [a[0]] + a[1..];
      DropHyphensKeeps(a[1..]);
    }
  }

  lemma {:induction false} HexRoundTrip(value: nat, width: nat)
    requires value < Pow16(width)
    ensures FromHex(ToHex(value, width)) == Some(value)
  {
    if width == 0 {
    } else {
      HexRoundTrip(value / 16, width - 1);
      var s := ToHex(value, width);
      assert s[..|s| - 1] == ToHex(value / 16, width - 1);
      DigitRoundTrip(value % 16);
    }
  }

  lemma DigitRoundTrip(d: nat)
    requires d < 16
    ensures DigitValue(DIGITS[d]) == Some(d)
  {
  }

  lemma {:induction false} HexIsBounded(s: string)
    requires FromHex(s).Some?
    ensures FromHex(s).value < Pow16(|s|)
  {
    if s == "" {
    } else {
      HexIsBounded(s[..|s| - 1]);
    }
  }

  predicate HyphenFree(s: string) {
    forall i :: 0 <= i < |s| ==> s[i] != '-'
  }

  lemma DropOneHyphen(a: string, b: string)
    requires HyphenFree(b)
    ensures DropHyphens(a + "-" + b) == DropHyphens(a) + b
  {
    DropHyphensConcat(a + "-", b);
    DropHyphensConcat(a, "-");
    DropHyphensKeeps(b);
  }

  lemma DropAllHyphens(h: string)
    requires |h| == 32 && HyphenFree(h)
    ensures DropHyphens(h[..8] + "-" + h[8..12] + "-" + h[12..16] + "-" + h[16..20] + "-" + h[20..]) == h
  {
    var a := h[..8];
    DropHyphensKeeps(a);
    var b := a + "-" + h[8..12];
    DropOneHyphen(a, h[8..12]);
    var c := b + "-" + h[12..16];
    DropOneHyphen(b, h[12..16]);
    var d := c + "-" + h[16..20];
    DropOneHyphen(c, h[16..20]);
    DropOneHyphen(d, h[20..]);
    assert h == h[..8] + h[8..12] + h[12..16] + h[16..20] + h[20..];
  }

  lemma LooseParseUndoesText(id: nat)
    requires IsId(id)
    ensures LooseParse(Text(id)) == Some(id)
  {
    var h := ToHex(id, 32);
    assert forall i :: 0 <= i < 32 ==> h[i] in h;
    DropAllHyphens(h);
    HexRoundTrip(id, 32);
  }

  lemma TextIsInjective(a: nat, b: nat)
    requires IsId(a) && IsId(b) && Text(a) == Text(b)
    ensures a == b
  {
    LooseParseUndoesText(a);
    LooseParseUndoesText(b);
  }
}
