/** The compact serialised form of a JSON value, with every character outside printable ASCII
    escaped, so that its length is its size in bytes. */
module JsonText {
  import opened Base
  import opened JsonValues
  import opened Uuids

  function Unicode(code: nat): string {
    "\\u" + ToHex(code, 4)
  }

  function SurrogatePair(code: nat): string
    requires code >= 0x1_0000
  {
    Unicode(0xD800 + (code - 0x1_0000) / 0x400) + Unicode(0xDC00 + (code - 0x1_0000) % 0x400)
  }

  /** Characters beyond the basic plane become a surrogate pair. */
  function Escape(c: char): (s: string)
    ensures s != ""
  {
    if c == '\"' then "\\\""
    else if c == '\\' then "\\\\"
    else if c == '\n' then "\\n"
    else if c == '\r' then "\\r"
    else if c == '\t' then "\\t"
    else if c == '\U{08}' then "\\b"
    else if c == '\U{0C}' then "\\f"
    else if ' ' <= c <= '~' then [c]
    else if c as nat < 0x1_0000 then Unicode(c as nat)
    else SurrogatePair(c as nat)
  }

  function EscapeAll(s: string): string {
    if s == "" then "" else Escape(s[0]) + EscapeAll(s[1..])
  }

  function Quoted(s: string): string {
    "\"" + EscapeAll(s) + "\""
  }

  function Decimal(n: nat): (s: string)
    ensures s != ""
  {
    (if n < 10 then "" else Decimal(n / 10)) + [DIGITS[n % 10]]
  }

  function Encode(j: Json): (s: string)
    ensures s != ""
    decreases j
  {
    match j
    case Null => "null"
    case Bool(b) => if b then "true" else "false"
    case Num(n) => if n < 0 then "-" + Decimal(-n) else Decimal(n)
    case Str(s) => Quoted(s)
    case Arr(items) => "[" + EncodeItems(items) + "]"
    case Obj(ms) => "{" + EncodeMembers(ms) + "}"
  }

  function EncodeItems(items: seq<Json>): string
    decreases items
  {
    if items == [] then ""
    else Encode(items[0]) + if |items| == 1 then "" else "," + EncodeItems(items[1..])
  }

  function EncodeMember(m: Member): string
    decreases m
  {
    Quoted(m.key) + ":" + Encode(m.value)
  }

  function EncodeMembers(ms: seq<Member>): string
    decreases ms
  {
    if ms == [] then ""
    else EncodeMember(ms[0]) + if |ms| == 1 then "" else "," + EncodeMembers(ms[1..])
  }

  function Bytes(j: Json): nat {
    |Encode(j)|
  }

  // ----- One byte for each character -----

  predicate Printable(s: string) {
    forall i :: 0 <= i < |s| ==> ' ' <= s[i] <= '~'
  }

  lemma UnicodeIsPrintable(code: nat)
    ensures Printable(Unicode(code))
  {
    var h := ToHex(code, 4);
    assert forall i :: 0 <= i < 4 ==> h[i] in h && h[i] in DIGITS;
  }

  lemma PairIsPrintable(code: nat)
    requires code >= 0x1_0000
    ensures Printable(SurrogatePair(code))
  {
    UnicodeIsPrintable(0xD800 + (code - 0x1_0000) / 0x400);
    UnicodeIsPrintable(0xDC00 + (code - 0x1_0000) % 0x400);
  }

  lemma EscapeIsPrintable(c: char)
    ensures Printable(Escape(c))
  {
    if c as nat < 0x1_0000 {
      UnicodeIsPrintable(c as nat);
    } else {
      PairIsPrintable(c as nat);
    }
  }

  lemma {:induction false} EscapeAllIsPrintable(s: string)
    ensures Printable(EscapeAll(s))
  {
    if s == "" {
    } else {
      EscapeIsPrintable(s[0]);
      EscapeAllIsPrintable(s[1..]);
    }
  }

  lemma {:induction false} DecimalIsPrintable(n: nat)
    ensures Printable(Decimal(n))
  {
    if n < 10 {
    } else {
      DecimalIsPrintable(n / 10);
    }
  }

  /** The serialised form is printable ASCII, so its size in UTF-8 is its length. */
  lemma {:induction false} EncodedIsPrintable(j: Json)
    ensures Printable(Encode(j))
    decreases j
  {
    match j
    case Num(n) => DecimalIsPrintable(if n < 0 then -n else n);
    case Str(s) => EscapeAllIsPrintable(s);
    case Arr(items) => ItemsArePrintable(items);
    case Obj(ms) => MembersArePrintable(ms);
    case _ =>
  }

  lemma {:induction false} ItemsArePrintable(items: seq<Json>)
    ensures Printable(EncodeItems(items))
    decreases items
  {
    if items == [] {
    } else {
      EncodedIsPrintable(items[0]);
      ItemsArePrintable(items[1..]);
    }
  }

  lemma {:induction false} MembersArePrintable(ms: seq<Member>)
    ensures Printable(EncodeMembers(ms))
    decreases ms
  {
    if ms == [] {
    } else {
      EscapeAllIsPrintable(ms[0].key);
      EncodedIsPrintable(ms[0].value);
      MembersArePrintable(ms[1..]);
    }
  }

  // ----- The size of a value, from its code points -----

  function Pow10(n: nat): nat {
    if n == 0 then 1 else 10 * Pow10(n - 1)
  }

  /** The bytes a character of a string takes, by code point: two for a quotation mark, a backslash
      and the five control characters with a short escape, one for other printable ASCII, six
      for the rest of the basic plane and twelve beyond it. */
  function CharSize(code: nat): nat {
    if code in {0x22, 0x5C, 0x08, 0x09, 0x0A, 0x0C, 0x0D} then 2
    else if 0x20 <= code <= 0x7E then 1
    else if code < 0x1_0000 then 6
    else 12
  }

  function TextSize(s: string): nat {
    if s == "" then 0 else CharSize(s[0] as nat) + TextSize(s[1..])
  }

  /** The number of decimal digits. */
  function Digits(n: nat): (d: nat)
    ensures d >= 1 && n < Pow10(d)
    ensures d > 1 ==> Pow10(d - 1) <= n
  {
    if n < 10 then assert Pow10(1) == 10; 1 else 1 + Digits(n / 10)
  }

  function Commas(n: nat): nat {
    if n == 0 then 0 else n - 1
  }

  function Size(j: Json): nat
    decreases j
  {
    match j
    case Null => 4
    case Bool(b) => if b then 4 else 5
    case Num(n) => if n < 0 then 1 + Digits(-n) else Digits(n)
    case Str(s) => 2 + TextSize(s)
    case Arr(items) => 2 + Commas(|items|) + ItemsSize(items)
    case Obj(ms) => 2 + Commas(|ms|) + MembersSize(ms)
  }

  function ItemsSize(items: seq<Json>): nat
    decreases items
  {
    if items == [] then 0 else Size(items[0]) + ItemsSize(items[1..])
  }

  /** A key between its quotes, a colon and the value. */
  function MembersSize(ms: seq<Member>): nat
    decreases ms
  {
    if ms == [] then 0 else 2 + TextSize(ms[0].key) + 1 + Size(ms[0].value) + MembersSize(ms[1..])
  }

  lemma EscapedSize(c: char)
    ensures |Escape(c)| == CharSize(c as nat)
  {
  }

  lemma {:induction false} EscapedTextSize(s: string)
    ensures |EscapeAll(s)| == TextSize(s)
  {
    if s == "" {
    } else {
      EscapedSize(s[0]);
      EscapedTextSize(s[1..]);
    }
  }

  lemma {:induction false} DecimalSize(n: nat)
    ensures |Decimal(n)| == Digits(n)
  {
    if n < 10 {
    } else {
      DecimalSize(n / 10);
    }
  }

  /** The serialised form has exactly the size its value has by this count. */
  lemma {:induction false} EncodedSize(j: Json)
    ensures Bytes(j) == Size(j)
    decreases j
  {
    match j
    case Num(n) => DecimalSize(if n < 0 then -n else n);
    case Str(s) => EscapedTextSize(s);
    case Arr(items) => EncodedItemsSize(items);
    case Obj(ms) => EncodedMembersSize(ms);
    case _ =>
  }

  lemma {:induction false} EncodedItemsSize(items: seq<Json>)
    ensures |EncodeItems(items)| == Commas(|items|) + ItemsSize(items)
    decreases items
  {
    if items == [] {
    } else {
      EncodedSize(items[0]);
      EncodedItemsSize(items[1..]);
    }
  }

  lemma {:induction false} EncodedMembersSize(ms: seq<Member>)
    ensures |EncodeMembers(ms)| == Commas(|ms|) + MembersSize(ms)
    decreases ms
  {
    if ms == [] {
    } else {
      EscapedTextSize(ms[0].key);
      EncodedSize(ms[0].value);
      EncodedMembersSize(ms[1..]);
    }
  }

  // ----- The size of an object -----

  /** The bytes of the members, each with the comma that follows it. */
  function Weight(ms: seq<Member>): nat {
    if ms == [] then 0 else |EncodeMember(ms[0])| + 1 + Weight(ms[1..])
  }

  lemma {:induction false} WeightIsLength(ms: seq<Member>)
    ensures Bytes(Obj(ms)) == 1 + Max(1, Weight(ms))
  {
    if |ms| <= 1 {
    } else {
      WeightIsLength(ms[1..]);
      assert |EncodeMembers(ms)| == |EncodeMember(ms[0])| + 1 + |EncodeMembers(ms[1..])|;
      assert Weight(ms[1..]) >= 1;
    }
  }
}
