/** The clamd INSTREAM framing: what the scanner writes and what a daemon reads back. */
module ScanFraming {
  import opened Base

  type Byte = b: int | 0 <= b < 256

  const CHUNK_SIZE: nat := 8192
  const LIMIT: nat := 0x1_0000_0000

  /** "zINSTREAM" and a zero byte. */
  const COMMAND: seq<Byte> := [122, 73, 78, 83, 84, 82, 69, 65, 77, 0]

  /** Four bytes, most significant first. */
  function Pack(n: nat): (p: seq<Byte>)
    requires n < LIMIT
    ensures |p| == 4
  {
    [n / 0x100_0000, n / 0x1_0000 % 256, n / 256 % 256, n % 256]
  }

  function Unpack(p: seq<Byte>): nat
    requires |p| == 4
  {
    var a: int, b: int, c: int, d: int := p[0], p[1], p[2], p[3];
    a * 0x100_0000 + b * 0x1_0000 + c * 256 + d
  }

  lemma PackIsBigEndian(n: nat)
    requires n < LIMIT
    ensures
      var a: int, b: int, c: int, d: int := Pack(n)[0], Pack(n)[1], Pack(n)[2], Pack(n)[3];
      n == a * 0x100_0000 + b * 0x1_0000 + c * 0x100 + d
  {
    var a, b := n / 256, n / 0x1_0000;
    assert a / 256 == b && b / 256 == n / 0x100_0000;
    assert n == a * 256 + n % 256 && a == b * 256 + a % 256 && b == (b / 256) * 256 + b % 256;
  }

  lemma PackRoundTrip(n: nat)
    requires n < LIMIT
    ensures Unpack(Pack(n)) == n
  {
    PackIsBigEndian(n);
  }

  function Concat(chunks: seq<seq<Byte>>): seq<Byte> {
    if chunks == [] then [] else chunks[0] + Concat(chunks[1..])
  }

  predicate Packable(chunks: seq<seq<Byte>>) {
    forall i :: 0 <= i < |chunks| ==> |chunks[i]| < LIMIT
  }

  /** Each chunk behind its length, then the zero length that ends the stream. */
  function Encode(chunks: seq<seq<Byte>>): (stream: seq<Byte>)
    requires Packable(chunks)
    ensures |stream| >= 4
  {
    if chunks == [] then Pack(0) else Pack(|chunks[0]|) + chunks[0] + Encode(chunks[1..])
  }

  /** The daemon's side: the payload up to the first zero length, and what follows it. */
  function Decode(stream: seq<Byte>): Option<(seq<Byte>, seq<Byte>)>
    decreases |stream|
  {
    if |stream| < 4 then None
    else
      var n := Unpack(stream[..4]);
      var body := stream[4..];
      if n == 0 then Some(([], body))
      else if |body| < n then None
      else
        match Decode(body[n..])
        case None => None
        case Some((data, rest)) => Some((body[..n] + data, rest))
  }

  lemma DecodeFrame(chunk: seq<Byte>, tail: seq<Byte>)
    requires 0 < |chunk| < LIMIT
    ensures
      Decode(Pack(|chunk|) + chunk + tail) ==
      match Decode(tail)
      case None => None
      case Some((data, rest)) => Some((chunk + data, rest))
  {
    var stream := Pack(|chunk|) + chunk + tail;
    PackRoundTrip(|chunk|);
    assert stream[..4] == Pack(|chunk|) && stream[4..] == chunk + tail;
    assert stream[4..][..|chunk|] == chunk && stream[4..][|chunk|..] == tail;
  }

  lemma DecodeEnd(tail: seq<Byte>)
    ensures Decode(Pack(0) + tail) == Some(([], tail))
  {
    PackRoundTrip(0);
    assert (Pack(0) + tail)[..4] == Pack(0) && (Pack(0) + tail)[4..] == tail;
  }

  /** Decoding stops at the first empty chunk, or at the terminator when there is none. */
  lemma {:induction false} DecodeStops(chunks: seq<seq<Byte>>, k: nat)
    requires Packable(chunks) && k <= |chunks|
    requires forall i :: 0 <= i < k ==> chunks[i] != []
    requires k < |chunks| ==> chunks[k] == []
    ensures Decode(Encode(chunks)) ==
            Some((Concat(chunks[..k]), if k == |chunks| then [] else Encode(chunks[k + 1..])))
    decreases |chunks|
  {
    if chunks == [] {
      DecodeEnd([]);
      assert Pack(0) + [] == Pack(0);
    } else {
      var tail := Encode(chunks[1..]);
      if k == 0 {
        DecodeEnd(tail);
        assert Pack(0) + chunks[0] + tail == Pack(0) + tail;
      } else {
        DecodeFrame(chunks[0], tail);
        DecodeStops(chunks[1..], k - 1);
        assert chunks[..k][1..] == chunks[1..][..k - 1];
        assert k < |chunks| ==> chunks[1..][k..] == chunks[k + 1..];
      }
    }
  }

  lemma FirstEmpty(chunks: seq<seq<Byte>>) returns (k: nat)
    ensures k <= |chunks| && forall i :: 0 <= i < k ==> chunks[i] != []
    ensures k < |chunks| ==> chunks[k] == []
  {
    k := 0;
    while k < |chunks| && chunks[k] != []
      invariant k <= |chunks| && forall i :: 0 <= i < k ==> chunks[i] != []
    {
      k := k + 1;
    }
  }

  /** A stream decodes to the whole data with nothing left over if and only if no chunk is empty,
      so every split into non-empty chunks decodes to the same data. */
  lemma FramingRoundTripExactly(chunks: seq<seq<Byte>>)
    requires Packable(chunks)
    ensures Decode(Encode(chunks)) == Some((Concat(chunks), [])) <==>
            forall i :: 0 <= i < |chunks| ==> chunks[i] != []
  {
    var k := FirstEmpty(chunks);
    DecodeStops(chunks, k);
    assert k == |chunks| ==> chunks[..k] == chunks;
  }

  // ----- The code -----

  lemma {:induction false} ConcatAppend(chunks: seq<seq<Byte>>, c: seq<Byte>)
    ensures Concat(chunks + [c]) == Concat(chunks) + c
  {
    if chunks == [] {
      assert chunks + [c] == [c] && [c][1..] == [];
    } else {
      assert (chunks + [c])[1..] == chunks[1..] + [c];
      ConcatAppend(chunks[1..], c);
    }
  }

  /** The chunk generator of `scan`. */
  method Chunks(data: seq<Byte>) returns (chunks: seq<seq<Byte>>)
    ensures Concat(chunks) == data
    ensures forall i :: 0 <= i < |chunks| ==> 0 < |chunks[i]| <= 8192
    ensures forall i :: 0 <= i < |chunks| - 1 ==> |chunks[i]| == 8192
  {
    chunks := [];
    var offset := 0;
    while offset < |data|
      invariant 0 <= offset <= |data|
      invariant Concat(chunks) == data[..offset]
      invariant forall i :: 0 <= i < |chunks| ==> 0 < |chunks[i]| <= CHUNK_SIZE
      invariant offset < |data| ==> forall i :: 0 <= i < |chunks| ==> |chunks[i]| == CHUNK_SIZE
      invariant forall i :: 0 <= i < |chunks| - 1 ==> |chunks[i]| == CHUNK_SIZE
    {
      var end := if offset + CHUNK_SIZE < |data| then offset + CHUNK_SIZE else |data|;
      ConcatAppend(chunks, data[offset..end]);
      assert data[..offset] + data[offset..end] == data[..end];
      chunks := chunks + [data[offset..end]];
      offset := end;
    }
    assert data[..|data|] == data;
  }

  method WriteChunks(chunks: seq<seq<Byte>>) returns (written: seq<Byte>)
    requires Packable(chunks)
    ensures written == COMMAND + Encode(chunks)
  {
    written := COMMAND;
    for i := 0 to |chunks|
      invariant written + Encode(chunks[i..]) == COMMAND + Encode(chunks)
    {
      assert chunks[i..][0] == chunks[i] && chunks[i..][1..] == chunks[i + 1..];
      assert written + (Pack(|chunks[i]|) + chunks[i] + Encode(chunks[i + 1..]))
          == written + Pack(|chunks[i]|) + chunks[i] + Encode(chunks[i + 1..]);
      written := written + Pack(|chunks[i]|);
      written := written + chunks[i];
    }
    written := written + Pack(0);
  }

  /** For every input the daemon reads back exactly the input, with nothing left over. */
  method Scan(data: seq<Byte>) returns (written: seq<Byte>)
    ensures |written| > 10 && written[..10] == [122, 73, 78, 83, 84, 82, 69, 65, 77, 0]
    ensures Decode(written[10..]) == Some((data, []))
  {
    var chunks := Chunks(data);
    written := WriteChunks(chunks);
    assert written[|COMMAND|..] == Encode(chunks);
    FramingRoundTripExactly(chunks);
  }
}
