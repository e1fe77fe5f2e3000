/**
 * The Ecoji encoder: every 5 input bytes become 4 symbols of 10 bits each,
 * and a shorter last chunk is marked with sentinels. The methods follow the
 * Rust functions step by step; `ChunkSymbols` and `Encoding` say what they
 * compute.
 */
module Encoder {
  import opened Bits
  import opened Utf8
  import opened Alphabet
  import opened Io

  /** `s.get(k).cloned().unwrap_or(0)`: byte `k` of a chunk, and 0 past its end. */
  function ByteAt(s: seq<byte>, k: nat): (b: byte)
    ensures k < |s| ==> b == s[k]
    ensures |s| <= k ==> b == 0
  {
    if k < |s| then s[k] else 0
  }

  /** `b0 << 2 | b1 >> 6`: the 8 bits of `b0` and the top 2 of `b1`. */
  function Index0(b0: byte, b1: byte): (i: int)
    ensures 0 <= i < 1024
  {
    b0 * 4 + b1 / 64
  }

  /** `(b1 & 0x3f) << 4 | b2 >> 4`: the low 6 bits of `b1` and the top 4 of `b2`. */
  function Index1(b1: byte, b2: byte): (i: int)
    ensures 0 <= i < 1024
  {
    (b1 % 64) * 16 + b2 / 16
  }

  /** `(b2 & 0x0f) << 6 | b3 >> 2`: the low 4 bits of `b2` and the top 6 of `b3`. */
  function Index2(b2: byte, b3: byte): (i: int)
    ensures 0 <= i < 1024
  {
    (b2 % 16) * 64 + b3 / 4
  }

  /** `(b3 & 0x03) << 8 | b4`: the low 2 bits of `b3` and the 8 of `b4`. */
  function Index3(b3: byte, b4: byte): (i: int)
    ensures 0 <= i < 1024
  {
    (b3 % 4) * 256 + b4
  }

  /**
   * The four symbols `encode_chunk` writes for a chunk of 1 to 5 bytes: as
   * many table symbols as the chunk has bits for, `PADDING` after them, and
   * for a 4-byte chunk `PADDING_4k` in the last slot, `k` being the low two
   * bits of the fourth byte.
   */
  function ChunkSymbols(t: Table, s: seq<byte>): (cs: seq<Scalar>)
    requires Valid(t) && 0 < |s| <= 5
    ensures |cs| == 4
  {
    var b0, b1, b2, b3, b4 := s[0], ByteAt(s, 1), ByteAt(s, 2), ByteAt(s, 3), ByteAt(s, 4);
    [ t.emojis[Index0(b0, b1)],
      if |s| >= 2 then t.emojis[Index1(b1, b2)] else PADDING,
      if |s| >= 3 then t.emojis[Index2(b2, b3)] else PADDING,
      if |s| == 5 then t.emojis[Index3(b3, b4)] else if |s| == 4 then Padding4(t, b3 % 4) else PADDING ]
  }

  /**
   * The slots of a chunk: the first is always a table symbol, the missing
   * second byte read as 0; a slot is `PADDING` exactly when it lies past the
   * chunk's length; a 4-byte chunk ends in the sentinel its fourth byte
   * selects; every other slot is a table symbol, so no sentinel appears in
   * a 5-byte chunk.
   */
  lemma ChunkShape(t: Table, s: seq<byte>)
    requires Valid(t) && 0 < |s| <= 5
    ensures var cs := ChunkSymbols(t, s);
      && cs[0] == t.emojis[Index0(s[0], ByteAt(s, 1))]
      && (forall k :: 1 <= k < 4 ==> (cs[k] == PADDING <==> |s| <= k))
      && (|s| == 4 ==> cs[3] == Padding4(t, s[3] % 4))
      && (forall k :: 0 <= k < |s| && k < 4 && !(|s| == 4 && k == 3) ==> cs[k] in t.rev)
      && (forall k :: 0 <= k < 4 ==> IsValidAlphabetChar(t, cs[k]))
  {
    var cs := ChunkSymbols(t, s);
    assert forall i :: 0 <= i < 1024 ==> t.emojis[i] in t.rev;
  }

  /** What `encode` produces for `bs`: the symbols of its 5-byte chunks in order, the last possibly shorter. */
  function Encoding(t: Table, bs: seq<byte>): (cs: seq<Scalar>)
    requires Valid(t)
    ensures |cs| == 4 * ((|bs| + 4) / 5)
    decreases |bs|
  {
    if bs == [] then []
    else
      var n := Min(5, |bs|);
      ChunkCount(|bs|);
      ChunkSymbols(t, bs[..n]) + Encoding(t, bs[n..])
  }

  /** Taking one chunk of up to 5 bytes off `len` takes one off the number of chunks. */
  lemma ChunkCount(len: nat)
    requires len > 0
    ensures (len + 4) / 5 == (len - Min(5, len) + 4) / 5 + 1
  {
    if len >= 5 {
      DivModShift(len + 4, 5);
    } else {
      DivMod(len + 4, 5, 1, len - 1);
      DivMod(4, 5, 0, 4);
    }
  }

  /** The bytes `encode` writes: the UTF-8 encoding of the symbols. */
  function EncodedBytes(t: Table, bs: seq<byte>): seq<byte>
    requires Valid(t)
  {
    Utf8.Encode(Encoding(t, bs))
  }

  /** The output for `bs` is the output for its first chunk followed by the output for the rest. */
  lemma EncodedBytesStep(t: Table, bs: seq<byte>)
    requires Valid(t) && bs != []
    ensures var n := Min(5, |bs|);
      EncodedBytes(t, bs) == Utf8.Encode(ChunkSymbols(t, bs[..n])) + EncodedBytes(t, bs[n..])
  {
    var n := Min(5, |bs|);
    EncodeAppend(ChunkSymbols(t, bs[..n]), Encoding(t, bs[n..]));
  }

  /** The output so far followed by the output for `bs`, regrouped around `bs`'s first chunk. */
  lemma WrittenStep(t: Table, written: seq<byte>, bs: seq<byte>)
    requires Valid(t) && bs != []
    ensures var n := Min(5, |bs|);
      written + EncodedBytes(t, bs) == (written + Utf8.Encode(ChunkSymbols(t, bs[..n]))) + EncodedBytes(t, bs[n..])
  {
    EncodedBytesStep(t, bs);
  }

  /** What `String::from_utf8_unchecked` relies on: the encoder's output is well-formed UTF-8. */
  lemma EncodedIsUtf8(t: Table, bs: seq<byte>)
    requires Valid(t)
    ensures ValidUtf8(EncodedBytes(t, bs))
  {
    EncodeIsValid(Encoding(t, bs));
  }

  /** The first half of `encode_chunk`: the `chars` array, set to `PADDING` and then overwritten by length. */
  method ChunkChars(t: Table, s: seq<byte>) returns (chars: array<Scalar>)
    requires Valid(t) && 0 < |s| <= 5
    ensures fresh(chars) && chars[..] == ChunkSymbols(t, s)
  {
    var b0, b1, b2, b3, b4 := s[0], ByteAt(s, 1), ByteAt(s, 2), ByteAt(s, 3), ByteAt(s, 4);
    chars := new Scalar[4];
    chars[0], chars[1], chars[2], chars[3] := t.emojis[Index0(b0, b1)], PADDING, PADDING, PADDING;
    if |s| == 2 {
      chars[1] := t.emojis[Index1(b1, b2)];
    } else if |s| == 3 {
      chars[1] := t.emojis[Index1(b1, b2)];
      chars[2] := t.emojis[Index2(b2, b3)];
    } else if |s| == 4 {
      chars[1] := t.emojis[Index1(b1, b2)];
      chars[2] := t.emojis[Index2(b2, b3)];
      chars[3] := Padding4(t, b3 % 4);
    } else if |s| == 5 {
      chars[1] := t.emojis[Index1(b1, b2)];
      chars[2] := t.emojis[Index2(b2, b3)];
      chars[3] := t.emojis[Index3(b3, b4)];
    }
    ghost var expected := ChunkSymbols(t, s);
    assert chars[0] == expected[0] && chars[1] == expected[1] && chars[2] == expected[2] && chars[3] == expected[3];
  }

  /** `encode_chunk`: writes the UTF-8 encoding of the chunk's four symbols and returns its length. */
  method EncodeChunk(t: Table, s: seq<byte>, out: VecWriter) returns (bytesWritten: nat)
    requires Valid(t) && 0 < |s| <= 5
    modifies out
    ensures out.bytes == old(out.bytes) + Utf8.Encode(ChunkSymbols(t, s))
    ensures bytesWritten == |Utf8.Encode(ChunkSymbols(t, s))|
  {
    var chars := ChunkChars(t, s);
    ghost var cs := chars[..];
    bytesWritten := 0;
    for i := 0 to 4
      invariant out.bytes == old(out.bytes) + Utf8.Encode(cs[..i])
      invariant bytesWritten == |Utf8.Encode(cs[..i])|
      invariant chars[..] == cs
    {
      var e := EncodeScalar(chars[i]);
      out.WriteAll(e);
      bytesWritten := bytesWritten + |e|;
      EncodeSnoc(cs, i);
    }
    assert cs[..4] == cs;
  }

  /** `read_exact`: fills `buf` from the front of the source until either is exhausted. */
  method ReadExact(source: SliceReader, buf: array<byte>) returns (bytesRead: nat)
    modifies source, buf
    ensures bytesRead == Min(buf.Length, |old(source.rest)|)
    ensures buf[..bytesRead] == old(source.rest)[..bytesRead]
    ensures source.rest == old(source.rest)[bytesRead..]
    ensures buf[bytesRead..] == old(buf[bytesRead..])
  {
    bytesRead := 0;
    while bytesRead < buf.Length
      invariant bytesRead <= buf.Length && bytesRead <= |old(source.rest)|
      invariant buf[..bytesRead] == old(source.rest)[..bytesRead]
      invariant buf[bytesRead..] == old(buf[bytesRead..])
      invariant source.rest == old(source.rest)[bytesRead..]
      decreases buf.Length - bytesRead
    {
      var n := source.Read(buf, bytesRead, buf.Length);
      if n == 0 {
        break;
      }
      assert buf[..bytesRead + n] == buf[..bytesRead] + buf[bytesRead..bytesRead + n];
      assert old(buf[bytesRead..])[n..] == old(buf[bytesRead + n..]);
      bytesRead := bytesRead + n;
    }
  }

  /** `encode`: encodes the whole source, chunk by chunk, and returns the number of bytes written. */
  method Encode(t: Table, source: SliceReader, destination: VecWriter) returns (bytesWritten: nat)
    requires Valid(t)
    modifies source, destination
    ensures destination.bytes == old(destination.bytes) + EncodedBytes(t, old(source.rest))
    ensures bytesWritten == |EncodedBytes(t, old(source.rest))|
    ensures source.rest == []
  {
    var buf := new byte[5];
    bytesWritten := 0;
    while true
      invariant old(destination.bytes) + EncodedBytes(t, old(source.rest)) == destination.bytes + EncodedBytes(t, source.rest)
      invariant bytesWritten == |destination.bytes| - |old(destination.bytes)|
      decreases |source.rest|
    {
      ghost var before := source.rest;
      var n := ReadExact(source, buf);
      if n == 0 {
        break;
      }
      var chunk := buf[..n];
      assert chunk == before[..Min(5, |before|)] && source.rest == before[Min(5, |before|)..];
      WrittenStep(t, destination.bytes, before);
      var w := EncodeChunk(t, chunk, destination);
      bytesWritten := bytesWritten + w;
    }
  }

  /** `encode_to_string`: the encoding as a string, a byte sequence that is well-formed UTF-8. */
  method EncodeToString(t: Table, source: SliceReader) returns (s: seq<byte>)
    requires Valid(t)
    modifies source
    ensures s == EncodedBytes(t, old(source.rest)) && ValidUtf8(s)
    ensures source.rest == []
  {
    var output := new VecWriter();
    var _ := Encode(t, source, output);
    EncodedIsUtf8(t, old(source.rest));
    s := output.bytes;
  }
}
