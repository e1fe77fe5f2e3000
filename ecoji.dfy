/**
 * What the crate promises about `encode` and `decode` together: decoding an
 * encoding gives back the input and never fails, encodings concatenate, and
 * encoding keeps the sort order of its inputs.
 */
module Ecoji {
  import opened Wrappers
  import opened Bits
  import opened Utf8
  import opened Alphabet
  import opened Io
  import opened Chars
  import opened Encoder
  import opened Decoder

  lemma Octet0(b0: byte, b1: byte)
    ensures U8(Index0(b0, b1) / 4) == b0
  {
    DivMod(Index0(b0, b1), 4, b0, b1 / 64);
  }

  lemma Octet1(b0: byte, b1: byte, b2: byte)
    ensures U8((Index0(b0, b1) % 4) * 64 + Index1(b1, b2) / 16) == b1
  {
    DivMod(Index0(b0, b1), 4, b0, b1 / 64);
    DivMod(Index1(b1, b2), 16, b1 % 64, b2 / 16);
  }

  lemma Octet2(b1: byte, b2: byte, b3: byte)
    ensures U8((Index1(b1, b2) % 16) * 16 + Index2(b2, b3) / 64) == b2
  {
    DivMod(Index1(b1, b2), 16, b1 % 64, b2 / 16);
    DivMod(Index2(b2, b3), 64, b2 % 16, b3 / 4);
  }

  lemma Octet3(b2: byte, b3: byte, b4: byte)
    ensures U8((Index2(b2, b3) % 64) * 4 + Index3(b3, b4) / 256) == b3
  {
    DivMod(Index2(b2, b3), 64, b2 % 16, b3 / 4);
    DivMod(Index3(b3, b4), 256, b3 % 4, b4);
  }

  lemma Octet4(b3: byte, b4: byte)
    ensures U8(Index3(b3, b4) % 256) == b4
  {
    DivMod(Index3(b3, b4), 256, b3 % 4, b4);
  }

  /** The decoder's shifts and masks undo the encoder's: the four indices of five bytes give those bytes back. */
  lemma OctetsOfIndices(b0: byte, b1: byte, b2: byte, b3: byte, b4: byte)
    ensures GroupOctets(Index0(b0, b1), Index1(b1, b2), Index2(b2, b3), Index3(b3, b4)) == [b0, b1, b2, b3, b4]
  {
    Octet0(b0, b1);
    Octet1(b0, b1, b2);
    Octet2(b1, b2, b3);
    Octet3(b2, b3, b4);
    Octet4(b3, b4);
  }

  /**
   * The ranks `decode` reads off a chunk's symbols are the indices `encode`
   * put there: with the table's index in the first three slots, where
   * `PADDING` ranks 0 as an index of bytes past the end does, and
   * `PADDING_4k` in the last slot standing for the two bits it keeps.
   */
  lemma ChunkRanks(t: Table, s: seq<byte>)
    requires Valid(t) && 0 < |s| <= 5
    ensures var cs := ChunkSymbols(t, s);
      && Rank(t, cs[0]) == Index0(s[0], ByteAt(s, 1))
      && Rank(t, cs[1]) == Index1(ByteAt(s, 1), ByteAt(s, 2))
      && Rank(t, cs[2]) == Index2(ByteAt(s, 2), ByteAt(s, 3))
      && LastRank(t, cs[3]) == Index3(ByteAt(s, 3), ByteAt(s, 4))
  {
    RankOfEmoji(t, Index0(s[0], ByteAt(s, 1)));
    SecondRank(t, s);
    ThirdRank(t, s);
    LastChunkRank(t, s);
  }

  lemma SecondRank(t: Table, s: seq<byte>)
    requires Valid(t) && 0 < |s| <= 5
    ensures Rank(t, ChunkSymbols(t, s)[1]) == Index1(ByteAt(s, 1), ByteAt(s, 2))
  {
    if |s| >= 2 {
      RankOfEmoji(t, Index1(ByteAt(s, 1), ByteAt(s, 2)));
    } else {
      RankOfPadding(t);
    }
  }

  lemma ThirdRank(t: Table, s: seq<byte>)
    requires Valid(t) && 0 < |s| <= 5
    ensures Rank(t, ChunkSymbols(t, s)[2]) == Index2(ByteAt(s, 2), ByteAt(s, 3))
  {
    if |s| >= 3 {
      RankOfEmoji(t, Index2(ByteAt(s, 2), ByteAt(s, 3)));
    } else {
      RankOfPadding(t);
    }
  }

  lemma LastChunkRank(t: Table, s: seq<byte>)
    requires Valid(t) && 0 < |s| <= 5
    ensures LastRank(t, ChunkSymbols(t, s)[3]) == Index3(ByteAt(s, 3), ByteAt(s, 4))
  {
    if |s| < 4 {
      RankOfPadding(t);
    }
  }

  /** A table symbol ranks as its index. */
  lemma RankOfEmoji(t: Table, i: int)
    requires Valid(t) && 0 <= i < 1024
    ensures Rank(t, t.emojis[i]) == i
  {
  }

  /** `PADDING` ranks 0, in the first three slots as in the last. */
  lemma RankOfPadding(t: Table)
    requires Valid(t)
    ensures Rank(t, PADDING) == 0 && LastRank(t, PADDING) == 0
  {
  }

  /** A chunk's padding tells `decode` the chunk's length. */
  lemma ChunkLength(t: Table, s: seq<byte>)
    requires Valid(t) && 0 < |s| <= 5
    ensures GroupLength(t, ChunkSymbols(t, s)) == |s|
  {
    ChunkShape(t, s);
    var cs := ChunkSymbols(t, s);
    if |s| == 5 {
      assert cs[3] in t.rev;
    }
  }

  /** A chunk read zero-padded to five bytes, as `encode_chunk` reads it. */
  function Padded(s: seq<byte>): (p: seq<byte>)
    ensures |p| == 5 && Lex.Digits(p, 256)
    ensures forall k :: 0 <= k < 5 ==> p[k] == ByteAt(s, k)
  {
    [ByteAt(s, 0), ByteAt(s, 1), ByteAt(s, 2), ByteAt(s, 3), ByteAt(s, 4)]
  }

  /** A chunk is its first `|s|` bytes when read zero-padded to five. */
  lemma ChunkBytes(s: seq<byte>)
    requires 0 < |s| <= 5
    ensures Padded(s)[..|s|] == s
  {
    var out := Padded(s);
    assert forall k :: 0 <= k < |s| ==> out[k] == s[k];
  }

  /** `decode` turns the four symbols of any chunk back into that chunk. */
  lemma ChunkRoundTrip(t: Table, s: seq<byte>)
    requires Valid(t) && 0 < |s| <= 5
    ensures DecodeGroup(t, ChunkSymbols(t, s)) == s
  {
    var b0, b1, b2, b3, b4 := s[0], ByteAt(s, 1), ByteAt(s, 2), ByteAt(s, 3), ByteAt(s, 4);
    ChunkRanks(t, s);
    ChunkLength(t, s);
    OctetsOfIndices(b0, b1, b2, b3, b4);
    ChunkBytes(s);
    assert Padded(s) == [b0, b1, b2, b3, b4];
  }

  /** Every symbol of an encoding is in the alphabet `decode` accepts. */
  lemma {:induction false} EncodingInAlphabet(t: Table, bs: seq<byte>)
    requires Valid(t)
    ensures forall i :: 0 <= i < |Encoding(t, bs)| ==> IsValidAlphabetChar(t, Encoding(t, bs)[i])
    decreases |bs|
  {
    if bs != [] {
      var n := Min(5, |bs|);
      ChunkShape(t, bs[..n]);
      EncodingInAlphabet(t, bs[n..]);
      var head, tail := ChunkSymbols(t, bs[..n]), Encoding(t, bs[n..]);
      assert forall i :: 4 <= i < |head + tail| ==> (head + tail)[i] == tail[i - 4];
    }
  }

  /** The groups of an encoding decode to the bytes encoded. */
  lemma {:induction false} DecodeGroupsOfEncoding(t: Table, bs: seq<byte>)
    requires Valid(t)
    ensures DecodeGroups(t, Encoding(t, bs)) == bs
    decreases |bs|
  {
    if bs != [] {
      var n := Min(5, |bs|);
      assert bs == bs[..n] + bs[n..];
      var head, tail := ChunkSymbols(t, bs[..n]), Encoding(t, bs[n..]);
      DecodeGroupsCons(t, head, tail);
      ChunkRoundTrip(t, bs[..n]);
      DecodeGroupsOfEncoding(t, bs[n..]);
    }
  }

  /** An encoding is a whole number of groups of four. */
  lemma EncodingGroups(t: Table, bs: seq<byte>)
    requires Valid(t)
    ensures |Encoding(t, bs)| % 4 == 0
  {
    var q := (|bs| + 4) / 5;
    DivMod(4 * q, 4, q, 0);
  }

  /**
   * `decode` on the UTF-8 encoding of whole groups of alphabet symbols ends
   * cleanly, having read everything, and writes what the groups decode to.
   */
  lemma DecodeOfSymbols(t: Table, cs: seq<Scalar>)
    requires Valid(t) && |cs| % 4 == 0
    requires forall i :: 0 <= i < |cs| ==> IsValidAlphabetChar(t, cs[i])
    ensures DecodeStream(t, Items(Utf8.Encode(cs))) == Decoded(DecodeGroups(t, cs), None, [])
  {
    ItemsOfEncoding(cs);
    AcceptedAll(t, cs);
    DecodeStreamMeaning(t, Oks(cs));
  }

  /**
   * A stream of alphabet symbols whose number is not a multiple of four
   * ends with `UnexpectedEof`, after the whole groups before it.
   */
  lemma MissingSymbols(t: Table, cs: seq<Scalar>)
    requires Valid(t) && |cs| % 4 != 0
    requires forall i :: 0 <= i < |cs| ==> IsValidAlphabetChar(t, cs[i])
    ensures DecodeStream(t, Items(Utf8.Encode(cs))) == Decoded(DecodeGroups(t, cs), Some(UnexpectedEof), [])
  {
    ItemsOfEncoding(cs);
    AcceptedAll(t, cs);
    DecodeStreamMeaning(t, Oks(cs));
  }

  /** Round trip: `decode` of what `encode` wrote gives back the input, with no error and nothing left over. */
  lemma RoundTrip(t: Table, bs: seq<byte>)
    requires Valid(t)
    ensures DecodeStream(t, Items(EncodedBytes(t, bs))) == Decoded(bs, None, [])
  {
    EncodingGroups(t, bs);
    EncodingInAlphabet(t, bs);
    DecodeOfSymbols(t, Encoding(t, bs));
    DecodeGroupsOfEncoding(t, bs);
  }

  /** `encode_then_decode_identity`: `decode_to_vec` of `encode_to_string` of any input succeeds with that input. */
  method EncodeThenDecode(t: Table, input: seq<byte>) returns (output: Result<seq<byte>, ErrorKind>)
    requires Valid(t)
    ensures output == Ok(input)
  {
    var source := new SliceReader(input);
    var encoded := EncodeToString(t, source);
    var reader := new SliceReader(encoded);
    output := DecodeToVec(t, reader);
    RoundTrip(t, input);
  }

  /** Two encodings one after the other are whole groups of alphabet symbols too. */
  lemma EncodingsJoin(t: Table, a: seq<byte>, b: seq<byte>)
    requires Valid(t)
    ensures var cs := Encoding(t, a) + Encoding(t, b);
      && |cs| % 4 == 0
      && forall i :: 0 <= i < |cs| ==> IsValidAlphabetChar(t, cs[i])
  {
    var ea, eb := Encoding(t, a), Encoding(t, b);
    DivMod(|ea + eb|, 4, (|a| + 4) / 5 + (|b| + 4) / 5, 0);
    EncodingInAlphabet(t, a);
    EncodingInAlphabet(t, b);
    forall i | 0 <= i < |ea + eb| ensures IsValidAlphabetChar(t, (ea + eb)[i]) {
      if i >= |ea| {
        assert (ea + eb)[i] == eb[i - |ea|];
      }
    }
  }

  /** Concatenation: `decode` of two encodings one after the other gives the two inputs one after the other. */
  lemma Concatenation(t: Table, a: seq<byte>, b: seq<byte>)
    requires Valid(t)
    ensures DecodeStream(t, Items(EncodedBytes(t, a) + EncodedBytes(t, b))) == Decoded(a + b, None, [])
  {
    var ea, eb := Encoding(t, a), Encoding(t, b);
    EncodeAppend(ea, eb);
    EncodingsJoin(t, a, b);
    DecodeOfSymbols(t, ea + eb);
    EncodingGroups(t, a);
    DecodeGroupsAppend(t, ea, eb);
    DecodeGroupsOfEncoding(t, a);
    DecodeGroupsOfEncoding(t, b);
  }

  /**
   * The concatenation example: `decode_to_string` of the two strings'
   * encodings, concatenated, gives the two strings concatenated.
   */
  method ConcatenateEncodings(t: Table, input1: seq<byte>, input2: seq<byte>) returns (r: Result<seq<byte>, ErrorKind>)
    requires Valid(t) && ValidUtf8(input1) && ValidUtf8(input2)
    ensures r == Ok(input1 + input2)
  {
    var source1 := new SliceReader(input1);
    var output1 := EncodeToString(t, source1);
    var source2 := new SliceReader(input2);
    var output2 := EncodeToString(t, source2);
    var output := output1 + output2;
    var reader := new SliceReader(output);
    r := DecodeToString(t, reader);
    Concatenation(t, input1, input2);
    ValidAppend(input1, input2);
  }

  // Sort order. A chunk is compared through three views of it: its bytes
  // zero-padded to five, the four indices `encode` cuts them into, and one
  // key per slot that also records whether the slot is past the chunk's
  // end (0), the last slot of a 4-byte chunk (1) or a full slot (2).

  /**
   * The four 10-bit indices of a chunk, zero-padded as `encode_chunk` reads
   * it. `encode_chunk` computes no index for a slot past the chunk's end;
   * such a slot holds 0, the index two padding bytes would give.
   */
  function Indices(s: seq<byte>): (ds: seq<int>)
    ensures |ds| == 4 && Lex.Digits(ds, 1024)
  {
    [if 0 < |s| then Index0(s[0], ByteAt(s, 1)) else 0,
     if 1 < |s| then Index1(s[1], ByteAt(s, 2)) else 0,
     if 2 < |s| then Index2(s[2], ByteAt(s, 3)) else 0,
     if 3 < |s| then Index3(s[3], ByteAt(s, 4)) else 0]
  }

  lemma Value5(p: seq<int>)
    requires |p| == 5
    ensures Lex.Value(p, 256) == p[0] * 0x1_0000_0000 + p[1] * 0x100_0000 + p[2] * 0x1_0000 + p[3] * 0x100 + p[4]
  {
    var q1 := p[1..];
    var q2 := q1[1..];
    var q3 := q2[1..];
    var q4 := q3[1..];
    assert q4[1..] == [];
    assert Lex.Pow(256, 0) == 1 && Lex.Pow(256, 1) == 0x100 && Lex.Pow(256, 2) == 0x1_0000;
    assert Lex.Pow(256, 3) == 0x100_0000 && Lex.Pow(256, 4) == 0x1_0000_0000;
    assert Lex.Value(q4, 256) == p[4];
    assert Lex.Value(q3, 256) == p[3] * 0x100 + p[4];
    assert Lex.Value(q2, 256) == p[2] * 0x1_0000 + p[3] * 0x100 + p[4];
    assert Lex.Value(q1, 256) == p[1] * 0x100_0000 + p[2] * 0x1_0000 + p[3] * 0x100 + p[4];
  }

  lemma Value4(d: seq<int>)
    requires |d| == 4
    ensures Lex.Value(d, 1024) == d[0] * 0x4000_0000 + d[1] * 0x10_0000 + d[2] * 0x400 + d[3]
  {
    var q1 := d[1..];
    var q2 := q1[1..];
    var q3 := q2[1..];
    assert q3[1..] == [];
    assert Lex.Pow(1024, 0) == 1 && Lex.Pow(1024, 1) == 0x400;
    assert Lex.Pow(1024, 2) == 0x10_0000 && Lex.Pow(1024, 3) == 0x4000_0000;
    assert Lex.Value(q3, 1024) == d[3];
    assert Lex.Value(q2, 1024) == d[2] * 0x400 + d[3];
    assert Lex.Value(q1, 1024) == d[1] * 0x10_0000 + d[2] * 0x400 + d[3];
  }

  /** The indices are the padded chunk's 40 bits, in base 1024 instead of base 256. */
  lemma IndicesValue(s: seq<byte>)
    ensures Lex.Value(Indices(s), 1024) == Lex.Value(Padded(s), 256)
  {
    var p := Padded(s);
    Value5(p);
    Value4(Indices(s));
    DivMod(p[1], 64, p[1] / 64, p[1] % 64);
    DivMod(p[2], 16, p[2] / 16, p[2] % 16);
    DivMod(p[3], 4, p[3] / 4, p[3] % 4);
  }

  /** The slots past a chunk's end hold index 0. */
  lemma IndicesPastEnd(s: seq<byte>)
    ensures forall j :: 0 <= j < 4 && |s| <= j ==> Indices(s)[j] == 0
  {
  }

  /** A smaller chunk pads to a smaller number, or to the same number and is a prefix of the other. */
  lemma PaddedOrder(s1: seq<byte>, s2: seq<byte>)
    requires |s1| <= 5 && |s2| <= 5 && Lex.Less(s1, s2)
    ensures var v1, v2 := Lex.Value(Padded(s1), 256), Lex.Value(Padded(s2), 256);
      v1 < v2 || (Padded(s1) == Padded(s2) && |s1| < |s2|)
  {
    var p1, p2 := Padded(s1), Padded(s2);
    Lex.LessCases(s1, s2);
    if Lex.DiffersBelow(s1, s2) {
      var k := Lex.DiffersBelowAt(s1, s2);
      assert forall i :: 0 <= i < k ==> p1[i] == s1[..k][i] == s2[..k][i] == p2[i];
      assert p1[..k] == p2[..k];
      Lex.DiffersAt(p1, p2, k);
      Lex.ValueOrder(p1, p2, 256);
    } else {
      assert forall i :: 0 <= i < |s1| ==> s1[i] == s2[..|s1|][i] == s2[i];
      Lex.ValueMono(p1, p2, 256);
    }
  }

  /** What a slot holds: 0 past the chunk's end, 1 for the last slot of a 4-byte chunk, 2 for a table symbol. */
  function Status(j: int, n: int): int {
    if n <= j then 0 else if j == 3 && n == 4 then 1 else 2
  }

  /** One key per slot: the index, and after it the slot's status. */
  function Keys(ds: seq<int>, n: int): (ks: seq<int>)
    requires |ds| == 4
    ensures |ks| == 4
  {
    [2 * ds[0] + Status(0, n), 2 * ds[1] + Status(1, n), 2 * ds[2] + Status(2, n), 2 * ds[3] + Status(3, n)]
  }

  /** The first slot where chunks of lengths `n1 != n2` differ in status. */
  function StatusSplit(n1: int, n2: int): (m: int)
    requires 1 <= n1 <= 5 && 1 <= n2 <= 5 && n1 != n2
    ensures 0 < m < 4
    ensures forall i :: 0 <= i < m ==> Status(i, n1) == Status(i, n2)
    ensures n1 < n2 ==> Status(m, n1) < Status(m, n2)
    ensures n2 < n1 ==> Status(m, n2) < Status(m, n1)
  {
    var low := if n1 < n2 then n1 else n2;
    if low <= 3 then low else 3
  }

  /**
   * Keys order chunks: smaller indices give smaller keys at the first slot
   * that differs, and equal indices give smaller keys to the shorter chunk.
   */
  lemma KeysOrder(d1: seq<int>, d2: seq<int>, n1: int, n2: int)
    requires |d1| == 4 && |d2| == 4 && Lex.Digits(d1, 1024) && Lex.Digits(d2, 1024)
    requires 1 <= n1 <= 5 && 1 <= n2 <= 5
    requires forall j :: 0 <= j < 4 && n1 <= j ==> d1[j] == 0
    requires forall j :: 0 <= j < 4 && n2 <= j ==> d2[j] == 0
    requires Lex.DiffersBelow(d1, d2) || (d1 == d2 && n1 < n2)
    ensures Lex.DiffersBelow(Keys(d1, n1), Keys(d2, n2))
  {
    if Lex.DiffersBelow(d1, d2) {
      var j := Lex.DiffersBelowAt(d1, d2);
      assert forall i :: 0 <= i < j ==> d1[i] == d1[..j][i] == d2[..j][i] == d2[i];
      KeysOrderAt(d1, d2, n1, n2, j);
    } else {
      var m := StatusSplit(n1, n2);
      KeysDifferAt(d1, d2, n1, n2, m);
    }
  }

  /** Keys that agree below slot `m` and are smaller at `m` differ below. */
  lemma KeysDifferAt(d1: seq<int>, d2: seq<int>, n1: int, n2: int, m: nat)
    requires |d1| == 4 && |d2| == 4 && m < 4
    requires forall i :: 0 <= i < m ==> d1[i] == d2[i] && Status(i, n1) == Status(i, n2)
    requires 2 * d1[m] + Status(m, n1) < 2 * d2[m] + Status(m, n2)
    ensures Lex.DiffersBelow(Keys(d1, n1), Keys(d2, n2))
  {
    var k1, k2 := Keys(d1, n1), Keys(d2, n2);
    assert k1[..m] == k2[..m];
    Lex.DiffersAt(k1, k2, m);
  }

  /** Indices that first differ at slot `j`: the keys differ below, at `j` or at the first slot of different status. */
  lemma KeysOrderAt(d1: seq<int>, d2: seq<int>, n1: int, n2: int, j: nat)
    requires |d1| == 4 && |d2| == 4 && Lex.Digits(d1, 1024) && Lex.Digits(d2, 1024)
    requires 1 <= n1 <= 5 && 1 <= n2 <= 5
    requires forall j :: 0 <= j < 4 && n2 <= j ==> d2[j] == 0
    requires j < 4 && (forall i :: 0 <= i < j ==> d1[i] == d2[i]) && d1[j] < d2[j]
    ensures Lex.DiffersBelow(Keys(d1, n1), Keys(d2, n2))
  {
    assert j < n2;
    if n1 == n2 {
      KeysDifferAt(d1, d2, n1, n2, j);
    } else if j < StatusSplit(n1, n2) {
      KeysDifferAt(d1, d2, n1, n2, j);
    } else {
      KeysDifferAt(d1, d2, n1, n2, StatusSplit(n1, n2));
    }
  }

  /** The key of each symbol of a chunk is the key of its slot. */
  lemma ChunkKeys(t: Table, s: seq<byte>)
    requires Valid(t) && 0 < |s| <= 5
    ensures forall j :: 0 <= j < 4 ==> SymbolKey(t, ChunkSymbols(t, s)[j]) == Keys(Indices(s), |s|)[j]
  {
    var cs, ks := ChunkSymbols(t, s), Keys(Indices(s), |s|);
    SecondKey(t, s);
    ThirdKey(t, s);
    LastKey(t, s);
    assert SymbolKey(t, cs[0]) == ks[0];
  }

  lemma SecondKey(t: Table, s: seq<byte>)
    requires Valid(t) && 0 < |s| <= 5
    ensures SymbolKey(t, ChunkSymbols(t, s)[1]) == Keys(Indices(s), |s|)[1]
  {
    if |s| >= 2 {
      var i := Index1(s[1], ByteAt(s, 2));
      assert Indices(s)[1] == i;
      assert ChunkSymbols(t, s)[1] == t.emojis[i];
    }
  }

  lemma ThirdKey(t: Table, s: seq<byte>)
    requires Valid(t) && 0 < |s| <= 5
    ensures SymbolKey(t, ChunkSymbols(t, s)[2]) == Keys(Indices(s), |s|)[2]
  {
    if |s| >= 3 {
      var i := Index2(s[2], ByteAt(s, 3));
      assert Indices(s)[2] == i;
      assert ChunkSymbols(t, s)[2] == t.emojis[i];
    }
  }

  lemma LastKey(t: Table, s: seq<byte>)
    requires Valid(t) && 0 < |s| <= 5
    ensures SymbolKey(t, ChunkSymbols(t, s)[3]) == Keys(Indices(s), |s|)[3]
  {
    if |s| >= 4 {
      var i := Index3(s[3], ByteAt(s, 4));
      assert Indices(s)[3] == i;
      if |s| == 5 {
        assert ChunkSymbols(t, s)[3] == t.emojis[i];
      } else {
        FourthSentinelKey(t, s);
      }
    }
  }

  /** In a 4-byte chunk, the sentinel for `k` has key `512k + 1`, twice the index `256k` and status 1. */
  lemma FourthSentinelKey(t: Table, s: seq<byte>)
    requires Valid(t) && |s| == 4
    ensures SymbolKey(t, ChunkSymbols(t, s)[3]) == 2 * Index3(s[3], 0) + 1
  {
    var k: int := s[3] % 4;
    assert ChunkSymbols(t, s)[3] == Padding4(t, k);
    assert SymbolKey(t, Padding4(t, k)) == 512 * k + 1;
  }

  /** Symbols of the alphabet whose keys differ below compare the same way. */
  lemma KeysToSymbols(t: Table, c1: seq<Scalar>, c2: seq<Scalar>, k1: seq<int>, k2: seq<int>)
    requires Ordered(t) && |c1| == |k1| && |c2| == |k2|
    requires forall j :: 0 <= j < |c1| ==> IsValidAlphabetChar(t, c1[j]) && k1[j] == SymbolKey(t, c1[j])
    requires forall j :: 0 <= j < |c2| ==> IsValidAlphabetChar(t, c2[j]) && k2[j] == SymbolKey(t, c2[j])
    requires Lex.DiffersBelow(k1, k2)
    ensures Lex.DiffersBelow(c1, c2)
  {
    var p := Lex.DiffersBelowAt(k1, k2);
    forall i | 0 <= i < p ensures c1[i] == c2[i] {
      assert k1[i] == k1[..p][i] == k2[..p][i] == k2[i];
      SymbolKeyOrder(t, c1[i], c2[i]);
    }
    SymbolKeyOrder(t, c1[p], c2[p]);
    assert c1[..p] == c2[..p];
    Lex.DiffersAt(c1, c2, p);
  }

  /** Under `Ordered`, a smaller chunk encodes to symbols that are smaller at a slot both have. */
  lemma ChunkOrder(t: Table, s1: seq<byte>, s2: seq<byte>)
    requires Ordered(t) && 0 < |s1| <= 5 && 0 < |s2| <= 5 && Lex.Less(s1, s2)
    ensures Lex.DiffersBelow(ChunkSymbols(t, s1), ChunkSymbols(t, s2))
  {
    var d1, d2 := Indices(s1), Indices(s2);
    PaddedOrder(s1, s2);
    IndicesValue(s1);
    IndicesValue(s2);
    Lex.ValueOrder(d1, d2, 1024);
    if Padded(s1) == Padded(s2) {
      Lex.ValueInjective(d1, d2, 1024);
    }
    IndicesPastEnd(s1);
    IndicesPastEnd(s2);
    KeysOrder(d1, d2, |s1|, |s2|);
    ChunkKeys(t, s1);
    ChunkKeys(t, s2);
    ChunkShape(t, s1);
    ChunkShape(t, s2);
    KeysToSymbols(t, ChunkSymbols(t, s1), ChunkSymbols(t, s2), Keys(d1, |s1|), Keys(d2, |s2|));
  }

  /** The first chunks of two inputs in order are equal, with the rests in order, or are in order themselves. */
  lemma FirstChunks(a: seq<byte>, b: seq<byte>)
    requires a != [] && Lex.Less(a, b)
    ensures b != []
    ensures var na, nb := Min(5, |a|), Min(5, |b|);
      || (a[..na] == b[..nb] && Lex.Less(a[na..], b[nb..]))
      || (a[..na] != b[..nb] && Lex.Less(a[..na], b[..nb]))
  {
    Lex.LessCases(a, b);
    if Lex.DiffersBelow(a, b) {
      var k := Lex.DiffersBelowAt(a, b);
      if k < 5 {
        FirstChunksDiffer(a, b, k);
      } else {
        assert a[..5] == a[..k][..5] == b[..k][..5] == b[..5];
        Lex.LessDrop(a, b, 5);
      }
    } else if |a| >= 5 {
      assert a[..5] == b[..|a|][..5] == b[..5];
      Lex.LessDrop(a, b, 5);
    } else {
      FirstChunkIsPrefix(a, b);
    }
  }

  lemma FirstChunksDiffer(a: seq<byte>, b: seq<byte>, k: nat)
    requires k < 5 && k < |a| && k < |b| && a[..k] == b[..k] && a[k] < b[k]
    ensures var na, nb := Min(5, |a|), Min(5, |b|);
      a[..na] != b[..nb] && Lex.Less(a[..na], b[..nb])
  {
    var na, nb := Min(5, |a|), Min(5, |b|);
    var ca, cb := a[..na], b[..nb];
    assert ca[..k] == a[..k] && cb[..k] == b[..k] && ca[k] == a[k] && cb[k] == b[k];
    Lex.DiffersAt(ca, cb, k);
    Lex.DiffersBelowIsLess(ca, cb);
  }

  lemma FirstChunkIsPrefix(a: seq<byte>, b: seq<byte>)
    requires |a| < 5 && |a| < |b| && a == b[..|a|]
    ensures var nb := Min(5, |b|);
      a[..|a|] != b[..nb] && Lex.Less(a[..|a|], b[..nb])
  {
    var cb := b[..Min(5, |b|)];
    assert a[..|a|] == a == cb[..|a|];
    Lex.PrefixLess(a, cb);
  }

  /** Under `Ordered`, the encoder keeps order: a smaller input has a smaller sequence of symbols. */
  lemma {:induction false} EncodingOrder(t: Table, a: seq<byte>, b: seq<byte>)
    requires Ordered(t) && Lex.Less(a, b)
    ensures Lex.Less(Encoding(t, a), Encoding(t, b))
    decreases |a|
  {
    if a != [] {
      FirstChunks(a, b);
      var na, nb := Min(5, |a|), Min(5, |b|);
      var ha, hb := ChunkSymbols(t, a[..na]), ChunkSymbols(t, b[..nb]);
      var ra, rb := Encoding(t, a[na..]), Encoding(t, b[nb..]);
      if a[..na] == b[..nb] {
        EncodingOrder(t, a[na..], b[nb..]);
        Lex.LessPrepend(ha, ra, rb);
      } else {
        ChunkOrder(t, a[..na], b[..nb]);
        Lex.DiffersBelowAppend(ha, hb, ra, rb);
        Lex.DiffersBelowIsLess(ha + ra, hb + rb);
      }
    }
  }

  /** Sort order: under `Ordered`, a smaller input has a bytewise smaller encoding. */
  lemma EncodedOrder(t: Table, a: seq<byte>, b: seq<byte>)
    requires Ordered(t) && Lex.Less(a, b)
    ensures Lex.Less(EncodedBytes(t, a), EncodedBytes(t, b))
  {
    EncodingOrder(t, a, b);
    EncodeOrder(Encoding(t, a), Encoding(t, b));
  }

  /** Each input encoded, as `map(encode_to_string)` does to a vector of inputs. */
  function EncodeAll(t: Table, xs: seq<seq<byte>>): seq<seq<byte>>
    requires Valid(t)
  {
    seq(|xs|, i requires 0 <= i < |xs| => EncodedBytes(t, xs[i]))
  }

  /** A rearrangement of `xs` holds `xs[0]` somewhere; without it, it is a rearrangement of the rest of `xs`. */
  lemma TakeOut<T>(xs: seq<T>, ys: seq<T>) returns (i: nat)
    requires xs != [] && multiset(xs) == multiset(ys)
    ensures i < |ys| && ys[i] == xs[0]
    ensures ys == ys[..i] + [xs[0]] + ys[i + 1..]
    ensures multiset(xs[1..]) == multiset(ys[..i] + ys[i + 1..])
  {
    var x := xs[0];
    assert x in multiset(ys);
    i :| 0 <= i < |ys| && ys[i] == x;
    var before, after := ys[..i], ys[i + 1..];
    assert ys == before + [x] + after;
    assert xs == [x] + xs[1..];
    assert multiset(ys) == multiset(before + after) + multiset{x};
    assert multiset(xs) == multiset(xs[1..]) + multiset{x};
    assert multiset(xs[1..]) == multiset(xs) - multiset{x};
    assert multiset(before + after) == multiset(ys) - multiset{x};
  }

  /** Rearranging the inputs rearranges their encodings the same way. */
  lemma {:induction false} EncodeAllPermutes(t: Table, xs: seq<seq<byte>>, ys: seq<seq<byte>>)
    requires Valid(t) && multiset(xs) == multiset(ys)
    ensures multiset(EncodeAll(t, xs)) == multiset(EncodeAll(t, ys))
    decreases |xs|
  {
    if xs == [] {
      assert |ys| == |multiset(ys)| == 0;
    } else {
      var x := xs[0];
      var i := TakeOut(xs, ys);
      var before, after := ys[..i], ys[i + 1..];
      assert xs == [x] + xs[1..];
      EncodeAllPermutes(t, xs[1..], before + after);
      EncodeAllAppend(t, [x], xs[1..]);
      EncodeAllAppend(t, before + [x], after);
      EncodeAllAppend(t, before, [x]);
      EncodeAllAppend(t, before, after);
    }
  }

  lemma EncodeAllAppend(t: Table, a: seq<seq<byte>>, b: seq<seq<byte>>)
    requires Valid(t)
    ensures EncodeAll(t, a + b) == EncodeAll(t, a) + EncodeAll(t, b)
  {
  }

  /** Under `Ordered`, the encodings of sorted inputs are sorted. */
  lemma EncodeAllSorted(t: Table, xs: seq<seq<byte>>)
    requires Ordered(t) && Lex.Sorted(xs)
    ensures Lex.Sorted(EncodeAll(t, xs))
  {
    var ys := EncodeAll(t, xs);
    forall i, j | 0 <= i < j < |ys| ensures Lex.LessEq(ys[i], ys[j]) {
      if xs[i] != xs[j] {
        EncodedOrder(t, xs[i], xs[j]);
      }
    }
  }

  /**
   * `encoded_data_has_the_same_sort_order`: encode every input, sort the
   * encodings, and decode each; the results are the inputs sorted, and no
   * decoding fails. `sort_unstable` is any rearrangement into sorted order.
   */
  lemma SortOrder(t: Table, input: seq<seq<byte>>, inputSorted: seq<seq<byte>>, outputSorted: seq<seq<byte>>)
    requires Ordered(t)
    requires Lex.Sorted(inputSorted) && multiset(inputSorted) == multiset(input)
    requires Lex.Sorted(outputSorted) && multiset(outputSorted) == multiset(EncodeAll(t, input))
    ensures |outputSorted| == |inputSorted|
    ensures forall i :: 0 <= i < |outputSorted| ==> DecodeStream(t, Items(outputSorted[i])) == Decoded(inputSorted[i], None, [])
  {
    EncodeAllPermutes(t, inputSorted, input);
    EncodeAllSorted(t, inputSorted);
    Lex.SortedUnique(EncodeAll(t, inputSorted), outputSorted);
    forall i | 0 <= i < |outputSorted|
      ensures DecodeStream(t, Items(outputSorted[i])) == Decoded(inputSorted[i], None, [])
    {
      RoundTrip(t, inputSorted[i]);
    }
  }
}
