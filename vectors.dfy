/**
 * The unit tests of the encoder and the decoder, and the examples in their
 * documentation, for every table `t` that satisfies `Valid`: the tests name
 * symbols by their table index, so they hold whatever the table holds.
 */
module Vectors {
  import opened Wrappers
  import opened Bits
  import opened Utf8
  import opened Alphabet
  import opened Io
  import opened Chars
  import opened Encoder
  import opened Decoder
  import opened Ecoji

  /** An input of one chunk encodes to that chunk's four symbols. */
  lemma EncodingOfChunk(t: Table, bs: seq<byte>)
    requires Valid(t) && 0 < |bs| <= 5
    ensures Encoding(t, bs) == ChunkSymbols(t, bs)
  {
    assert bs[..|bs|] == bs && bs[|bs|..] == [];
  }

  /** `test_one_byte`: `k` is `EMOJIS['k' << 2]` and three `PADDING`s, and decodes back. */
  lemma OneByte(t: Table)
    requires Valid(t)
    ensures Encoding(t, [0x6B]) == [t.emojis[0x6B * 4], PADDING, PADDING, PADDING]
    ensures DecodeStream(t, Items(Utf8.Encode([t.emojis[0x6B * 4], PADDING, PADDING, PADDING]))) == Decoded([0x6B], None, [])
  {
    EncodingOfChunk(t, [0x6B]);
    RoundTrip(t, [0x6B]);
  }

  /** `test_two_bytes`. */
  lemma TwoBytes(t: Table)
    requires Valid(t)
    ensures Encoding(t, [0, 1]) == [t.emojis[0], t.emojis[16], PADDING, PADDING]
    ensures DecodeStream(t, Items(Utf8.Encode([t.emojis[0], t.emojis[16], PADDING, PADDING]))) == Decoded([0, 1], None, [])
  {
    EncodingOfChunk(t, [0, 1]);
    assert Index0(0, 1) == 0 && Index1(1, 0) == 16;
    RoundTrip(t, [0, 1]);
  }

  /** `test_three_bytes`. */
  lemma ThreeBytes(t: Table)
    requires Valid(t)
    ensures Encoding(t, [0, 1, 2]) == [t.emojis[0], t.emojis[16], t.emojis[128], PADDING]
    ensures DecodeStream(t, Items(Utf8.Encode([t.emojis[0], t.emojis[16], t.emojis[128], PADDING]))) == Decoded([0, 1, 2], None, [])
  {
    EncodingOfChunk(t, [0, 1, 2]);
    assert Index0(0, 1) == 0 && Index1(1, 2) == 16 && Index2(2, 0) == 128;
    RoundTrip(t, [0, 1, 2]);
  }

  /** `test_four_bytes`: the last slot is `PADDING_4k` for a fourth byte `k` of 0 to 3. */
  lemma FourBytes(t: Table, k: byte)
    requires Valid(t) && k < 4
    ensures Encoding(t, [0, 1, 2, k]) == [t.emojis[0], t.emojis[16], t.emojis[128], Padding4(t, k)]
    ensures DecodeStream(t, Items(Utf8.Encode([t.emojis[0], t.emojis[16], t.emojis[128], Padding4(t, k)]))) == Decoded([0, 1, 2, k], None, [])
  {
    EncodingOfChunk(t, [0, 1, 2, k]);
    assert Index0(0, 1) == 0 && Index1(1, 2) == 16 && Index2(2, k) == 128 && k % 4 == k;
    RoundTrip(t, [0, 1, 2, k]);
  }

  /** `test_five_bytes`. */
  lemma FiveBytes(t: Table)
    requires Valid(t)
    ensures Encoding(t, [0xAB, 0xCD, 0xEF, 0x01, 0x23]) == [t.emojis[687], t.emojis[222], t.emojis[960], t.emojis[291]]
    ensures DecodeStream(t, Items(Utf8.Encode([t.emojis[687], t.emojis[222], t.emojis[960], t.emojis[291]])))
      == Decoded([0xAB, 0xCD, 0xEF, 0x01, 0x23], None, [])
  {
    EncodingOfChunk(t, [0xAB, 0xCD, 0xEF, 0x01, 0x23]);
    assert Index0(0xAB, 0xCD) == 687 && Index1(0xCD, 0xEF) == 222;
    assert Index2(0xEF, 0x01) == 960 && Index3(0x01, 0x23) == 291;
    RoundTrip(t, [0xAB, 0xCD, 0xEF, 0x01, 0x23]);
  }

  /**
   * The example of a stream that is not UTF-8: every byte of `fe fe ff ff`
   * has width 0, so `decode` stops at the first with `into_io`'s error,
   * `InvalidInput`, where the example expects `InvalidData`.
   */
  lemma NotUtf8Stream(t: Table)
    requires Valid(t)
    ensures Items([0xFE, 0xFE, 0xFF, 0xFF]) == [Err(NotUtf8), Err(NotUtf8), Err(NotUtf8), Err(NotUtf8)]
    ensures DecodeStream(t, Items([0xFE, 0xFE, 0xFF, 0xFF])).error == Some(InvalidInput)
  {
    var bs: seq<byte> := [0xFE, 0xFE, 0xFF, 0xFF];
    assert NextChar(bs) == Yield(Err(NotUtf8), bs[1..]);
    assert NextChar(bs[1..]) == Yield(Err(NotUtf8), bs[2..]);
    assert NextChar(bs[2..]) == Yield(Err(NotUtf8), bs[3..]);
    assert NextChar(bs[3..]) == Yield(Err(NotUtf8), []);
  }

  /** `"Not emoji data  "`, sixteen ASCII bytes. */
  const NotEmojiData: seq<byte> := [0x4E, 0x6F, 0x74, 0x20, 0x65, 0x6D, 0x6F, 0x6A, 0x69, 0x20, 0x64, 0x61, 0x74, 0x61, 0x20, 0x20]

  /** The example of code points outside the alphabet: under `Ordered` no ASCII character is in it, so `N` is `InvalidData`. */
  lemma NotEmoji(t: Table)
    requires Ordered(t)
    ensures DecodeStream(t, Items(NotEmojiData)).error == Some(InvalidData)
  {
    OrderedKeys(t);
    assert NextChar(NotEmojiData).item == Ok(0x4E);
    assert !IsValidAlphabetChar(t, 0x4E);
  }

  /** `fe fe ff ff` is not well-formed UTF-8. */
  lemma NotUtf8Bytes()
    ensures !ValidUtf8([0xFE, 0xFE, 0xFF, 0xFF])
  {
    assert FirstCharLength([0xFE, 0xFE, 0xFF, 0xFF]) == 0;
  }

  /** The `decode_to_string` example: the encoding of `fe fe ff ff` decodes, but not to a string, so the result is `InvalidData`. */
  method DecodedNotUtf8(t: Table) returns (r: Result<seq<byte>, ErrorKind>)
    requires Valid(t)
    ensures r == Err(InvalidData)
  {
    var source := new SliceReader(EncodedBytes(t, [0xFE, 0xFE, 0xFF, 0xFF]));
    RoundTrip(t, [0xFE, 0xFE, 0xFF, 0xFF]);
    NotUtf8Bytes();
    r := DecodeToString(t, source);
  }
}
