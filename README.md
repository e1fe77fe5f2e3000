# Ecoji in Dafny

A model of the Rust crate `ecoji`, a base-1024 encoding whose alphabet is
emoji. The encoder cuts its input into chunks of 5 bytes. Each chunk
becomes 4 symbols of 10 bits each. A shorter last chunk is marked with
sentinels: `PADDING` for slots past its end, and, for a 4-byte chunk,
`PADDING_40` to `PADDING_43` in the last slot. The decoder reads code
points through a UTF-8 reader. It checks each code point against the
alphabet, reads them in groups of four, unpacks the ranks, and keeps as
many bytes as the padding says.

The modules follow the crate:

- `Bits`, `Wrappers`, `Io`: bytes as integers, `Option`/`Result`, and the
  two I/O endpoints the crate's own tests use. A byte slice used as
  `Read` becomes the class `SliceReader`. A `Vec<u8>` used as `Write`
  becomes the class `VecWriter`.
- `Utf8`: RFC 3629 (section 3 encoding, section 4 syntax, section 1 byte
  order). It stands in for `char::encode_utf8` and `str::from_utf8`.
- `Lex`: lexicographic order on sequences (Rust's `Ord` for `[u8]` and
  `Vec<u8>`), and sorted sequences.
- `Alphabet`: the table as a parameter `t`. `Valid(t)` is an assumption
  about `emojis.txt`, in two halves. `TableInverse(t)`: 1024 symbols and an
  exact inverse map. build.rs needs distinct symbols, because `phf_codegen`
  takes each key once, and the `test_mapping` test in src/emojis.rs checks
  the lengths and `EMOJIS_REV[EMOJIS[i]] == i`. `SentinelsApart(t)`: the
  five sentinels are distinct and none is a table symbol. Nothing in the
  crate checks this half. The padding tests at src/decode.rs:114-124 need
  it, and so does the round trip.
  `Ordered(t)` adds what the sort order needs.
  `ExampleTableOrdered` shows that some table satisfies both.
- `Chars`: `Chars::next`, `read_one_byte` and the width table.
- `Encoder`: `encode_chunk`, `read_exact`, `encode` and `encode_to_string`.
  These are methods with loops, each proved against `ChunkSymbols`,
  `Encoding` and `EncodedBytes`.
- `Decoder`: `check_char`, `decode`, `decode_to_vec` and
  `decode_to_string`. `decode` is proved against the function
  `DecodeStream`. `DecodeStreamMeaning` then says what that function
  computes in terms of the code points of the input.
- `Ecoji`: the crate-level properties. These are the round trip,
  concatenation and sort order.
- `Vectors`: the unit tests and the documentation examples.

`CharsError::into_io` (src/chars.rs:26-29) turns `NotUtf8` into
`ErrorKind::InvalidInput`. The documentation example at
src/decode.rs:46-57 expects `InvalidData` for the input `fe fe ff ff`.
The model follows the code: `Vectors.NotUtf8Stream` proves that `decode`
stops on that input with `InvalidInput`.

## Model

| member | source | states |
|---|---|---|
| Alphabet.Rank | src/decode.rs:94-96 | the rank is in 0..1023; it is `i` for `EMOJIS[i]` and 0 for a code point missing from `EMOJIS_REV` |
| Alphabet.AlphabetChars | src/decode.rs:200 | with a valid table, a char passes `is_valid_alphabet_char` exactly when it is some `EMOJIS[i]`, `PADDING` or one of `PADDING_40` .. `PADDING_43` |
| Alphabet.Lineup | build.rs:22-31 | the five sentinels and the 1024 table symbols make 1029 code points |
| Alphabet.LineupAt | build.rs:22-31 | `PADDING` comes first; `PADDING_4k` stands at `257k + 1`, with `PADDING_40` second; `EMOJIS[i]` stands at `i + 2 + i / 256`, after `PADDING`, `PADDING_40` and the `PADDING_4k` removed before it |
| Alphabet.OrderedKeys | build.rs:22-33 | under the order assumption: table symbols increase with index; `PADDING_4k` lies between `EMOJIS[256k-1]` and `EMOJIS[256k]`; the sentinels increase with `k`; `PADDING` is below every other symbol |
| Alphabet.SymbolKeyOrder | build.rs:22-33 | under the order assumption, symbols of the alphabet compare as their keys, and equal keys mean equal symbols |
| Alphabet.ExampleTableOrdered | src/emojis.rs:3-10 | some table has 1024 symbols, an exact inverse map, sentinels apart from the table, and the order assumption |
| Utf8.EncodeScalar | src/encode.rs:54 | `encode_utf8` writes 1 octet below U+0080, 2 below U+0800, 3 below U+10000 and 4 from U+10000 on, as RFC 3629 section 3 says |
| Utf8.DecodeUtf8 | src/decode.rs:196 | when `from_utf8` succeeds, it gives no chars exactly for no bytes, and at least one char per four bytes and at most one per byte |
| Utf8.EncodeScalarWellFormed | src/encode.rs:54 | `encode_utf8` of any scalar value is one well-formed UTF8-char of RFC 3629 section 4, and it decodes to that value |
| Utf8.EncodeDecodeScalar | src/chars.rs:55-56 | every well-formed UTF8-char is the encoding of the value it decodes to |
| Utf8.EncodeAppend | src/encode.rs:53-57 | encoding a concatenation gives the concatenated encodings |
| Utf8.DecodeEncode | src/chars.rs:55-56 | `from_utf8` of the encoding of any scalar values succeeds with those values |
| Utf8.EncodeDecode | src/decode.rs:194-196 | every byte sequence that `from_utf8` accepts is the encoding of what it decodes to |
| Utf8.EncodeIsValid | src/encode.rs:148-149 | the encoding of any scalar values is well-formed UTF-8 |
| Utf8.ValidAppend | src/lib.rs:29-35 | two well-formed strings concatenated are well-formed, and they decode to the concatenated values |
| Utf8.EncodeOrder | src/lib.rs:40-72 | section 1 of RFC 3629: lexicographic order on scalar values carries over to their UTF-8 bytes |
| Lex.SortedUnique | src/lib.rs:159-173 | two sorted arrangements of one multiset of sequences are equal, so `sort_unstable` has one possible result |
| Chars.Utf8CharWidth | src/chars.rs:98-120 | `UTF8_CHAR_WIDTH` written as ranges; no width exceeds 4 |
| Chars.WidthIsCharLength | src/chars.rs:98-120 | every UTF8-char of RFC 3629 section 4 is as long as the width of its first byte |
| Chars.WidthZeroIffNoChar | src/chars.rs:98-120 | a byte has width 0 exactly when no UTF8-char begins with it |
| Chars.NextChar | src/chars.rs:35-59 | the iteration ends exactly when no bytes are left; otherwise `next` consumes a non-empty prefix |
| Chars.NextCharConsumes | src/chars.rs:40-53 | `next` consumes one byte for widths 0 and 1, else `width` bytes or all that are left |
| Chars.NextCharOk | src/chars.rs:43-58 | an item is a char exactly when the bytes begin with a well-formed UTF8-char, and then the bytes consumed are that char's encoding |
| Chars.FromUtf8OfWidth | src/chars.rs:55-58 | `from_utf8` on `width` bytes succeeds exactly when they are one UTF8-char, and it yields that char |
| Chars.Items | src/chars.rs:32-35 | the iterator yields no items exactly when there are no bytes |
| Chars.ItemsOfEncoding | src/chars.rs:35-59 | reading the UTF-8 encoding of any scalar values yields exactly those values, then `None` |
| Chars.Chars.ReadOneByte | src/chars.rs:86-96 | `None` at the end of the reader; otherwise the next byte, with the reader advanced by one |
| Chars.Chars.Next | src/chars.rs:35-59 | `next` on the reader yields the item `NextChar` gives and leaves the rest it gives |
| Encoder.ByteAt | src/encode.rs:7-13 | byte `k` of the chunk when the chunk has one, and 0 past its end |
| Encoder.Index0 | src/encode.rs:16 | the 8 bits of `b0` above the top 2 of `b1` make a table index in 0..1023 |
| Encoder.Index1 | src/encode.rs:25 | the low 6 bits of `b1` above the top 4 of `b2` make an index in 0..1023 |
| Encoder.Index2 | src/encode.rs:29 | the low 4 bits of `b2` above the top 6 of `b3` make an index in 0..1023 |
| Encoder.Index3 | src/encode.rs:46 | the low 2 bits of `b3` above the 8 of `b4` make an index in 0..1023 |
| Encoder.ChunkSymbols | src/encode.rs:15-49 | a chunk always gives exactly four symbols |
| Encoder.ChunkShape | src/encode.rs:7-49 | slot 0 is the table symbol of `Index0(b0, b1)`, with a missing `b1` read as 0; a slot is `PADDING` exactly when past the chunk's end; a 4-byte chunk ends in the `PADDING_4k` chosen by `b3 & 3`; every other slot is a table symbol; every slot is in the alphabet |
| Encoder.ChunkChars | src/encode.rs:15-49 | the `chars` array that the `match` fills is `ChunkSymbols` of the chunk |
| Encoder.EncodeChunk | src/encode.rs:51-59 | appends the UTF-8 encodings of the four symbols in order, and returns their total length |
| Encoder.ReadExact | src/encode.rs:62-77 | reads `min(buffer length, bytes left)` bytes into the front of the buffer, and advances the source past them |
| Encoder.Encoding | src/encode.rs:104-120 | the encoding has `4 * ceil(n / 5)` symbols, consecutive 5-byte chunks with only the last shorter; empty input gives none |
| Encoder.EncodedBytesStep | src/encode.rs:108-117 | the output for the input is the first chunk's output followed by the output for the rest |
| Encoder.EncodedIsUtf8 | src/encode.rs:148-149 | what `from_utf8_unchecked` relies on: `encode`'s output is well-formed UTF-8 |
| Encoder.Encode | src/encode.rs:104-120 | appends `EncodedBytes` of the whole source to the destination, returns its length, and leaves the source empty |
| Encoder.EncodeToString | src/encode.rs:145-150 | returns the encoding, which is well-formed UTF-8, and consumes the source |
| Decoder.CheckChar | src/decode.rs:199-207 | passes exactly the chars of the alphabet, unchanged; `NotUtf8` becomes `InvalidInput` through `into_io`; a char outside the alphabet becomes `InvalidData` |
| Decoder.LastRank | src/decode.rs:98-104 | `PADDING_4k` has rank `k << 8`; `EMOJIS[i]` has rank `i`; every rank is in 0..1023 |
| Decoder.U8 | src/decode.rs:107-111 | `as u8` gives a byte, and keeps a value that fits in one |
| Decoder.GroupOctets | src/decode.rs:106-112 | the `out` array always holds five bytes |
| Decoder.OctetsHoldRanks | src/decode.rs:106-112 | the five bytes, read as one 40-bit big-endian number, are the four ranks read as one number in base 1024: the shifts and masks regroup the bits and lose none |
| Decoder.NoTruncation | src/decode.rs:106-112 | with ranks below 1024, no `as u8` cast cuts off any bits |
| Decoder.GroupLength | src/decode.rs:114-124 | the padding tests, in priority order, keep 1 to 5 bytes |
| Decoder.DecodeGroup | src/decode.rs:93-124 | one group gives 1 to 5 bytes |
| Decoder.ReadChecked | src/decode.rs:83-91 | reading `n` checked code points gives `n` of them or an error, and never more than what is left |
| Decoder.DecodeStream | src/decode.rs:72-131 | what `decode` does on the items of a stream; it never leaves more than it was given |
| Decoder.Accepted | src/decode.rs:79-91 | at most one code point is accepted per item; when fewer are accepted than there are items, the item right after the accepted ones fails its check |
| Decoder.AcceptedIsPrefix | src/decode.rs:79-91 | every accepted code point is the item at its position, and it is in the alphabet |
| Decoder.Fault | src/decode.rs:79-91 | no error exactly when every item is accepted and their number is a multiple of 4; otherwise the first item that fails its check decides the error; only a fully accepted stream can end in `UnexpectedEof` |
| Decoder.DecodeGroups | src/decode.rs:76-128 | whole groups of four decode to between 1 and 5 bytes each |
| Decoder.DecodeGroupsAppend | src/decode.rs:76-128 | groups are decoded independently and appended in order |
| Decoder.DecodeStreamMeaning | src/decode.rs:72-131 | `decode` ends with `Fault` of the items; it has written the bytes of the whole groups of accepted code points and nothing of an unfinished group; it has read up to and including the first item it rejected |
| Decoder.ReadCheckedChar | src/decode.rs:84-90 | one `next` followed by `check_char`; the end of the stream is `UnexpectedEof` |
| Decoder.ReadGroupTail | src/decode.rs:83-91 | the `for i in 1..4` loop fills `chars[1..4]` with `ReadChecked` of three items, or returns its error |
| Decoder.WriteGroup | src/decode.rs:93-127 | appends exactly `DecodeGroup` of the four chars and returns its length |
| Decoder.DecodeNextGroup | src/decode.rs:76-128 | one pass of the loop: the stream ends, or the error that ends `decode`, or one group written, with the rest of `DecodeStream` still to come |
| Decoder.Decode | src/decode.rs:72-131 | appends `DecodeStream`'s bytes; returns their count, or the error that stopped it, with only earlier groups written |
| Decoder.DecodeToVec | src/decode.rs:155-159 | the decoded bytes, or `decode`'s error |
| Decoder.DecodeToString | src/decode.rs:194-197 | `decode`'s error; else `InvalidData` exactly when the decoded bytes are not well-formed UTF-8; else the bytes |
| Ecoji.OctetsOfIndices | src/decode.rs:106-112 | unpacking the four indices `encode_chunk` computes gives back the five bytes |
| Ecoji.ChunkRoundTrip | src/decode.rs:93-124 | decoding the four symbols of any chunk of 1 to 5 bytes gives the chunk back |
| Ecoji.EncodingInAlphabet | src/decode.rs:199-201 | every symbol `encode` writes passes `is_valid_alphabet_char` |
| Ecoji.EncodingGroups | src/lib.rs:18-19 | every encoding is a whole number of groups of four |
| Ecoji.DecodeGroupsOfEncoding | src/lib.rs:143-148 | the groups of an encoding decode to the bytes encoded |
| Ecoji.DecodeOfSymbols | src/decode.rs:79-81 | on whole groups of alphabet symbols, `decode` ends cleanly at a group boundary, having read everything |
| Ecoji.MissingSymbols | src/decode.rs:33-44 | alphabet symbols whose number is not a multiple of 4 give `UnexpectedEof`, after the bytes of the whole groups |
| Ecoji.RoundTrip | src/lib.rs:143-148 | `decode` of `encode`'s output gives back the input, with no error and nothing left over |
| Ecoji.EncodeThenDecode | src/lib.rs:144-148 | `decode_to_vec` of `encode_to_string` of any input succeeds with that input |
| Ecoji.EncodingsJoin | src/lib.rs:26-29 | two encodings one after the other are whole groups of alphabet symbols |
| Ecoji.Concatenation | src/lib.rs:18-39 | decoding two encodings one after the other gives the two inputs one after the other |
| Ecoji.ConcatenateEncodings | src/lib.rs:20-39 | `decode_to_string` of `encode_to_string(a) + encode_to_string(b)`, for strings `a` and `b`, succeeds with `a + b` |
| Ecoji.PaddedOrder | src/lib.rs:40-72 | a smaller chunk has a smaller zero-padded value, or the same padded bytes and a shorter length |
| Ecoji.ChunkOrder | src/lib.rs:40-72 | under the order assumption, a smaller chunk has symbols that are smaller at a slot both have |
| Ecoji.EncodingOrder | src/lib.rs:40-72 | under the order assumption, a smaller input has a smaller sequence of symbols |
| Ecoji.EncodedOrder | src/lib.rs:40-72 | under the order assumption, a lexicographically smaller input has a bytewise smaller encoding |
| Ecoji.EncodeAllPermutes | src/lib.rs:162-167 | rearranging the inputs rearranges their encodings the same way |
| Ecoji.EncodeAllSorted | src/lib.rs:159-167 | under the order assumption, the encodings of sorted inputs are sorted |
| Ecoji.SortOrder | src/lib.rs:150-174 | sorting the encodings and decoding each gives the sorted inputs, and no decoding fails |
| Vectors.OneByte | src/encode.rs:172-175 | `k` encodes to `EMOJIS['k' << 2]` and three `PADDING`s, which decode back to `k` |
| Vectors.TwoBytes | src/encode.rs:177-180 | `[0, 1]` encodes to `EMOJIS[0], EMOJIS[16]` and two `PADDING`s, which decode back |
| Vectors.ThreeBytes | src/encode.rs:182-185 | `[0, 1, 2]` encodes to `EMOJIS[0], EMOJIS[16], EMOJIS[128], PADDING`, which decode back |
| Vectors.FourBytes | src/encode.rs:187-193 | `[0, 1, 2, k]` encodes to `EMOJIS[0], EMOJIS[16], EMOJIS[128], PADDING_4k` for each `k` from 0 to 3, which decode back |
| Vectors.FiveBytes | src/encode.rs:195-198 | `AB CD EF 01 23` encodes to table indices 687, 222, 960 and 291, which decode back |
| Vectors.NotUtf8Stream | src/decode.rs:46-57 | each of `fe fe ff ff` is `NotUtf8`, so `decode` stops with `InvalidInput` |
| Vectors.NotEmoji | src/decode.rs:59-71 | under the order assumption, `"Not emoji data  "` gives `InvalidData` |
| Vectors.DecodedNotUtf8 | src/decode.rs:183-193 | the encoding of `fe fe ff ff` decodes, but `decode_to_string` returns `InvalidData` |

## Left out

- The concrete alphabet. build.rs reads `emojis.txt` and generates the table with `phf_codegen`, and that file is not part of this model. The table is a parameter, and `Valid` is an assumption about that file. Its half `TableInverse` is 1024 symbols with an exact inverse map: build.rs:22-33 needs distinct symbols, and the `test_mapping` test (src/emojis.rs:3-10) checks the lengths and the inverse. Its half `SentinelsApart` is that the five sentinels are distinct and none is a table symbol: nothing checks it, but the padding tests at src/decode.rs:114-124, and so the round trip, need it. `Ordered` adds that the list is sorted by code point, with `PADDING` and `PADDING_40` below every table symbol, which the sort order needs.
- `is_valid_alphabet_char` (called at src/decode.rs:200) is defined in none of the files of this model. `Alphabet.IsValidAlphabetChar` reads it as "a table symbol or one of the five sentinels".
- The test `test_random` and the documentation examples with concrete emoji strings. They name specific code points of the table.
- The command-line tool in src/bin/ecoji.rs.
- Generic `Read` and `Write`. The model uses a byte slice and a `Vec<u8>`, as the crate's tests and examples do. These never report errors, are never interrupted and never return short. So the `Interrupted` retries, `CharsError::Other` and failed writes are left out.
- Error messages, and the `Display` and `Error` implementations.
- `String::from_utf8_unchecked`. `Encoder.EncodedIsUtf8` proves that its precondition holds. Strings are byte sequences that are well-formed UTF-8.
- The panic of `encode_chunk` for a chunk shorter than 1 byte or longer than 5 is a precondition. `encode` never calls it with such a chunk.
- The quickcheck harness itself. Its properties are quantified over every input in the lemmas.
- Chars.Utf8CharWidth: the 256-entry table is written as ranges of equal entries. The width lemmas tie those ranges to RFC 3629 section 4.
- Chars.IntoIo: no contract of its own. `Decoder.CheckChar` states its result, `InvalidInput`.
- Chars.NextChar: models `str::from_utf8` on `width` bytes with `IsUtf8Char`. `Chars.FromUtf8OfWidth` proves the two agree.
- Decoder.DecodeStream: the bytes `decode` leaves unread are given as the items of `next` that are still to come, not as bytes.
