/**
 * The code-point reader the decoder reads its input through: `Chars`, an
 * iterator over a reader that yields one Unicode scalar value per UTF-8
 * sequence, or `NotUtf8` for bytes RFC 3629 does not allow.
 */
module Chars {
  import opened Wrappers
  import opened Bits
  import opened Utf8
  import opened Io

  /**
   * `utf8_char_width`, the 256-entry table `UTF8_CHAR_WIDTH` written as the
   * ranges of equal entries: 1 below 0x80, 0 for 0x80-0xC1, 2 for 0xC2-0xDF,
   * 3 for 0xE0-0xEF, 4 for 0xF0-0xF4 and 0 for 0xF5-0xFF.
   */
  function Utf8CharWidth(b: byte): (w: nat)
    ensures w <= 4
  {
    if b < 0x80 then 1
    else if b < 0xC2 then 0
    else if b < 0xE0 then 2
    else if b < 0xF0 then 3
    else if b < 0xF5 then 4
    else 0
  }

  /** A shortest UTF8-char of RFC 3629 section 4 that begins with `b`, when there is one. */
  function LeadWitness(b: byte): seq<byte> {
    var w := Utf8CharWidth(b);
    if w == 1 then [b]
    else if w == 2 then [b, 0x80]
    else if w == 3 then [b, if b == 0xE0 then 0xA0 else 0x80, 0x80]
    else [b, if b == 0xF0 then 0x90 else 0x80, 0x80, 0x80]
  }

  /**
   * The width table agrees with RFC 3629 section 4: every UTF8-char is as long as the
   * width of its first byte, and a byte has width 0 exactly when no
   * UTF8-char begins with it.
   */
  lemma WidthIsCharLength(bs: seq<byte>)
    requires IsUtf8Char(bs)
    ensures Utf8CharWidth(bs[0]) == |bs|
  {
  }

  lemma WidthZeroIffNoChar(b: byte)
    ensures Utf8CharWidth(b) == 0 <==> forall bs :: IsUtf8Char(bs) ==> bs[0] != b
  {
    if Utf8CharWidth(b) != 0 {
      var bs := LeadWitness(b);
      assert IsUtf8Char(bs) && bs[0] == b;
    } else {
      forall bs | IsUtf8Char(bs) ensures bs[0] != b {
        WidthIsCharLength(bs);
      }
    }
  }

  /** `CharsError`; its `Other` variant carries I/O errors, which a slice never reports. */
  datatype CharsError = NotUtf8

  /** `CharsError::into_io`. */
  function IntoIo(e: CharsError): ErrorKind {
    InvalidInput
  }

  /** What `next` does to the bytes not read yet: stop, or yield an item and leave `rest`. */
  datatype Step = End | Yield(item: Result<Scalar, CharsError>, rest: seq<byte>)

  /**
   * `Chars::next` on a slice holding `bs`: the end of the stream before a
   * first byte ends the iteration; a byte below 0x80 is a char by itself; a
   * byte of width 0 is `NotUtf8`; then `width` bytes are read, and the stream
   * ending before them is `NotUtf8`; otherwise they are a char when
   * `str::from_utf8` accepts them and `NotUtf8` when it does not.
   */
  function NextChar(bs: seq<byte>): (s: Step)
    ensures s.End? <==> bs == []
    ensures s.Yield? ==> |s.rest| < |bs| && s.rest == bs[|bs| - |s.rest|..]
  {
    if bs == [] then End
    else
      var w := Utf8CharWidth(bs[0]);
      if w == 1 then Yield(Ok(bs[0]), bs[1..])
      else if w == 0 then Yield(Err(NotUtf8), bs[1..])
      else if |bs| < w then Yield(Err(NotUtf8), [])
      else if IsUtf8Char(bs[..w]) then Yield(Ok(DecodeScalar(bs[..w])), bs[w..])
      else Yield(Err(NotUtf8), bs[w..])
  }

  /**
   * `str::from_utf8` on as many bytes as the first one's width accepts them
   * exactly when they are one UTF8-char, and then yields its scalar value.
   */
  lemma FromUtf8OfWidth(bs: seq<byte>)
    requires bs != [] && |bs| == Utf8CharWidth(bs[0])
    ensures DecodeUtf8(bs) == if IsUtf8Char(bs) then Some([DecodeScalar(bs)]) else None
  {
    var n := FirstCharLength(bs);
    if n > 0 {
      WidthIsCharLength(bs[..n]);
      assert bs[..n][0] == bs[0];
      assert bs[..n] == bs && bs[n..] == [];
      assert [DecodeScalar(bs)] + [] == [DecodeScalar(bs)];
    } else {
      assert bs[..|bs|] == bs;
    }
  }

  /** The bytes `next` consumes: one for a byte of width 0 or 1, and otherwise `width` or all that is left. */
  lemma NextCharConsumes(bs: seq<byte>)
    requires bs != []
    ensures var w := Utf8CharWidth(bs[0]);
      NextChar(bs).rest == bs[Min(if w <= 1 then 1 else w, |bs|)..]
  {
  }

  /**
   * An item is a scalar value exactly when `bs` begins with a UTF8-char of
   * RFC 3629 section 4, and then the bytes consumed are that value's encoding.
   */
  lemma {:induction false} NextCharOk(bs: seq<byte>)
    requires bs != []
    ensures NextChar(bs).item.Ok? <==> FirstCharLength(bs) > 0
    ensures NextChar(bs).item.Ok? ==> bs == EncodeScalar(NextChar(bs).item.value) + NextChar(bs).rest
  {
    var n := FirstCharLength(bs);
    if n > 0 {
      var head := bs[..n];
      WidthIsCharLength(head);
      assert head[0] == bs[0];
      EncodeDecodeScalar(head);
      assert NextChar(bs) == Yield(Ok(DecodeScalar(head)), bs[n..]);
      assert bs == head + bs[n..];
    }
  }

  /** What `next` yields: a scalar value or `NotUtf8`. */
  type Item = Result<Scalar, CharsError>

  /** The items `next` yields until it ends; there are none exactly when there are no bytes. */
  function Items(bs: seq<byte>): (items: seq<Item>)
    ensures items == [] <==> bs == []
    decreases |bs|
  {
    match NextChar(bs)
      case End => []
      case Yield(x, rest) => [x] + Items(rest)
  }

  /** A step of `next` takes the first item off `Items`. */
  lemma ItemsStep(bs: seq<byte>)
    requires bs != []
    ensures Items(bs) == [NextChar(bs).item] + Items(NextChar(bs).rest)
  {
  }

  /** The encoding of a scalar value followed by anything yields that value and leaves the rest. */
  lemma NextOfEncoding(c: Scalar, rest: seq<byte>)
    ensures NextChar(EncodeScalar(c) + rest) == Yield(Ok(c), rest)
  {
    var e, bs := EncodeScalar(c), EncodeScalar(c) + rest;
    EncodeScalarWellFormed(c);
    WidthIsCharLength(e);
    assert bs[..|e|] == e && bs[|e|..] == rest && bs[0] == e[0];
    DecodeEncode([c]);
    assert Encode([c]) == e;
  }

  /** The items that are just the scalar values `cs`. */
  function Oks(cs: seq<Scalar>): (items: seq<Item>)
    ensures |items| == |cs| && forall i :: 0 <= i < |cs| ==> items[i] == Ok(cs[i])
  {
    seq(|cs|, i requires 0 <= i < |cs| => Ok(cs[i]))
  }

  /** Reading the UTF-8 encoding of scalar values yields exactly those values, then ends. */
  lemma {:induction false} ItemsOfEncoding(cs: seq<Scalar>)
    ensures Items(Encode(cs)) == Oks(cs)
    decreases |cs|
  {
    if cs != [] {
      NextOfEncoding(cs[0], Encode(cs[1..]));
      ItemsOfEncoding(cs[1..]);
      assert Oks(cs) == [Ok(cs[0])] + Oks(cs[1..]);
    }
  }

  /** `Chars`: an iterator over the code points of the reader it owns. */
  class Chars {
    const inner: SliceReader

    constructor (inner: SliceReader)
      ensures this.inner == inner
    {
      this.inner := inner;
    }

    /** `read_one_byte`: the next byte of the reader, or None at its end. */
    static method ReadOneByte(reader: SliceReader) returns (r: Option<byte>)
      modifies reader
      ensures old(reader.rest) == [] ==> r == None && reader.rest == []
      ensures old(reader.rest) != [] ==> r == Some(old(reader.rest)[0]) && reader.rest == old(reader.rest)[1..]
    {
      var buf := new byte[1];
      var n := reader.Read(buf, 0, 1);
      if n == 0 {
        return None;
      }
      return Some(buf[0]);
    }

    /** `next`: the step `NextChar` describes, taken on the reader. */
    method Next() returns (r: Option<Result<Scalar, CharsError>>)
      modifies inner
      ensures NextChar(old(inner.rest)).End? ==> r == None && inner.rest == old(inner.rest)
      ensures NextChar(old(inner.rest)).Yield? ==>
        r == Some(NextChar(old(inner.rest)).item) && inner.rest == NextChar(old(inner.rest)).rest
    {
      ghost var bs := inner.rest;
      var first := ReadOneByte(inner);
      if first.None? {
        return None;
      }
      var firstByte := first.value;
      var width := Utf8CharWidth(firstByte);
      if width == 1 {
        return Some(Ok(firstByte));
      }
      if width == 0 {
        return Some(Err(NotUtf8));
      }
      var buf := new byte[4];
      buf[0] := firstByte;
      var start := 1;
      while start < width
        invariant 1 <= start <= width && start <= |bs|
        invariant buf[..start] == bs[..start]
        invariant inner.rest == bs[start..]
        decreases width - start
      {
        var n := inner.Read(buf, start, width);
        if n == 0 {
          return Some(Err(NotUtf8));
        }
        assert bs[start..][..n] == bs[start..start + n];
        assert buf[..start + n] == buf[..start] + buf[start..start + n];
        assert bs[..start + n] == bs[..start] + bs[start..start + n];
        assert bs[start..][n..] == bs[start + n..];
        start := start + n;
      }
      assert buf[..width] == bs[..width];
      FromUtf8OfWidth(bs[..width]);
      match DecodeUtf8(buf[..width]) {
        case Some(s) => return Some(Ok(s[0]));
        case None => return Some(Err(NotUtf8));
      }
    }
  }
}
