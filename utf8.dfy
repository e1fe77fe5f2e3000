/**
 * UTF-8 as RFC 3629 defines it: the encoding of a Unicode scalar value
 * (section 3), the syntax of well-formed byte sequences (section 4), and the
 * fact that byte order is code-point order (section 1). These stand in for
 * Rust's `char::encode_utf8`, `str::from_utf8` and `str::chars`.
 */
module Utf8 {
  import opened Wrappers
  import opened Bits
  import Lex

  /** A Unicode scalar value, the values of Rust's `char`: a code point that is not a surrogate. */
  type Scalar = c: int | 0 <= c <= 0x10FFFF && !(0xD800 <= c <= 0xDFFF)

  /** UTF8-tail = %x80-BF */
  predicate IsTail(b: byte) { 0x80 <= b <= 0xBF }

  /** UTF8-2 = %xC2-DF UTF8-tail */
  predicate IsUtf8Two(b0: byte, b1: byte) {
    0xC2 <= b0 <= 0xDF && IsTail(b1)
  }

  /** UTF8-3 = %xE0 %xA0-BF UTF8-tail / %xE1-EC 2( UTF8-tail ) / %xED %x80-9F UTF8-tail / %xEE-EF 2( UTF8-tail ) */
  predicate IsUtf8Three(b0: byte, b1: byte, b2: byte) {
    (|| (b0 == 0xE0 && 0xA0 <= b1 <= 0xBF)
     || (0xE1 <= b0 <= 0xEC && IsTail(b1))
     || (b0 == 0xED && 0x80 <= b1 <= 0x9F)
     || (0xEE <= b0 <= 0xEF && IsTail(b1)))
    && IsTail(b2)
  }

  /** UTF8-4 = %xF0 %x90-BF 2( UTF8-tail ) / %xF1-F3 3( UTF8-tail ) / %xF4 %x80-8F 2( UTF8-tail ) */
  predicate IsUtf8Four(b0: byte, b1: byte, b2: byte, b3: byte) {
    (|| (b0 == 0xF0 && 0x90 <= b1 <= 0xBF)
     || (0xF1 <= b0 <= 0xF3 && IsTail(b1))
     || (b0 == 0xF4 && 0x80 <= b1 <= 0x8F))
    && IsTail(b2) && IsTail(b3)
  }

  /** UTF8-char = UTF8-1 / UTF8-2 / UTF8-3 / UTF8-4, with UTF8-1 = %x00-7F. */
  predicate IsUtf8Char(bs: seq<byte>) {
    || (|bs| == 1 && bs[0] <= 0x7F)
    || (|bs| == 2 && IsUtf8Two(bs[0], bs[1]))
    || (|bs| == 3 && IsUtf8Three(bs[0], bs[1], bs[2]))
    || (|bs| == 4 && IsUtf8Four(bs[0], bs[1], bs[2], bs[3]))
  }

  /** The number of octets RFC 3629 section 3 uses for a scalar value. */
  function EncodedLength(c: Scalar): (n: nat)
    ensures 1 <= n <= 4
  {
    if c < 0x80 then 1 else if c < 0x800 then 2 else if c < 0x10000 then 3 else 4
  }

  /** The encoding table of RFC 3629 section 3 (Rust's `char::encode_utf8`). */
  function EncodeScalar(c: Scalar): (bs: seq<byte>)
    ensures |bs| == EncodedLength(c)
  {
    if c < 0x80 then
      [c]
    else if c < 0x800 then
      [0xC0 + c / 64, 0x80 + c % 64]
    else if c < 0x10000 then
      [0xE0 + c / 0x1000, 0x80 + (c / 64) % 64, 0x80 + c % 64]
    else
      [0xF0 + c / 0x40000, 0x80 + (c / 0x1000) % 64, 0x80 + (c / 64) % 64, 0x80 + c % 64]
  }

  /** The scalar value a UTF8-char stands for: its `x` bits (RFC 3629 section 3), concatenated. */
  function DecodeScalar(bs: seq<byte>): (c: Scalar)
    requires IsUtf8Char(bs)
    ensures EncodedLength(c) == |bs|
  {
    var b0: int := bs[0];
    if |bs| == 1 then b0
    else if |bs| == 2 then (b0 - 0xC0) * 64 + (bs[1] as int - 0x80)
    else if |bs| == 3 then (b0 - 0xE0) * 0x1000 + (bs[1] as int - 0x80) * 64 + (bs[2] as int - 0x80)
    else (b0 - 0xF0) * 0x40000 + (bs[1] as int - 0x80) * 0x1000 + (bs[2] as int - 0x80) * 64 + (bs[3] as int - 0x80)
  }

  /** A scalar value of two octets: five bits `x0` and six bits `x1`. */
  lemma TwoOctets(c: Scalar, x0: int, x1: int)
    requires 0x80 <= c < 0x800 && c == x0 * 64 + x1 && 0 <= x1 < 64
    ensures EncodeScalar(c) == [0xC0 + x0, 0x80 + x1]
    ensures IsUtf8Char(EncodeScalar(c)) && DecodeScalar(EncodeScalar(c)) == c
  {
    DivMod(c, 64, x0, x1);
  }

  /** A scalar value of three octets: four bits `x0` and six bits each `x1` and `x2`. */
  lemma ThreeOctets(c: Scalar, x0: int, x1: int, x2: int)
    requires 0x800 <= c < 0x10000 && c == x0 * 0x1000 + x1 * 64 + x2
    requires 0 <= x1 < 64 && 0 <= x2 < 64
    ensures EncodeScalar(c) == [0xE0 + x0, 0x80 + x1, 0x80 + x2]
    ensures IsUtf8Char(EncodeScalar(c)) && DecodeScalar(EncodeScalar(c)) == c
  {
    DivMod(c, 64, x0 * 64 + x1, x2);
    DivMod(x0 * 64 + x1, 64, x0, x1);
    DivMod(c, 0x1000, x0, x1 * 64 + x2);
  }

  /** A scalar value of four octets: three bits `x0` and six bits each `x1`, `x2` and `x3`. */
  lemma FourOctets(c: Scalar, x0: int, x1: int, x2: int, x3: int)
    requires 0x10000 <= c && c == x0 * 0x40000 + x1 * 0x1000 + x2 * 64 + x3
    requires 0 <= x1 < 64 && 0 <= x2 < 64 && 0 <= x3 < 64
    ensures EncodeScalar(c) == [0xF0 + x0, 0x80 + x1, 0x80 + x2, 0x80 + x3]
    ensures IsUtf8Char(EncodeScalar(c)) && DecodeScalar(EncodeScalar(c)) == c
  {
    DivMod(c, 64, x0 * 0x1000 + x1 * 64 + x2, x3);
    DivMod(x0 * 0x1000 + x1 * 64 + x2, 64, x0 * 64 + x1, x2);
    DivMod(x0 * 64 + x1, 64, x0, x1);
    DivMod(c, 0x1000, x0 * 64 + x1, x2 * 64 + x3);
    DivMod(c, 0x40000, x0, x1 * 0x1000 + x2 * 64 + x3);
  }

  /** Encoding a scalar value gives a well-formed UTF8-char that decodes back to it. */
  lemma EncodeScalarWellFormed(c: Scalar)
    ensures IsUtf8Char(EncodeScalar(c))
    ensures DecodeScalar(EncodeScalar(c)) == c
  {
    if c >= 0x80 {
      var q := c / 64;
      DivMod(c, 64, q, c % 64);
      if c < 0x800 {
        TwoOctets(c, q, c % 64);
      } else {
        var q' := q / 64;
        DivMod(q, 64, q', q % 64);
        if c < 0x10000 {
          ThreeOctets(c, q', q % 64, c % 64);
        } else {
          DivMod(q', 64, q' / 64, q' % 64);
          FourOctets(c, q' / 64, q' % 64, q % 64, c % 64);
        }
      }
    }
  }

  /** Decoding a well-formed UTF8-char and encoding the result gives the same bytes. */
  lemma EncodeDecodeScalar(bs: seq<byte>)
    requires IsUtf8Char(bs)
    ensures EncodeScalar(DecodeScalar(bs)) == bs
  {
    var c := DecodeScalar(bs);
    if |bs| == 2 {
      TwoOctets(c, bs[0] as int - 0xC0, bs[1] as int - 0x80);
    } else if |bs| == 3 {
      ThreeOctets(c, bs[0] as int - 0xE0, bs[1] as int - 0x80, bs[2] as int - 0x80);
    } else if |bs| == 4 {
      FourOctets(c, bs[0] as int - 0xF0, bs[1] as int - 0x80, bs[2] as int - 0x80, bs[3] as int - 0x80);
    }
  }

  /** The UTF-8 encoding of a sequence of scalar values: their encodings, in order. */
  function Encode(cs: seq<Scalar>): (bs: seq<byte>)
    ensures cs != [] ==> |bs| > 0
  {
    if cs == [] then [] else EncodeScalar(cs[0]) + Encode(cs[1..])
  }

  lemma {:induction false} EncodeAppend(a: seq<Scalar>, b: seq<Scalar>)
    ensures Encode(a + b) == Encode(a) + Encode(b)
    decreases |a|
  {
    if a == [] {
      assert a + b == b;
    } else {
      assert (a + b)[1..] == a[1..] + b;
      EncodeAppend(a[1..], b);
    }
  }

  /** Encoding one more scalar value appends its encoding. */
  lemma EncodeSnoc(cs: seq<Scalar>, i: nat)
    requires i < |cs|
    ensures Encode(cs[..i + 1]) == Encode(cs[..i]) + EncodeScalar(cs[i])
  {
    assert cs[..i + 1] == cs[..i] + [cs[i]];
    EncodeAppend(cs[..i], [cs[i]]);
    assert Encode([cs[i]]) == EncodeScalar(cs[i]) + Encode([]);
  }

  /** The alternatives of RFC 3629 section 4 start with disjoint lead-byte ranges, so at most one prefix is a UTF8-char. */
  lemma Utf8CharPrefixUnique(bs: seq<byte>, i: nat, j: nat)
    requires i <= |bs| && j <= |bs|
    requires IsUtf8Char(bs[..i]) && IsUtf8Char(bs[..j])
    ensures i == j
  {
    assert bs[..i][0] == bs[0] == bs[..j][0];
  }

  /** The length of the UTF8-char that `bs` starts with, or 0 when it starts with none. */
  function FirstCharLength(bs: seq<byte>): (n: nat)
    ensures n <= 4 && n <= |bs|
    ensures n > 0 ==> IsUtf8Char(bs[..n])
    ensures n == 0 ==> forall k :: 1 <= k <= |bs| ==> !IsUtf8Char(bs[..k])
  {
    if 1 <= |bs| && IsUtf8Char(bs[..1]) then 1
    else if 2 <= |bs| && IsUtf8Char(bs[..2]) then 2
    else if 3 <= |bs| && IsUtf8Char(bs[..3]) then 3
    else if 4 <= |bs| && IsUtf8Char(bs[..4]) then 4
    else 0
  }

  /**
   * The scalar values of a byte sequence when it is well-formed UTF-8
   * (UTF8-octets = *( UTF8-char )), and None otherwise: Rust's
   * `str::from_utf8` followed by `chars()`.
   */
  function DecodeUtf8(bs: seq<byte>): (r: Option<seq<Scalar>>)
    ensures r.Some? ==> (r.value == [] <==> bs == [])
    ensures r.Some? ==> |r.value| <= |bs| <= 4 * |r.value|
    decreases |bs|
  {
    if bs == [] then Some([])
    else
      var n := FirstCharLength(bs);
      if n == 0 then None
      else match DecodeUtf8(bs[n..])
        case None => None
        case Some(rest) => Some([DecodeScalar(bs[..n])] + rest)
  }

  /** Well-formed UTF-8: what `str::from_utf8` accepts. */
  predicate ValidUtf8(bs: seq<byte>) {
    DecodeUtf8(bs).Some?
  }

  /** An encoded scalar value is the one UTF8-char its encoding followed by anything starts with. */
  lemma FirstCharOfEncoding(c: Scalar, rest: seq<byte>)
    ensures var bs := EncodeScalar(c) + rest;
      FirstCharLength(bs) == EncodedLength(c) && bs[..EncodedLength(c)] == EncodeScalar(c)
  {
    var e, bs := EncodeScalar(c), EncodeScalar(c) + rest;
    EncodeScalarWellFormed(c);
    assert bs[..|e|] == e;
    var n := FirstCharLength(bs);
    if n != |e| {
      Utf8CharPrefixUnique(bs, n, |e|);
    }
  }

  /** Decoding an encoding gives back the scalar values (RFC 3629 is a bijection). */
  lemma {:induction false} DecodeEncode(cs: seq<Scalar>)
    ensures DecodeUtf8(Encode(cs)) == Some(cs)
    decreases |cs|
  {
    if cs != [] {
      var e, rest := EncodeScalar(cs[0]), Encode(cs[1..]);
      FirstCharOfEncoding(cs[0], rest);
      EncodeScalarWellFormed(cs[0]);
      assert (e + rest)[|e|..] == rest;
      DecodeEncode(cs[1..]);
      assert [cs[0]] + cs[1..] == cs;
    }
  }

  /** Every well-formed byte sequence is the encoding of what it decodes to. */
  lemma {:induction false} EncodeDecode(bs: seq<byte>)
    requires ValidUtf8(bs)
    ensures Encode(DecodeUtf8(bs).value) == bs
    decreases |bs|
  {
    if bs != [] {
      var n := FirstCharLength(bs);
      var head, tail := bs[..n], bs[n..];
      var rest := DecodeUtf8(tail).value;
      var cs := DecodeUtf8(bs).value;
      assert cs == [DecodeScalar(head)] + rest;
      EncodeDecode(tail);
      EncodeDecodeScalar(head);
      assert cs[0] == DecodeScalar(head) && cs[1..] == rest;
      calc {
        Encode(cs);
        EncodeScalar(cs[0]) + Encode(cs[1..]);
        head + tail;
        bs;
      }
    }
  }

  /** The encoding of any sequence of scalar values is well-formed. */
  lemma EncodeIsValid(cs: seq<Scalar>)
    ensures ValidUtf8(Encode(cs))
  {
    DecodeEncode(cs);
  }

  /** The concatenation of two well-formed byte sequences is well-formed, and decodes to the concatenation of what they decode to. */
  lemma ValidAppend(a: seq<byte>, b: seq<byte>)
    requires ValidUtf8(a) && ValidUtf8(b)
    ensures DecodeUtf8(a + b) == Some(DecodeUtf8(a).value + DecodeUtf8(b).value)
  {
    var u, v := DecodeUtf8(a).value, DecodeUtf8(b).value;
    EncodeDecode(a);
    EncodeDecode(b);
    EncodeAppend(u, v);
    DecodeEncode(u + v);
  }

  /** A scalar value in base 64: the digits that fill the `x` bits of RFC 3629 section 3. */
  lemma ScalarDigits(c: Scalar)
    ensures c / 64 == (c / 0x1000) * 64 + (c / 64) % 64
    ensures c / 0x1000 == (c / 0x40000) * 64 + (c / 0x1000) % 64
    ensures c == (c / 64) * 64 + c % 64
  {
    var q := c / 64;
    var q' := q / 64;
    DivMod(c, 64, q, c % 64);
    DivMod(q, 64, q', q % 64);
    DivMod(c, 0x1000, q', (q % 64) * 64 + c % 64);
    DivMod(q', 64, q' / 64, q' % 64);
    DivMod(c, 0x40000, q' / 64, (q' % 64) * 0x1000 + (q % 64) * 64 + c % 64);
  }

  /** Encodings of different lengths already differ in their first octet, shorter below longer. */
  lemma LeadOctetOrder(a: Scalar, b: Scalar)
    requires a < b && EncodedLength(a) < EncodedLength(b)
    ensures EncodeScalar(a)[0] < EncodeScalar(b)[0]
  {
  }

  /** One base-64 digit step of a comparison: the higher digits decide, and the lower one breaks a tie. */
  lemma DigitStep(x: int, y: int, u: int, v: int)
    requires 0 <= u < 64 && 0 <= v < 64 && x * 64 + u < y * 64 + v
    ensures x < y || (x == y && u < v)
  {
  }

  lemma Order2(a: Scalar, b: Scalar)
    requires a < b && EncodedLength(a) == EncodedLength(b) == 2
    ensures Lex.DiffersBelow(EncodeScalar(a), EncodeScalar(b))
  {
    var ea, eb := EncodeScalar(a), EncodeScalar(b);
    assert ea == [0xC0 + a / 64, 0x80 + a % 64] && eb == [0xC0 + b / 64, 0x80 + b % 64];
    ScalarDigits(a);
    ScalarDigits(b);
    DigitStep(a / 64, b / 64, a % 64, b % 64);
    if a / 64 < b / 64 { Lex.DiffersAt(ea, eb, 0); } else { Lex.DiffersAt(ea, eb, 1); }
  }

  lemma Order3(a: Scalar, b: Scalar)
    requires a < b && EncodedLength(a) == EncodedLength(b) == 3
    ensures Lex.DiffersBelow(EncodeScalar(a), EncodeScalar(b))
  {
    var ea, eb := EncodeScalar(a), EncodeScalar(b);
    assert ea == [0xE0 + a / 0x1000, 0x80 + (a / 64) % 64, 0x80 + a % 64];
    assert eb == [0xE0 + b / 0x1000, 0x80 + (b / 64) % 64, 0x80 + b % 64];
    ScalarDigits(a);
    ScalarDigits(b);
    DigitStep(a / 64, b / 64, a % 64, b % 64);
    if a / 64 == b / 64 {
      Lex.DiffersAt(ea, eb, 2);
    } else {
      DigitStep(a / 0x1000, b / 0x1000, (a / 64) % 64, (b / 64) % 64);
      if a / 0x1000 < b / 0x1000 { Lex.DiffersAt(ea, eb, 0); } else { Lex.DiffersAt(ea, eb, 1); }
    }
  }

  lemma Order4(a: Scalar, b: Scalar)
    requires a < b && EncodedLength(a) == EncodedLength(b) == 4
    ensures Lex.DiffersBelow(EncodeScalar(a), EncodeScalar(b))
  {
    var ea, eb := EncodeScalar(a), EncodeScalar(b);
    assert ea == [0xF0 + a / 0x40000, 0x80 + (a / 0x1000) % 64, 0x80 + (a / 64) % 64, 0x80 + a % 64];
    assert eb == [0xF0 + b / 0x40000, 0x80 + (b / 0x1000) % 64, 0x80 + (b / 64) % 64, 0x80 + b % 64];
    ScalarDigits(a);
    ScalarDigits(b);
    DigitStep(a / 64, b / 64, a % 64, b % 64);
    if a / 64 == b / 64 {
      Lex.DiffersAt(ea, eb, 3);
    } else {
      DigitStep(a / 0x1000, b / 0x1000, (a / 64) % 64, (b / 64) % 64);
      if a / 0x1000 == b / 0x1000 {
        Lex.DiffersAt(ea, eb, 2);
      } else {
        DigitStep(a / 0x40000, b / 0x40000, (a / 0x1000) % 64, (b / 0x1000) % 64);
        if a / 0x40000 < b / 0x40000 { Lex.DiffersAt(ea, eb, 0); } else { Lex.DiffersAt(ea, eb, 1); }
      }
    }
  }

  /** RFC 3629 section 1: a smaller scalar value has an encoding that is smaller at a position both encodings have. */
  lemma EncodeScalarOrder(a: Scalar, b: Scalar)
    requires a < b
    ensures Lex.DiffersBelow(EncodeScalar(a), EncodeScalar(b))
  {
    if EncodedLength(a) < EncodedLength(b) {
      LeadOctetOrder(a, b);
      Lex.DiffersAt(EncodeScalar(a), EncodeScalar(b), 0);
    } else if EncodedLength(a) == 1 {
      Lex.DiffersAt(EncodeScalar(a), EncodeScalar(b), 0);
    } else if EncodedLength(a) == 2 {
      Order2(a, b);
    } else if EncodedLength(a) == 3 {
      Order3(a, b);
    } else {
      Order4(a, b);
    }
  }

  /** RFC 3629 section 1: sorting UTF-8 strings bytewise sorts them by code point. */
  lemma {:induction false} EncodeOrder(u: seq<Scalar>, v: seq<Scalar>)
    requires Lex.Less(u, v)
    ensures Lex.Less(Encode(u), Encode(v))
    decreases |u|
  {
    if u != [] {
      var hu, hv := EncodeScalar(u[0]), EncodeScalar(v[0]);
      assert Encode(u) == hu + Encode(u[1..]) && Encode(v) == hv + Encode(v[1..]);
      if u[0] < v[0] {
        EncodeScalarOrder(u[0], v[0]);
        Lex.DiffersBelowAppend(hu, hv, Encode(u[1..]), Encode(v[1..]));
        Lex.DiffersBelowIsLess(Encode(u), Encode(v));
      } else {
        EncodeOrder(u[1..], v[1..]);
        Lex.LessPrepend(hu, Encode(u[1..]), Encode(v[1..]));
      }
    }
  }
}
