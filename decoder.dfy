/**
 * The Ecoji decoder: reads code points through `Chars` in groups of four,
 * checks each against the alphabet, turns the four ranks back into five
 * bytes and keeps as many of them as the padding in the group says.
 * `DecodeStream` says what the method `Decode` does; `DecodeStreamMeaning`
 * says what that is in terms of the code points the input holds.
 */
module Decoder {
  import opened Wrappers
  import opened Bits
  import opened Utf8
  import opened Alphabet
  import opened Io
  import opened Chars

  /** `check_char`: a malformed code point becomes `into_io`'s error, and one outside the alphabet `InvalidData`. */
  function CheckChar(t: Table, c: Item): (r: Result<Scalar, ErrorKind>)
    ensures r.Ok? <==> c.Ok? && IsValidAlphabetChar(t, c.value)
    ensures r.Ok? ==> r.value == c.value
    ensures c.Err? ==> r == Err(InvalidInput)
    ensures c.Ok? && !IsValidAlphabetChar(t, c.value) ==> r == Err(InvalidData)
  {
    match c
    case Err(e) => Err(IntoIo(e))
    case Ok(ch) => if IsValidAlphabetChar(t, ch) then Ok(ch) else Err(InvalidData)
  }

  /**
   * `bits4`: the last slot's rank. `PADDING_4k` stands for `k << 8`, so that
   * the fourth byte gets back its low two bits; anything else is ranked as
   * in the other slots.
   */
  function LastRank(t: Table, c: Scalar): (r: int)
    requires Valid(t)
    ensures 0 <= r < 1024
    ensures forall k :: 0 <= k < 4 && c == Padding4(t, k) ==> r == 256 * k
    ensures forall i :: 0 <= i < 1024 && c == t.emojis[i] ==> r == i
  {
    if c == PADDING_40 then 0
    else if c == t.padding41 then 1 * 256
    else if c == t.padding42 then 2 * 256
    else if c == t.padding43 then 3 * 256
    else Rank(t, c)
  }

  /** Rust's `x as u8`: the low 8 bits. A value that fits in a byte is kept. */
  function U8(x: int): (b: byte)
    ensures 0 <= x < 256 ==> b == x
  {
    x % 256
  }

  /** The `out` array: the 40 bits of four 10-bit ranks, cut into five bytes. */
  function GroupOctets(r0: int, r1: int, r2: int, r3: int): (out: seq<byte>)
    requires 0 <= r0 < 1024 && 0 <= r1 < 1024 && 0 <= r2 < 1024 && 0 <= r3 < 1024
    ensures |out| == 5
  {
    [ U8(r0 / 4),
      U8((r0 % 4) * 64 + r1 / 16),
      U8((r1 % 16) * 16 + r2 / 64),
      U8((r2 % 64) * 4 + r3 / 256),
      U8(r3 % 256) ]
  }

  /**
   * The five bytes, read as one 40-bit big-endian number, are the four ranks
   * read as one number in base 1024: the bits are regrouped, none is lost.
   */
  lemma OctetsHoldRanks(r0: int, r1: int, r2: int, r3: int)
    requires 0 <= r0 < 1024 && 0 <= r1 < 1024 && 0 <= r2 < 1024 && 0 <= r3 < 1024
    ensures var out: seq<int> := GroupOctets(r0, r1, r2, r3);
      (((out[0] * 256 + out[1]) * 256 + out[2]) * 256 + out[3]) * 256 + out[4]
        == ((r0 * 1024 + r1) * 1024 + r2) * 1024 + r3
  {
  }

  /** No `as u8` cuts anything off: ranks below 1024 give bytes below 256 before the cast. */
  lemma NoTruncation(r0: int, r1: int, r2: int, r3: int)
    requires 0 <= r0 < 1024 && 0 <= r1 < 1024 && 0 <= r2 < 1024 && 0 <= r3 < 1024
    ensures r0 / 4 < 256 && (r0 % 4) * 64 + r1 / 16 < 256 && (r1 % 16) * 16 + r2 / 64 < 256
    ensures (r2 % 64) * 4 + r3 / 256 < 256 && r3 % 256 < 256
  {
  }

  /**
   * How many of the five bytes a group stands for, tested in this order:
   * `PADDING` in slot 1, in slot 2, in slot 3, `PADDING_4k` in slot 3.
   */
  function GroupLength(t: Table, chars: seq<Scalar>): (n: nat)
    requires |chars| == 4
    ensures 1 <= n <= 5
  {
    if chars[1] == PADDING then 1
    else if chars[2] == PADDING then 2
    else if chars[3] == PADDING then 3
    else if IsPadding4(t, chars[3]) then 4
    else 5
  }

  /** The bytes one group of four checked code points decodes to. */
  function DecodeGroup(t: Table, chars: seq<Scalar>): (out: seq<byte>)
    requires Valid(t) && |chars| == 4
    ensures 1 <= |out| <= 5
  {
    GroupOctets(Rank(t, chars[0]), Rank(t, chars[1]), Rank(t, chars[2]), LastRank(t, chars[3]))[..GroupLength(t, chars)]
  }

  /** The code points of `n` calls of `next`, each checked, or the first error; and the items left. */
  datatype GroupRead = GroupRead(chars: Result<seq<Scalar>, ErrorKind>, rest: seq<Item>)

  /** Puts checked code points in front of what a later read gave, unless that was an error. */
  function Prepend(cs: seq<Scalar>, g: GroupRead): GroupRead {
    if g.chars.Ok? then GroupRead(Ok(cs + g.chars.value), g.rest) else g
  }

  /** The code points a group holds after its first. */
  const TailLength: nat := 3

  /**
   * The `for i in 1..4` loop over the items `next` yields: `n` more code
   * points, each checked, the end of the stream being `UnexpectedEof`. What
   * is left is always what follows the items read.
   */
  function ReadChecked(t: Table, items: seq<Item>, n: nat): (g: GroupRead)
    ensures |g.rest| <= |items|
    ensures g.chars.Ok? ==> |g.chars.value| == n
    decreases n
  {
    if n == 0 then GroupRead(Ok([]), items)
    else if items == [] then GroupRead(Err(UnexpectedEof), items)
    else match CheckChar(t, items[0])
      case Err(k) => GroupRead(Err(k), items[1..])
      case Ok(c) => Prepend([c], ReadChecked(t, items[1..], n - 1))
  }

  /** One step of `ReadChecked`: a next item that passes the check, in front of the remaining `n - 1`. */
  lemma ReadCheckedStep(t: Table, items: seq<Item>, n: nat, c: Scalar)
    requires n > 0 && items != [] && CheckChar(t, items[0]) == Ok(c)
    ensures ReadChecked(t, items, n) == Prepend([c], ReadChecked(t, items[1..], n - 1))
  {
  }

  /** What `decode` leaves behind: the bytes it wrote, the error it stopped with, and the items not read. */
  datatype Decoded = Decoded(written: seq<byte>, error: Option<ErrorKind>, rest: seq<Item>)

  /**
   * `decode` on the items `next` yields: the end of the stream before a
   * group ends cleanly; otherwise the first code point and three more are
   * read and checked, the group is decoded and the rest of the stream follows.
   */
  function DecodeStream(t: Table, items: seq<Item>): (d: Decoded)
    requires Valid(t)
    ensures |d.rest| <= |items|
    decreases |items|
  {
    if items == [] then Decoded([], None, [])
    else match CheckChar(t, items[0])
      case Err(k) => Decoded([], Some(k), items[1..])
      case Ok(c) =>
        var g := ReadChecked(t, items[1..], TailLength);
        match g.chars
        case Err(k) => Decoded([], Some(k), g.rest)
        case Ok(cs) =>
          var d := DecodeStream(t, g.rest);
          Decoded(DecodeGroup(t, [c] + cs) + d.written, d.error, d.rest)
  }

  /**
   * The code points `decode` accepts from a stream of items: the longest
   * prefix whose items are scalar values of the alphabet.
   */
  function Accepted(t: Table, items: seq<Item>): (acc: seq<Scalar>)
    ensures |acc| <= |items|
    ensures |acc| < |items| ==> CheckChar(t, items[|acc|]).Err?
    decreases |items|
  {
    if items == [] then []
    else match CheckChar(t, items[0])
      case Ok(c) => [c] + Accepted(t, items[1..])
      case Err(_) => []
  }

  /** Every accepted item is a scalar value of the alphabet, so with `Accepted`'s contract it is the longest such prefix. */
  lemma {:induction false} AcceptedIsPrefix(t: Table, items: seq<Item>)
    ensures var acc := Accepted(t, items);
      forall i :: 0 <= i < |acc| ==> items[i] == Ok(acc[i]) && IsValidAlphabetChar(t, acc[i])
    decreases |items|
  {
    if items != [] && CheckChar(t, items[0]).Ok? {
      AcceptedIsPrefix(t, items[1..]);
      var acc := Accepted(t, items);
      assert acc == [items[0].value] + Accepted(t, items[1..]);
      assert forall i :: 1 <= i < |acc| ==> items[i] == items[1..][i - 1] && acc[i] == Accepted(t, items[1..])[i - 1];
    }
  }

  /** Dropping accepted items from the front drops them from what is accepted. */
  lemma {:induction false} AcceptedDrop(t: Table, items: seq<Item>, k: nat)
    requires k <= |Accepted(t, items)|
    ensures Accepted(t, items[k..]) == Accepted(t, items)[k..]
    decreases k
  {
    if k > 0 {
      AcceptedDrop(t, items[1..], k - 1);
      assert items[1..][k - 1..] == items[k..];
    }
  }

  /** Items that are all scalar values of the alphabet are all accepted. */
  lemma {:induction false} AcceptedAll(t: Table, cs: seq<Scalar>)
    requires forall i :: 0 <= i < |cs| ==> IsValidAlphabetChar(t, cs[i])
    ensures Accepted(t, Oks(cs)) == cs
    decreases |cs|
  {
    if cs != [] {
      AcceptedAll(t, cs[1..]);
      assert Oks(cs)[1..] == Oks(cs[1..]);
      assert cs == [cs[0]] + cs[1..];
    }
  }

  /**
   * The error `decode` ends with on a stream of items: the first item not
   * accepted, or else `UnexpectedEof` when the items do not fill whole
   * groups of four, or else none.
   */
  function Fault(t: Table, items: seq<Item>): (f: Option<ErrorKind>)
    ensures f.None? <==> |Accepted(t, items)| == |items| && |items| % 4 == 0
    ensures |Accepted(t, items)| < |items| ==> f == Some(CheckChar(t, items[|Accepted(t, items)|]).error)
  {
    var acc := Accepted(t, items);
    if |acc| < |items| then Some(CheckChar(t, items[|acc|]).error)
    else if |items| % 4 != 0 then Some(UnexpectedEof)
    else None
  }

  /** The items `decode` has not read when it ends: those after the first item not accepted, if any. */
  function Unread(t: Table, items: seq<Item>): (rest: seq<Item>)
    ensures |Accepted(t, items)| == |items| ==> rest == []
  {
    items[Min(|Accepted(t, items)| + 1, |items|)..]
  }

  /**
   * The bytes that the whole groups of checked code points decode to, group
   * after group; code points after the last whole group give nothing.
   */
  function DecodeGroups(t: Table, cs: seq<Scalar>): (out: seq<byte>)
    requires Valid(t)
    ensures |cs| / 4 <= |out| <= 5 * (|cs| / 4)
    decreases |cs|
  {
    if |cs| < 4 then []
    else
      DivModShift(|cs|, 4);
      DecodeGroup(t, cs[..4]) + DecodeGroups(t, cs[4..])
  }

  /** A group of four in front of more code points decodes first. */
  lemma DecodeGroupsCons(t: Table, head: seq<Scalar>, tail: seq<Scalar>)
    requires Valid(t) && |head| == 4
    ensures DecodeGroups(t, head + tail) == DecodeGroup(t, head) + DecodeGroups(t, tail)
  {
    assert (head + tail)[..4] == head && (head + tail)[4..] == tail;
  }

  /** Concatenation of byte strings is associative. */
  lemma AppendAssoc(x: seq<byte>, y: seq<byte>, z: seq<byte>)
    ensures x + (y + z) == (x + y) + z
  {
  }

  /** Decoding whole groups and then more code points is decoding them all. */
  lemma {:induction false} DecodeGroupsAppend(t: Table, a: seq<Scalar>, b: seq<Scalar>)
    requires Valid(t) && |a| % 4 == 0
    ensures DecodeGroups(t, a + b) == DecodeGroups(t, a) + DecodeGroups(t, b)
    decreases |a|
  {
    if a == [] {
      assert a + b == b;
    } else {
      var head, rest := a[..4], a[4..];
      assert a == head + rest && a + b == head + (rest + b);
      DivModShift(|a|, 4);
      DecodeGroupsCons(t, head, rest);
      DecodeGroupsCons(t, head, rest + b);
      DecodeGroupsAppend(t, rest, b);
      AppendAssoc(DecodeGroup(t, head), DecodeGroups(t, rest), DecodeGroups(t, b));
    }
  }

  /** Why a read of more code points than are accepted stops: the first item not accepted, or the end. */
  function Stop(t: Table, items: seq<Item>): (k: ErrorKind)
    ensures |Accepted(t, items)| == |items| ==> k == UnexpectedEof
    ensures |Accepted(t, items)| < |items| ==> k == CheckChar(t, items[|Accepted(t, items)|]).error
  {
    var acc := Accepted(t, items);
    if |acc| < |items| then CheckChar(t, items[|acc|]).error else UnexpectedEof
  }

  /** The first item passes the check, and what is accepted is it followed by what is accepted after it. */
  lemma AcceptedStep(t: Table, items: seq<Item>)
    requires |Accepted(t, items)| > 0
    ensures items != [] && CheckChar(t, items[0]).Ok?
    ensures Accepted(t, items) == [CheckChar(t, items[0]).value] + Accepted(t, items[1..])
  {
  }

  /** `n` checked reads within the accepted items give the next `n` of them and leave the items after. */
  lemma {:induction false} ReadCheckedTaken(t: Table, items: seq<Item>, n: nat)
    requires n <= |Accepted(t, items)|
    ensures ReadChecked(t, items, n) == GroupRead(Ok(Accepted(t, items)[..n]), items[n..])
    decreases n
  {
    if n > 0 {
      AcceptedStep(t, items);
      var c, more := CheckChar(t, items[0]).value, Accepted(t, items[1..]);
      ReadCheckedStep(t, items, n, c);
      ReadCheckedTaken(t, items[1..], n - 1);
      assert Accepted(t, items)[..n] == [c] + more[..n - 1];
      assert items[1..][n - 1..] == items[n..];
    }
  }

  /** `n` checked reads past the accepted items fail with `Stop` and leave what `Unread` says. */
  lemma {:induction false} ReadCheckedStops(t: Table, items: seq<Item>, n: nat)
    requires |Accepted(t, items)| < n
    ensures ReadChecked(t, items, n) == GroupRead(Err(Stop(t, items)), Unread(t, items))
    decreases n
  {
    if |Accepted(t, items)| > 0 {
      AcceptedStep(t, items);
      var c, more := CheckChar(t, items[0]).value, items[1..];
      ReadCheckedStep(t, items, n, c);
      ReadCheckedStops(t, more, n - 1);
      var acc, accMore := Accepted(t, items), Accepted(t, more);
      if |acc| < |items| {
        assert items[|acc|] == more[|accMore|];
      }
      assert more[Min(|accMore| + 1, |more|)..] == items[Min(|acc| + 1, |items|)..];
    }
  }

  /**
   * What `decode` does to a stream of items: it ends with `Fault` of them,
   * it has written the whole groups of the accepted code points and nothing
   * of a group left incomplete, and it has read up to and including the
   * first item it did not accept.
   */
  predicate DecodesAsItems(t: Table, items: seq<Item>)
    requires Valid(t)
  {
    var d := DecodeStream(t, items);
    && d.error == Fault(t, items)
    && d.written == DecodeGroups(t, Accepted(t, items))
    && d.rest == Unread(t, items)
  }

  /** `DecodesAsItems` when the first item is accepted and one of the next three is not there or not accepted. */
  lemma MeaningShort(t: Table, items: seq<Item>)
    requires Valid(t) && 0 < |Accepted(t, items)| < 4
    ensures DecodesAsItems(t, items)
  {
    AcceptedStep(t, items);
    var more := items[1..];
    var acc, accMore := Accepted(t, items), Accepted(t, more);
    ReadCheckedStops(t, more, TailLength);
    DecodeStreamTailFails(t, items);
    assert more[Min(|accMore| + 1, |more|)..] == items[Min(|acc| + 1, |items|)..];
    if |accMore| < |more| {
      assert items[|acc|] == more[|accMore|];
    } else {
      assert |items| % 4 != 0;
    }
  }

  /** A stream that starts with a whole accepted group decodes to that group's bytes, then to what the rest decodes to. */
  lemma GroupThenRest(t: Table, items: seq<Item>)
    requires Valid(t) && |Accepted(t, items)| >= 4
    ensures var d := DecodeStream(t, items[4..]);
      DecodeStream(t, items) == Decoded(DecodeGroup(t, Accepted(t, items)[..4]) + d.written, d.error, d.rest)
  {
    AcceptedStep(t, items);
    var more, c := items[1..], CheckChar(t, items[0]).value;
    ReadCheckedTaken(t, more, TailLength);
    assert more[TailLength..] == items[4..];
    assert Accepted(t, items)[..4] == [c] + Accepted(t, more)[..3];
    DecodeStreamGroup(t, items);
  }

  /** Items after a whole accepted group leave the same items unread as the whole stream. */
  lemma UnreadDrop(t: Table, items: seq<Item>)
    requires |Accepted(t, items)| >= 4 && Accepted(t, items[4..]) == Accepted(t, items)[4..]
    ensures Unread(t, items[4..]) == Unread(t, items)
  {
    var acc := Accepted(t, items);
    assert items[4..][Min(|acc| - 4 + 1, |items| - 4)..] == items[Min(|acc| + 1, |items|)..];
  }

  /** `DecodesAsItems` for a stream that starts with a whole accepted group, given it for the stream after that group. */
  lemma MeaningGroup(t: Table, items: seq<Item>)
    requires Valid(t) && |Accepted(t, items)| >= 4
    requires DecodesAsItems(t, items[4..])
    ensures DecodesAsItems(t, items)
  {
    GroupThenRest(t, items);
    AcceptedDrop(t, items, 4);
    FaultDrop(t, items);
    UnreadDrop(t, items);
  }

  /** `decode` on any stream of items does what `DecodesAsItems` says. */
  lemma {:induction false} DecodeStreamMeaning(t: Table, items: seq<Item>)
    requires Valid(t)
    ensures DecodesAsItems(t, items)
    decreases |items|
  {
    var acc := Accepted(t, items);
    if |acc| >= 4 {
      DecodeStreamMeaning(t, items[4..]);
      MeaningGroup(t, items);
    } else if |acc| > 0 {
      MeaningShort(t, items);
    } else if items != [] {
      DecodeStreamFirstFails(t, items);
    }
  }

  /** Items after a whole accepted group end with the same fault as the whole stream. */
  lemma FaultDrop(t: Table, items: seq<Item>)
    requires |Accepted(t, items)| >= 4 && Accepted(t, items[4..]) == Accepted(t, items)[4..]
    ensures Fault(t, items[4..]) == Fault(t, items)
  {
    var acc := Accepted(t, items);
    DivModShift(|items|, 4);
    if |acc| < |items| {
      assert items[4..][|acc| - 4] == items[|acc|];
    }
  }

  /** `DecodeStream` when the first item fails its check. */
  lemma DecodeStreamFirstFails(t: Table, items: seq<Item>)
    requires Valid(t) && items != [] && CheckChar(t, items[0]).Err?
    ensures DecodeStream(t, items) == Decoded([], Some(CheckChar(t, items[0]).error), items[1..])
  {
  }

  /** `DecodeStream` when the first item passes and one of the next three does not. */
  lemma DecodeStreamTailFails(t: Table, items: seq<Item>)
    requires Valid(t) && items != [] && CheckChar(t, items[0]).Ok?
    requires ReadChecked(t, items[1..], TailLength).chars.Err?
    ensures var g := ReadChecked(t, items[1..], TailLength);
      DecodeStream(t, items) == Decoded([], Some(g.chars.error), g.rest)
  {
  }

  /** `DecodeStream` when a whole group passes: that group's bytes, then the rest of the stream. */
  lemma DecodeStreamGroup(t: Table, items: seq<Item>)
    requires Valid(t) && items != [] && CheckChar(t, items[0]).Ok?
    requires ReadChecked(t, items[1..], TailLength).chars.Ok?
    ensures var g := ReadChecked(t, items[1..], TailLength);
      var d := DecodeStream(t, g.rest);
      DecodeStream(t, items) ==
        Decoded(DecodeGroup(t, [CheckChar(t, items[0]).value] + g.chars.value) + d.written, d.error, d.rest)
  {
  }

  /** An item after `j` accepted ones that passes the check is accepted too. */
  lemma AcceptOneMore(t: Table, items: seq<Item>, j: nat)
    requires j <= |Accepted(t, items)| && j < |items| && CheckChar(t, items[j]).Ok?
    ensures j < |Accepted(t, items)| && Accepted(t, items)[j] == CheckChar(t, items[j]).value
    ensures Accepted(t, items)[..j + 1] == Accepted(t, items)[..j] + [CheckChar(t, items[j]).value]
  {
    AcceptedIsPrefix(t, items);
  }

  /**
   * Reading the group's tail fails after `j` accepted items when the items
   * end there or the next one fails its check: with `Stop`, leaving `Unread`.
   */
  lemma TailFails(t: Table, items: seq<Item>, j: nat)
    requires j <= |Accepted(t, items)| && j < TailLength && j <= |items|
    requires j == |items| || CheckChar(t, items[j]).Err?
    ensures ReadChecked(t, items, TailLength) == GroupRead(Err(Stop(t, items)), Unread(t, items))
    ensures j == |items| ==> Stop(t, items) == UnexpectedEof && Unread(t, items) == []
    ensures j < |items| ==> Stop(t, items) == CheckChar(t, items[j]).error && Unread(t, items) == items[j + 1..]
  {
    AcceptedIsPrefix(t, items);
    ReadCheckedStops(t, items, TailLength);
  }

  /** Dropping one more item from a suffix. */
  lemma DropOne(items: seq<Item>, j: nat)
    requires j < |items|
    ensures items[j..][1..] == items[j + 1..]
  {
  }

  /** `input.next()` followed by `check_char`, the end of the stream being `UnexpectedEof`. */
  method ReadCheckedChar(t: Table, input: Chars) returns (r: Result<Scalar, ErrorKind>)
    modifies input.inner
    ensures var items := Items(old(input.inner.rest));
      && |input.inner.rest| <= |old(input.inner.rest)|
      && (items == [] ==> r == Err(UnexpectedEof) && input.inner.rest == old(input.inner.rest))
      && (items != [] ==> r == CheckChar(t, items[0]) && Items(input.inner.rest) == items[1..])
  {
    ghost var before := input.inner.rest;
    var c := input.Next();
    if c.None? {
      return Err(UnexpectedEof);
    }
    ItemsStep(before);
    r := CheckChar(t, c.value);
    assert Items(before)[1..] == Items(input.inner.rest);
  }

  /**
   * The `for i in 1..4` loop of `decode`: reads and checks three more code
   * points into `chars[1..4]`, returning the first error instead.
   */
  method ReadGroupTail(t: Table, input: Chars, chars: array<Scalar>) returns (r: Result<(), ErrorKind>)
    requires chars.Length == 4
    modifies input.inner, chars
    ensures var g := ReadChecked(t, Items(old(input.inner.rest)), TailLength);
      && Items(input.inner.rest) == g.rest
      && |input.inner.rest| <= |old(input.inner.rest)|
      && chars[0] == old(chars[0])
      && (r.Ok? <==> g.chars.Ok?)
      && (g.chars.Ok? ==> chars[1..] == g.chars.value)
      && (g.chars.Err? ==> r == Err(g.chars.error))
  {
    ghost var start := Items(input.inner.rest);
    ghost var size := |input.inner.rest|;
    ghost var pending := start;
    for i := 1 to 4
      invariant |input.inner.rest| <= size && pending == Items(input.inner.rest)
      invariant i - 1 <= |Accepted(t, start)| && pending == start[i - 1..]
      invariant chars[0] == old(chars[0]) && chars[1..i] == Accepted(t, start)[..i - 1]
    {
      var checked := ReadCheckedChar(t, input);
      if i - 1 < |start| {
        DropOne(start, i - 1);
      }
      if checked.Err? {
        TailFails(t, start, i - 1);
        return Err(checked.error);
      }
      chars[i] := checked.value;
      AcceptOneMore(t, start, i - 1);
      assert chars[1..i + 1] == chars[1..i] + [chars[i]];
      pending := pending[1..];
    }
    ReadCheckedTaken(t, start, TailLength);
    assert chars[1..] == chars[1..4];
    return Ok(());
  }

  /** The end of `decode`'s loop body: the four ranks, the five bytes, and as many of them as the padding allows written out. */
  method WriteGroup(t: Table, chars: array<Scalar>, destination: VecWriter) returns (len: nat)
    requires Valid(t) && chars.Length == 4
    modifies destination
    ensures destination.bytes == old(destination.bytes) + DecodeGroup(t, chars[..])
    ensures len == |DecodeGroup(t, chars[..])|
  {
    var bits1, bits2, bits3 := Rank(t, chars[0]), Rank(t, chars[1]), Rank(t, chars[2]);
    var bits4 := LastRank(t, chars[3]);
    var out := GroupOctets(bits1, bits2, bits3, bits4);
    len := GroupLength(t, chars[..]);
    destination.WriteAll(out[..len]);
  }

  /**
   * One pass of `decode`'s loop: `None` when the stream ends before a group,
   * the error that ends `decode`, or the number of bytes of one decoded
   * group, written out; in each case `DecodeStream` of the items before is
   * what was written now followed by `DecodeStream` of the items after.
   */
  method DecodeNextGroup(t: Table, input: Chars, destination: VecWriter) returns (r: Option<Result<nat, ErrorKind>>)
    requires Valid(t)
    modifies input.inner, destination
    ensures var d := DecodeStream(t, Items(old(input.inner.rest)));
      match r
      case None => old(input.inner.rest) == [] && input.inner.rest == [] && destination.bytes == old(destination.bytes)
      case Some(Err(k)) => d == Decoded([], Some(k), Items(input.inner.rest)) && destination.bytes == old(destination.bytes)
      case Some(Ok(n)) =>
        var next := DecodeStream(t, Items(input.inner.rest));
        && |input.inner.rest| < |old(input.inner.rest)| && n <= |d.written|
        && destination.bytes == old(destination.bytes) + d.written[..n]
        && d == Decoded(d.written[..n] + next.written, next.error, next.rest)
  {
    ghost var bs := input.inner.rest;
    var chars := new Scalar[4];
    var c := input.Next();
    if c.None? {
      return None;
    }
    ItemsStep(bs);
    ghost var items := Items(bs);
    var checked := CheckChar(t, c.value);
    if checked.Err? {
      DecodeStreamFirstFails(t, items);
      return Some(Err(checked.error));
    }
    chars[0] := checked.value;
    var tail := ReadGroupTail(t, input, chars);
    if tail.Err? {
      DecodeStreamTailFails(t, items);
      return Some(Err(tail.error));
    }
    DecodeStreamGroup(t, items);
    assert chars[..] == [checked.value] + ReadChecked(t, items[1..], TailLength).chars.value;
    var len := WriteGroup(t, chars, destination);
    return Some(Ok(len));
  }

  /** Bytes moved from what is still to be written to what has been written. */
  lemma ConcatShift(before: seq<byte>, rest: seq<byte>, n: nat, later: seq<byte>)
    requires n <= |rest| && rest == rest[..n] + later
    ensures before + rest == (before + rest[..n]) + later
  {
  }

  /** `decode`: decodes the whole source and returns the number of bytes written, or the error it met. */
  method Decode(t: Table, source: SliceReader, destination: VecWriter) returns (r: Result<nat, ErrorKind>)
    requires Valid(t)
    modifies source, destination
    ensures var d := DecodeStream(t, Items(old(source.rest)));
      && destination.bytes == old(destination.bytes) + d.written
      && Items(source.rest) == d.rest
      && r == (if d.error.None? then Ok(|d.written|) else Err(d.error.value))
  {
    ghost var whole, written := DecodeStream(t, Items(source.rest)), destination.bytes;
    var input := new Chars(source);
    var bytesWritten := 0;
    while true
      invariant input.inner == source
      invariant var d := DecodeStream(t, Items(source.rest));
        && written + whole.written == destination.bytes + d.written
        && d.error == whole.error && d.rest == whole.rest
      invariant bytesWritten == |destination.bytes| - |written|
      decreases |source.rest|
    {
      ghost var before, d := destination.bytes, DecodeStream(t, Items(source.rest));
      var step := DecodeNextGroup(t, input, destination);
      match step {
        case None => break;
        case Some(Err(k)) => return Err(k);
        case Some(Ok(len)) =>
          ConcatShift(before, d.written, len, DecodeStream(t, Items(source.rest)).written);
          bytesWritten := bytesWritten + len;
      }
    }
    return Ok(bytesWritten);
  }

  /** `decode_to_vec`: the decoded bytes, or the error `decode` met. */
  method DecodeToVec(t: Table, source: SliceReader) returns (r: Result<seq<byte>, ErrorKind>)
    requires Valid(t)
    modifies source
    ensures var d := DecodeStream(t, Items(old(source.rest)));
      && Items(source.rest) == d.rest
      && r == (if d.error.None? then Ok(d.written) else Err(d.error.value))
  {
    ghost var d := DecodeStream(t, Items(source.rest));
    var output := new VecWriter();
    var n := Decode(t, source, output);
    assert output.bytes == [] + d.written == d.written;
    if n.Err? {
      return Err(n.error);
    }
    return Ok(output.bytes);
  }

  /**
   * `decode_to_string`: the decoded bytes when they are well-formed UTF-8,
   * `InvalidData` when they are not, or the error `decode` met.
   */
  method DecodeToString(t: Table, source: SliceReader) returns (r: Result<seq<byte>, ErrorKind>)
    requires Valid(t)
    modifies source
    ensures var d := DecodeStream(t, Items(old(source.rest)));
      && Items(source.rest) == d.rest
      && r == (if d.error.Some? then Err(d.error.value)
               else if ValidUtf8(d.written) then Ok(d.written)
               else Err(InvalidData))
  {
    var output := DecodeToVec(t, source);
    if output.Err? {
      return Err(output.error);
    }
    if !ValidUtf8(output.value) {
      return Err(InvalidData);
    }
    return Ok(output.value);
  }
}
