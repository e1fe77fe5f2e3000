/**
 * The Ecoji alphabet: 1024 table symbols `EMOJIS`, the reverse map
 * `EMOJIS_REV`, and five sentinels that mark a short final chunk.
 *
 * The build script generates the table from a list of code points that is
 * not part of this model, so the table is a parameter `t`, and what the
 * rest of the crate relies on about it is the predicate `Valid(t)`. What the
 * sort-order property needs in addition is `Ordered(t)`: the list the build
 * script reads is sorted by code point, and both sentinels the build script
 * writes out itself, `PADDING` and `PADDING_40`, lie below every table
 * symbol. `ExampleTable` shows there is a table with both properties.
 */
module Alphabet {
  import opened Utf8
  import opened Bits

  /** `PADDING`, the filler for slots past the end of a short chunk. */
  const PADDING: Scalar := 0x2615

  /** `PADDING_40`, the last slot of a 4-byte chunk whose fourth byte ends in bits 00. */
  const PADDING_40: Scalar := 0x269C

  /** `EMOJIS`, `EMOJIS_REV` and the sentinels `PADDING_41`, `PADDING_42`, `PADDING_43`. */
  datatype Table = Table(emojis: seq<Scalar>, rev: map<Scalar, int>, padding41: Scalar, padding42: Scalar, padding43: Scalar)

  /** `PADDING_4k`, for the low two bits `k` of the fourth byte. */
  function Padding4(t: Table, k: int): Scalar
    requires 0 <= k < 4
  {
    if k == 0 then PADDING_40 else if k == 1 then t.padding41 else if k == 2 then t.padding42 else t.padding43
  }

  /** One of `PADDING_40` .. `PADDING_43`. */
  predicate IsPadding4(t: Table, c: Scalar) {
    c == PADDING_40 || c == t.padding41 || c == t.padding42 || c == t.padding43
  }

  /** What the generated table promises: 1024 symbols and a reverse map that inverts the table and holds nothing else. */
  predicate TableInverse(t: Table) {
    && |t.emojis| == 1024
    && (forall i :: 0 <= i < |t.emojis| ==> t.emojis[i] in t.rev && t.rev[t.emojis[i]] == i)
    && (forall c :: c in t.rev ==> 0 <= t.rev[c] < 1024 && t.emojis[t.rev[c]] == c)
  }

  /** The five sentinels are distinct from each other and from every table symbol. */
  predicate SentinelsApart(t: Table) {
    && PADDING !in t.rev && PADDING_40 !in t.rev
    && t.padding41 !in t.rev && t.padding42 !in t.rev && t.padding43 !in t.rev
    && !IsPadding4(t, PADDING)
    && t.padding41 != PADDING_40 && t.padding42 != PADDING_40 && t.padding43 != PADDING_40
    && t.padding41 != t.padding42 && t.padding41 != t.padding43 && t.padding42 != t.padding43
  }

  predicate Valid(t: Table) {
    TableInverse(t) && SentinelsApart(t)
  }

  /** `is_valid_alphabet_char`: a table symbol or one of the five sentinels. */
  predicate IsValidAlphabetChar(t: Table, c: Scalar) {
    c in t.rev || c == PADDING || IsPadding4(t, c)
  }

  /** With a valid table, the alphabet is `EMOJIS` and the five sentinels, and nothing else. */
  lemma AlphabetChars(t: Table, c: Scalar)
    requires Valid(t)
    ensures IsValidAlphabetChar(t, c) <==>
      (exists i :: 0 <= i < 1024 && t.emojis[i] == c) || c == PADDING || IsPadding4(t, c)
  {
  }

  /** `EMOJIS_REV.get(&c).cloned().unwrap_or(0)`: the table index of `c`, and 0 for anything else. */
  function Rank(t: Table, c: Scalar): (r: int)
    requires Valid(t)
    ensures 0 <= r < 1024
    ensures c !in t.rev ==> r == 0
    ensures forall i :: 0 <= i < 1024 && t.emojis[i] == c ==> r == i
  {
    if c in t.rev then t.rev[c] else 0
  }

  /**
   * The sentinels and the table in code-point order: `PADDING` and
   * `PADDING_40`, which the build script writes out itself, then the list
   * it reads, in which `PADDING_41` was entry 256, `PADDING_42` entry 513
   * and `PADDING_43` entry 770, removed from between the table symbols that
   * surround them now.
   */
  function Lineup(t: Table): (l: seq<Scalar>)
    requires |t.emojis| == 1024
    ensures |l| == 1029
  {
    [PADDING, PADDING_40] + t.emojis[..256] + [t.padding41] + t.emojis[256..512] + [t.padding42]
      + t.emojis[512..768] + [t.padding43] + t.emojis[768..]
  }

  predicate StrictlyIncreasing(s: seq<int>) {
    forall i, j :: 0 <= i < j < |s| ==> s[i] < s[j]
  }

  /**
   * The assumption behind the sort-order property: the sentinels and the
   * table symbols, in the order of `Lineup`, are increasing code points.
   */
  predicate Ordered(t: Table) {
    Valid(t) && StrictlyIncreasing(Lineup(t))
  }

  /** Where a table symbol stands in `Lineup`. */
  function EmojiKey(i: int): (k: int)
    requires 0 <= i < 1024
    ensures 2 <= k < 1029
  {
    i + 2 + i / 256
  }

  /** Where `PADDING_4k` stands in `Lineup`. */
  function Padding4Key(k: int): (key: int)
    requires 0 <= k < 4
    ensures 1 <= key < 1029
  {
    257 * k + 1
  }

  lemma LineupAt(t: Table)
    requires |t.emojis| == 1024
    ensures Lineup(t)[0] == PADDING
    ensures forall k :: 0 <= k < 4 ==> Lineup(t)[Padding4Key(k)] == Padding4(t, k)
    ensures forall i :: 0 <= i < 1024 ==> Lineup(t)[EmojiKey(i)] == t.emojis[i]
  {
    var l, e := Lineup(t), t.emojis;
    forall i | 0 <= i < 1024 ensures l[EmojiKey(i)] == e[i] {
      if i < 256 {
      } else if i < 512 {
        assert l[i + 3] == e[256..512][i - 256];
      } else if i < 768 {
        assert l[i + 4] == e[512..768][i - 512];
      } else {
        assert l[i + 5] == e[768..][i - 768];
      }
    }
  }

  /** Order of table indices and sentinel numbers is code-point order. */
  lemma OrderedKeys(t: Table)
    requires Ordered(t)
    ensures forall i, j :: 0 <= i < j < 1024 ==> t.emojis[i] < t.emojis[j]
    ensures forall i, k :: 0 <= i < 1024 && 0 <= k < 4 && i < 256 * k ==> t.emojis[i] < Padding4(t, k)
    ensures forall i, k :: 0 <= i < 1024 && 0 <= k < 4 && 256 * k <= i ==> Padding4(t, k) < t.emojis[i]
    ensures forall k, k' :: 0 <= k < k' < 4 ==> Padding4(t, k) < Padding4(t, k')
    ensures forall c :: c in t.rev || IsPadding4(t, c) ==> PADDING < c
  {
    LineupAt(t);
    var l := Lineup(t);
    forall i, j | 0 <= i < j < 1024 ensures t.emojis[i] < t.emojis[j] {
      DivLe(i, j, 256);
      assert l[EmojiKey(i)] < l[EmojiKey(j)];
    }
    forall i, k | 0 <= i < 1024 && 0 <= k < 4 && i < 256 * k ensures t.emojis[i] < Padding4(t, k) {
      DivLe(i, 256 * k - 1, 256);
      DivMod(256 * k - 1, 256, k - 1, 255);
      assert l[EmojiKey(i)] < l[Padding4Key(k)];
    }
    forall i, k | 0 <= i < 1024 && 0 <= k < 4 && 256 * k <= i ensures Padding4(t, k) < t.emojis[i] {
      DivLe(256 * k, i, 256);
      DivMod(256 * k, 256, k, 0);
      assert l[Padding4Key(k)] < l[EmojiKey(i)];
    }
    forall k, k' | 0 <= k < k' < 4 ensures Padding4(t, k) < Padding4(t, k') {
      assert l[Padding4Key(k)] < l[Padding4Key(k')];
    }
    forall c | c in t.rev || IsPadding4(t, c) ensures PADDING < c {
      if c in t.rev {
        assert l[0] < l[EmojiKey(t.rev[c])];
      } else if c == PADDING_40 {
        assert l[0] < l[Padding4Key(0)];
      } else if c == t.padding41 {
        assert l[0] < l[Padding4Key(1)];
      } else if c == t.padding42 {
        assert l[0] < l[Padding4Key(2)];
      } else {
        assert l[0] < l[Padding4Key(3)];
      }
    }
  }

  /**
   * A number for every symbol of the alphabet that orders them as their
   * code points do under `Ordered`: `PADDING` first, `PADDING_4k` just
   * before table symbol `256k`, and the table symbols in table order.
   */
  function SymbolKey(t: Table, c: Scalar): (key: int)
    requires Valid(t)
    ensures c == PADDING ==> key == 0
    ensures forall k :: 0 <= k < 4 && c == Padding4(t, k) ==> key == 512 * k + 1
    ensures forall i :: 0 <= i < 1024 && c == t.emojis[i] ==> key == 2 * i + 2
  {
    if c == PADDING then 0
    else if c == PADDING_40 then 1
    else if c == t.padding41 then 513
    else if c == t.padding42 then 1025
    else if c == t.padding43 then 1537
    else 2 * Rank(t, c) + 2
  }

  /** A symbol of the alphabet is `PADDING` (kind 0), `PADDING_4n` (kind 1) or table symbol `n` (kind 2). */
  lemma Classify(t: Table, c: Scalar) returns (kind: int, n: int)
    requires Valid(t) && IsValidAlphabetChar(t, c)
    ensures kind == 0 ==> c == PADDING
    ensures kind == 1 ==> 0 <= n < 4 && c == Padding4(t, n)
    ensures kind == 2 ==> 0 <= n < 1024 && c == t.emojis[n]
    ensures 0 <= kind <= 2
  {
    if c == PADDING {
      kind, n := 0, 0;
    } else if c == PADDING_40 {
      kind, n := 1, 0;
    } else if c == t.padding41 {
      kind, n := 1, 1;
    } else if c == t.padding42 {
      kind, n := 1, 2;
    } else if c == t.padding43 {
      kind, n := 1, 3;
    } else {
      kind, n := 2, t.rev[c];
    }
  }

  /** Under `Ordered`, symbols of the alphabet compare as their keys, and equal keys are equal symbols. */
  lemma SymbolKeyOrder(t: Table, c: Scalar, d: Scalar)
    requires Ordered(t) && IsValidAlphabetChar(t, c) && IsValidAlphabetChar(t, d)
    ensures SymbolKey(t, c) < SymbolKey(t, d) ==> c < d
    ensures SymbolKey(t, c) == SymbolKey(t, d) ==> c == d
  {
    OrderedKeys(t);
    var kc, nc := Classify(t, c);
    var kd, nd := Classify(t, d);
    if kc == 1 && kd == 1 && nc != nd {
      if nc < nd {
        assert Padding4(t, nc) < Padding4(t, nd);
      } else {
        assert Padding4(t, nd) < Padding4(t, nc);
      }
    }
  }

  /** A sample table symbol: code points from U+1F300 on, with a gap after every 256th. */
  function ExampleEmoji(i: int): (c: Scalar)
    requires 0 <= i < 1024
    ensures 0x1F300 <= c < 0x1F800
  {
    0x1F300 + i + i / 256
  }

  /** The index of a sample table symbol, read back from its code point. */
  function ExampleIndex(c: int): int {
    256 * ((c - 0x1F300) / 257) + (c - 0x1F300) % 257
  }

  lemma ExampleIndexInverts(i: int)
    requires 0 <= i < 1024
    ensures ExampleIndex(ExampleEmoji(i)) == i
  {
    DivMod(i, 256, i / 256, i % 256);
    DivMod(ExampleEmoji(i) - 0x1F300, 257, i / 256, i % 256);
  }

  /** A table in which the gaps hold `PADDING_41` .. `PADDING_43`. */
  function ExampleTable(): Table {
    var emojis := seq(1024, i requires 0 <= i < 1024 => ExampleEmoji(i));
    var symbols := set i | 0 <= i < 1024 :: ExampleEmoji(i);
    Table(emojis, map c | c in symbols :: ExampleIndex(c), 0x1F400, 0x1F501, 0x1F602)
  }

  lemma ExampleTableInverse()
    ensures TableInverse(ExampleTable())
  {
    var t := ExampleTable();
    forall i | 0 <= i < 1024 ensures t.emojis[i] in t.rev && t.rev[t.emojis[i]] == i {
      ExampleIndexInverts(i);
    }
    forall c | c in t.rev ensures 0 <= t.rev[c] < 1024 && t.emojis[t.rev[c]] == c {
      var i :| 0 <= i < 1024 && c == ExampleEmoji(i);
      ExampleIndexInverts(i);
    }
  }

  lemma ExampleSentinelsApart()
    ensures SentinelsApart(ExampleTable())
  {
    var t := ExampleTable();
    forall i | 0 <= i < 1024
      ensures ExampleEmoji(i) != t.padding41 && ExampleEmoji(i) != t.padding42 && ExampleEmoji(i) != t.padding43
    {
      DivMod(i, 256, i / 256, i % 256);
    }
  }

  lemma ExampleLineup()
    ensures forall p :: 2 <= p < 1029 ==> Lineup(ExampleTable())[p] == 0x1F300 + p - 2
  {
    var t := ExampleTable();
    var l := Lineup(t);
    forall p | 2 <= p < |l| ensures l[p] == 0x1F300 + p - 2 {
      if p < 258 {
        assert l[p] == t.emojis[p - 2];
      } else if p == 258 {
      } else if p < 515 {
        assert l[p] == t.emojis[256..512][p - 259];
      } else if p == 515 {
      } else if p < 772 {
        assert l[p] == t.emojis[512..768][p - 516];
      } else if p == 772 {
      } else {
        assert l[p] == t.emojis[768..][p - 773];
      }
    }
  }

  /** There is a table with all the promised properties, the order assumption included. */
  lemma ExampleTableOrdered()
    ensures Ordered(ExampleTable())
  {
    ExampleTableInverse();
    ExampleSentinelsApart();
    ExampleLineup();
    var l := Lineup(ExampleTable());
    assert l[0] == PADDING && l[1] == PADDING_40;
  }
}
