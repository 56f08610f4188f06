/**
 * Windows product keys as the registry stores them: bytes 52 to 66 of the
 * `DigitalProductId` value hold a 15-byte little-endian number, and the key
 * is that number written with 25 base-24 digits over a 24-letter alphabet,
 * in five groups of five separated by dashes.  Keys of Windows 8 and later
 * drop the leading digit and mark its value by inserting an `N` at that
 * position.  These are the reference definitions the two decoders of
 * `LocalComputerHelper` are proved against.
 */
module ProductKey {
  import opened Bytes

  /** The 24 key letters; the position of a letter is its digit value. */
  const Alphabet: string := "BCDFGHJKMPQRTVWXY2346789"

  /** The letters that may appear in a key. */
  predicate IsKeyLetter(c: char) {
    c in Alphabet
  }

  /** The separator is not a key letter. */
  lemma DashIsNotKeyLetter()
    ensures !IsKeyLetter('-')
  {
  }

  /** The Windows 8 marker is not a key letter. */
  lemma MarkerIsNotKeyLetter()
    ensures !IsKeyLetter('N')
  {
  }

  // ----- the number and its long division by 24 -----

  /** The number held little-endian in `s[lo..hi]` (`s[lo]` least significant). */
  function Value(s: seq<byte>, lo: nat, hi: nat): nat
    requires lo <= hi <= |s|
    decreases hi - lo
  {
    if lo == hi then 0 else s[lo] as nat + 256 * Value(s, lo + 1, hi)
  }

  /** The number depends only on the bytes of the range, not on where they sit. */
  lemma {:induction false} ValueSame(a: seq<byte>, i: nat, b: seq<byte>, j: nat, n: nat)
    requires i + n <= |a| && j + n <= |b|
    requires forall k :: i <= k < i + n ==> a[k] == b[k - i + j]
    ensures Value(a, i, i + n) == Value(b, j, j + n)
    decreases n
  {
    if n > 0 {
      assert a[i] == b[j];
      ValueSame(a, i + 1, b, j + 1, n - 1);
    }
  }

  /**
   * One step of the long division: with a remainder below 24 carried in, the
   * quotient of `256 * rem + b` by 24 fits in a byte again.
   */
  lemma QuotientFitsByte(rem: int, b: byte)
    requires 0 <= rem < 24
    ensures 0 <= (256 * rem + b as int) / 24 < 256
  {
  }

  /** `24` to the power `k`. */
  function Pow24(k: nat): (p: nat)
    ensures p > 0
  {
    if k == 0 then 1 else 24 * Pow24(k - 1)
  }

  /** `n` divided by 24, `k` times over. */
  function Shift(n: nat, k: nat): nat {
    if k == 0 then n else Shift(n, k - 1) / 24
  }

  /** `n = d * q + r` with `0 <= r < d` fixes the quotient and the remainder. */
  lemma DivModUnique(n: int, d: int, q: int, r: int)
    requires d > 0 && 0 <= r < d && n == d * q + r
    ensures n / d == q && n % d == r
  {
    var q0, r0 := n / d, n % d;
    assert n == d * q0 + r0;
    if q0 > q {
      assert d * q0 >= d * (q + 1) by { MulMonotone(d, q + 1, q0); }
    } else if q0 < q {
      assert d * q >= d * (q0 + 1) by { MulMonotone(d, q0 + 1, q); }
    }
  }

  lemma MulMonotone(d: int, a: int, b: int)
    requires d > 0 && a <= b
    ensures d * a <= d * b
  {
    assert d * b - d * a == d * (b - a);
  }

  /** Dividing by 24 `k` times is dividing by `24^k`. */
  lemma {:induction false} ShiftIsQuotient(n: nat, k: nat)
    ensures Shift(n, k) == n / Pow24(k)
  {
    if k > 0 {
      ShiftIsQuotient(n, k - 1);
      QuotientOfQuotient(n, Pow24(k - 1));
    }
  }

  /** Dividing by `p` and then by 24 is dividing by `24 * p`. */
  lemma QuotientOfQuotient(n: nat, p: nat)
    requires p > 0
    ensures (n / p) / 24 == n / (24 * p)
  {
    var q, r := n / p, n % p;
    var q2, r2 := q / 24, q % 24;
    assert n == (24 * p) * q2 + (p * r2 + r) by {
      assert n == p * q + r;
      assert q == 24 * q2 + r2;
      assert p * q == p * (24 * q2) + p * r2;
      assert p * (24 * q2) == (24 * p) * q2;
    }
    assert 0 <= p * r2 + r < 24 * p by {
      MulMonotone(p, r2, 23);
    }
    DivModUnique(n, 24 * p, q2, p * r2 + r);
  }

  // ----- digits -----

  /** The last `count` base-24 digits of `n`, most significant first. */
  function Digits(n: nat, count: nat): (ds: seq<int>)
    ensures |ds| == count
    ensures forall k :: 0 <= k < count ==> 0 <= ds[k] < 24
  {
    if count == 0 then [] else Digits(n / 24, count - 1) + [n % 24]
  }

  /** The number a digit string denotes, most significant digit first. */
  function DigitsValue(ds: seq<int>): int {
    if |ds| == 0 then 0 else 24 * DigitsValue(ds[..|ds| - 1]) + ds[|ds| - 1]
  }

  /** The digits of `n` denote `n` modulo `24^count`: no digit is lost or misplaced. */
  lemma {:induction false} DigitsRoundTrip(n: nat, count: nat)
    ensures DigitsValue(Digits(n, count)) == n % Pow24(count)
  {
    if count > 0 {
      var ds := Digits(n, count);
      assert ds[..count - 1] == Digits(n / 24, count - 1);
      DigitsRoundTrip(n / 24, count - 1);
      LowDigitsOfQuotient(n, Pow24(count - 1));
    }
  }

  /** The low digits of `n / 24` followed by the last digit of `n` are the low digits of `n`. */
  lemma LowDigitsOfQuotient(n: nat, p: nat)
    requires p > 0
    ensures 24 * ((n / 24) % p) + n % 24 == n % (24 * p)
  {
    var c := (n / 24) % p;
    assert n == (24 * p) * ((n / 24) / p) + (24 * c + n % 24) by {
      assert n / 24 == p * ((n / 24) / p) + c;
      assert 24 * (p * ((n / 24) / p)) == (24 * p) * ((n / 24) / p);
    }
    assert 24 * c + n % 24 < 24 * p by {
      MulMonotone(24, c, p - 1);
    }
    DivModUnique(n, 24 * p, (n / 24) / p, 24 * c + n % 24);
  }

  /** The key letters for digit values. */
  function Spell(ds: seq<int>): (s: string)
    requires forall k :: 0 <= k < |ds| ==> 0 <= ds[k] < 24
    ensures |s| == |ds| && forall k :: 0 <= k < |s| ==> IsKeyLetter(s[k])
  {
    seq(|ds|, k requires 0 <= k < |ds| => Alphabet[ds[k]])
  }

  /** The 25 key letters of `n`, most significant first. */
  function Letters(n: nat): (s: string)
    ensures |s| == 25
  {
    Spell(Digits(n, 25))
  }

  // ----- grouping -----

  /** `s` in groups of five, separated by dashes. */
  function Grouped(s: string): (g: string)
    ensures |g| == if |s| == 0 then 0 else |s| + (|s| - 1) / 5
    decreases |s|
  {
    if |s| <= 5 then s else s[..5] + "-" + Grouped(s[5..])
  }

  /**
   * Grouping a string whose length is a positive multiple of five and then
   * appending a dash and one more group of at most five is grouping the
   * whole: the dashes can be inserted one at a time from the left.
   */
  lemma {:induction false} GroupedAppend(u: string, v: string)
    requires |u| > 0 && |u| % 5 == 0 && 0 < |v| <= 5
    ensures Grouped(u + v) == Grouped(u) + "-" + v
    decreases |u|
  {
    assert (u + v)[..5] == u[..5];
    assert (u + v)[5..] == u[5..] + v;
    if |u| > 5 {
      GroupedAppend(u[5..], v);
    }
  }

  /** Grouping puts a dash at every position `p` with `(p + 1) % 6 == 0`. */
  lemma {:induction false} GroupedDashAt(s: string, p: nat)
    requires p < |Grouped(s)| && (p + 1) % 6 == 0
    ensures Grouped(s)[p] == '-'
    decreases |s|
  {
    if |s| > 5 {
      var rest := s[5..];
      assert Grouped(s) == s[..5] + "-" + Grouped(rest);
      if p > 5 {
        assert Grouped(s)[p] == Grouped(rest)[p - 6];
        GroupedDashAt(rest, p - 6);
      }
    }
  }

  /**
   * Everywhere else grouping keeps the characters of `s`, in order:
   * position `p` is preceded by `p / 6` dashes.
   */
  lemma {:induction false} GroupedCharAt(s: string, p: nat)
    requires p < |Grouped(s)| && (p + 1) % 6 != 0
    ensures p - p / 6 < |s| && Grouped(s)[p] == s[p - p / 6]
    decreases |s|
  {
    if |s| <= 5 {
      assert p / 6 == 0;
    } else {
      var rest := s[5..];
      assert Grouped(s) == s[..5] + "-" + Grouped(rest);
      if p < 5 {
        assert p / 6 == 0;
        assert Grouped(s)[p] == s[p];
      } else {
        assert p > 5;
        GroupedCharAt(rest, p - 6);
        var i := (p - 6) - (p - 6) / 6;
        assert (p - 6) / 6 == p / 6 - 1;
        assert Grouped(s)[p] == Grouped(rest)[p - 6];
        assert rest[i] == s[i + 5];
        assert i + 5 == p - p / 6;
      }
    }
  }

  // ----- the key before Windows 8 -----

  /**
   * Positions `0 .. len - 1` of a key built from the right: a dash where
   * `len % 6 == 0`, otherwise the letter of `n % 24`, after which the rest
   * is built from `n / 24`.
   */
  function Key(n: nat, len: nat): (k: string)
    ensures |k| == len
  {
    if len == 0 then []
    else if len % 6 == 0 then Key(n, len - 1) + ['-']
    else Key(n / 24, len - 1) + [Alphabet[n % 24]]
  }

  /** The key built from the right holds a dash at every position `p` with `(p + 1) % 6 == 0`. */
  lemma {:induction false} KeyDashAt(n: nat, len: nat, p: nat)
    requires p < len && (p + 1) % 6 == 0
    ensures Key(n, len)[p] == '-'
    decreases len
  {
    if p < len - 1 {
      if len % 6 == 0 {
        assert Key(n, len)[p] == Key(n, len - 1)[p];
        KeyDashAt(n, len - 1, p);
      } else {
        assert Key(n, len)[p] == Key(n / 24, len - 1)[p];
        KeyDashAt(n / 24, len - 1, p);
      }
    }
  }

  /**
   * Everywhere else the key built from the right holds the digit letters of
   * `n`, in order: position `p` is preceded by `p / 6` dashes.
   */
  lemma {:induction false} KeyLetterAt(n: nat, len: nat, p: nat)
    requires p < len && (p + 1) % 6 != 0
    ensures Key(n, len)[p] == Alphabet[Digits(n, len - len / 6)[p - p / 6]]
    decreases len
  {
    if len % 6 == 0 {
      KeyLetterAt(n, len - 1, p);
      KeyLetterBeforeDash(n, len, p);
    } else if p < len - 1 {
      KeyLetterAt(n / 24, len - 1, p);
      KeyLetterBeforeLetter(n, len, p);
    } else {
      KeyLastLetter(n, len, p);
    }
  }

  /** `KeyLetterAt` for a position before the dash that ends a group. */
  lemma KeyLetterBeforeDash(n: nat, len: nat, p: nat)
    requires p < len - 1 && (p + 1) % 6 != 0 && len % 6 == 0
    requires Key(n, len - 1)[p] == Alphabet[Digits(n, (len - 1) - (len - 1) / 6)[p - p / 6]]
    ensures Key(n, len)[p] == Alphabet[Digits(n, len - len / 6)[p - p / 6]]
  {
    assert (len - 1) - (len - 1) / 6 == len - len / 6;
    assert Key(n, len)[p] == Key(n, len - 1)[p];
  }

  /** `KeyLetterAt` for a position before the last letter. */
  lemma KeyLetterBeforeLetter(n: nat, len: nat, p: nat)
    requires p < len - 1 && (p + 1) % 6 != 0 && len % 6 != 0
    requires Key(n / 24, len - 1)[p] == Alphabet[Digits(n / 24, (len - 1) - (len - 1) / 6)[p - p / 6]]
    ensures Key(n, len)[p] == Alphabet[Digits(n, len - len / 6)[p - p / 6]]
  {
    var count := len - len / 6;
    var i := p - p / 6;
    assert (len - 1) - (len - 1) / 6 == count - 1;
    assert i < count - 1;
    assert Digits(n, count)[i] == Digits(n / 24, count - 1)[i];
    assert Key(n, len)[p] == Key(n / 24, len - 1)[p];
  }

  /** `KeyLetterAt` for the last position, which holds the lowest digit. */
  lemma KeyLastLetter(n: nat, len: nat, p: nat)
    requires p == len - 1 && len % 6 != 0
    ensures Key(n, len)[p] == Alphabet[Digits(n, len - len / 6)[p - p / 6]]
  {
    var count := len - len / 6;
    assert p - p / 6 == count - 1;
    assert Digits(n, count)[count - 1] == n % 24;
  }

  /** The key of `n`: its 25 digit letters in five dash-separated groups. */
  lemma KeyIsGroupedLetters(n: nat)
    ensures Key(n, 29) == Grouped(Letters(n))
  {
    forall p | 0 <= p < 29 && (p + 1) % 6 == 0
      ensures Key(n, 29)[p] == Grouped(Letters(n))[p]
    {
      KeyDashAt(n, 29, p);
      GroupedDashAt(Letters(n), p);
    }
    forall p | 0 <= p < 29 && (p + 1) % 6 != 0
      ensures Key(n, 29)[p] == Grouped(Letters(n))[p]
    {
      KeyLetterAt(n, 29, p);
      GroupedCharAt(Letters(n), p);
    }
  }

  /**
   * The shape of every key: 29 characters, a dash exactly at positions 5,
   * 11, 17 and 23, a key letter everywhere else.
   */
  lemma KeyFormat(n: nat)
    ensures |Key(n, 29)| == 29
    ensures forall p :: 0 <= p < 29 ==> (Key(n, 29)[p] == '-' <==> (p + 1) % 6 == 0)
    ensures forall p :: 0 <= p < 29 && (p + 1) % 6 != 0 ==> IsKeyLetter(Key(n, 29)[p])
  {
    DashIsNotKeyLetter();
    forall p | 0 <= p < 29
      ensures (p + 1) % 6 == 0 ==> Key(n, 29)[p] == '-'
      ensures (p + 1) % 6 != 0 ==> IsKeyLetter(Key(n, 29)[p])
    {
      if (p + 1) % 6 == 0 { KeyDashAt(n, 29, p); } else { KeyLetterAt(n, 29, p); }
    }
  }

  // ----- the key of Windows 8 and later -----

  /**
   * Byte 66 as the Windows 8 decoder rewrites it: `(b & 0xF7) | (isWin8 & 2) * 4`
   * with `isWin8 = (b / 6) & 1`.
   */
  function MarkWin8Byte(b: byte): byte {
    var x := b as bv8;
    var isWin8 := (x / 6) & 1;
    ((x & 0xF7) | ((isWin8 & 2) * 4)) as byte
  }

  /** `isWin8` is 0 or 1, so the flag term `(isWin8 & 2) * 4` is always 0. */
  lemma FlagTermVanishes(x: bv8)
    ensures (x & 0xF7) | ((((x / 6) & 1) & 2) * 4) == x & 0xF7
  {
  }

  /** A bit pattern read back from a byte is the pattern itself. */
  lemma ByteRoundTrip(y: bv8)
    ensures (y as byte) as bv8 == y
  {
  }

  /**
   * The rewrite only clears bit 3 of the byte and keeps the other seven bits:
   * the Windows 8 flag it computes never reaches the result.
   */
  lemma MarkWin8ByteClearsBit3(b: byte)
    ensures MarkWin8Byte(b) as bv8 == (b as bv8) & 0xF7
  {
    var x := b as bv8;
    FlagTermVanishes(x);
    ByteRoundTrip(x & 0xF7);
  }

  /** The identifier with byte 66 rewritten, as the Windows 8 decoder divides it. */
  function MarkedId(id: seq<byte>): (m: seq<byte>)
    requires |id| >= 67
    ensures |m| == |id|
  {
    id[66 := MarkWin8Byte(id[66])]
  }

  /** The 25 letters with the leading one dropped and `N` inserted at index `last`. */
  function MarkLeading(s: string, last: int): (t: string)
    requires |s| == 25 && 0 <= last < 24
    ensures |t| == 25
  {
    s[1..1 + last] + "N" + s[last + 1..]
  }

  /** The Windows 8 key of `n`; `last` is the leading digit of `n`. */
  function Win8Key(n: nat): (k: string)
    ensures |k| == 29
  {
    Grouped(MarkLeading(Letters(n), Digits(n, 25)[0]))
  }

  /** Where the `N` lands in the grouped key when it is inserted at `last`. */
  function MarkerPosition(last: int): int {
    last + last / 5
  }

  /** One position of a Windows 8 key, as `Win8KeyFormat` and `Win8KeyRecovers` state it. */
  lemma Win8KeyAt(n: nat, p: nat)
    requires p < 29
    ensures (p + 1) % 6 == 0 ==> Win8Key(n)[p] == '-'
    ensures (p + 1) % 6 != 0 && p < MarkerPosition(Digits(n, 25)[0]) ==>
      Win8Key(n)[p] == Letters(n)[p - p / 6 + 1]
    ensures (p + 1) % 6 != 0 && p == MarkerPosition(Digits(n, 25)[0]) ==> Win8Key(n)[p] == 'N'
    ensures (p + 1) % 6 != 0 && p > MarkerPosition(Digits(n, 25)[0]) ==>
      Win8Key(n)[p] == Letters(n)[p - p / 6]
  {
    var last := Digits(n, 25)[0];
    var t := MarkLeading(Letters(n), last);
    if (p + 1) % 6 == 0 {
      GroupedDashAt(t, p);
    } else {
      GroupedCharAt(t, p);
      var i := p - p / 6;
      assert Win8Key(n)[p] == t[i];
      assert i < last <==> p < MarkerPosition(last);
      assert i == last <==> p == MarkerPosition(last);
    }
  }

  /**
   * The shape of every Windows 8 key: 29 characters, dashes exactly at
   * positions 5, 11, 17 and 23, exactly one `N`, whose position spells the
   * dropped leading digit, and key letters everywhere else.
   */
  lemma Win8KeyFormat(n: nat)
    ensures |Win8Key(n)| == 29
    ensures forall p :: 0 <= p < 29 ==> (Win8Key(n)[p] == '-' <==> (p + 1) % 6 == 0)
    ensures forall p :: 0 <= p < 29 ==> (Win8Key(n)[p] == 'N' <==> p == MarkerPosition(Digits(n, 25)[0]))
    ensures forall p :: 0 <= p < 29 && (p + 1) % 6 != 0 && p != MarkerPosition(Digits(n, 25)[0]) ==>
      IsKeyLetter(Win8Key(n)[p])
  {
    var last := Digits(n, 25)[0];
    DashIsNotKeyLetter();
    MarkerIsNotKeyLetter();
    assert (MarkerPosition(last) + 1) % 6 != 0;
    forall p | 0 <= p < 29
      ensures Win8Key(n)[p] == '-' <==> (p + 1) % 6 == 0
      ensures Win8Key(n)[p] == 'N' <==> p == MarkerPosition(last)
      ensures (p + 1) % 6 != 0 && p != MarkerPosition(last) ==> IsKeyLetter(Win8Key(n)[p])
    {
      Win8KeyAt(n, p);
    }
  }

  /**
   * The Windows 8 key loses nothing: every letter of the grouped key other
   * than the marker is the digit letter it stands for, so the 24 trailing
   * digits are read off in order and the leading one from the marker.
   */
  lemma Win8KeyRecovers(n: nat)
    ensures forall p :: 0 <= p < 29 && (p + 1) % 6 != 0 && p < MarkerPosition(Digits(n, 25)[0]) ==>
      Win8Key(n)[p] == Letters(n)[p - p / 6 + 1]
    ensures forall p :: 0 <= p < 29 && (p + 1) % 6 != 0 && p > MarkerPosition(Digits(n, 25)[0]) ==>
      Win8Key(n)[p] == Letters(n)[p - p / 6]
  {
    forall p | 0 <= p < 29 {
      Win8KeyAt(n, p);
    }
  }
}
