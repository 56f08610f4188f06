/**
 * The MD5 string helpers: the validator for hash text and the hash text of
 * a string.  The digest computation (UTF-8 encoding and MD5) is a function
 * parameter that returns 16 bytes.  The hex loop of `GetMd5Hash` spells the
 * loop index instead of the digest byte, so the text it builds is the same
 * for every input; `GetMd5HashOfDigest` is the loop as evidently intended.
 */
module MD5Helper {
  import opened Wrappers
  import opened Bytes

  /** An MD5 digest: always 16 bytes. */
  type Digest = d: seq<byte> | |d| == 16 witness [0, 0, 0, 0, 0, 0, 0, 0, 0, 0, 0, 0, 0, 0, 0, 0]

  // ----- validation -----

  /** `$` without the multiline option: the end of the text, or just before a final newline. */
  predicate AtEnd(s: string, i: nat) {
    i == |s| || (i + 1 == |s| && s[i] == '\n')
  }

  /** Whether `[0-9a-fA-F]{count}$` matches `s` from position `i`. */
  function MatchHexRun(s: string, i: nat, count: nat): (b: bool)
    requires i <= |s|
    ensures b <==>
      i + count <= |s| && (forall k :: i <= k < i + count ==> IsHexChar(s[k])) && AtEnd(s, i + count)
    decreases count
  {
    if count == 0 then AtEnd(s, i)
    else i < |s| && IsHexChar(s[i]) && MatchHexRun(s, i + 1, count - 1)
  }

  /**
   * Whether the text is an MD5 hash: null and empty text is not; otherwise
   * the pattern `^[0-9a-fA-F]{32}$` must match, so 32 hexadecimal digits of
   * either case, optionally followed by one final newline.
   */
  function IsValidMd5(str: Option<string>): (r: bool)
    ensures IsNullOrEmpty(str) ==> !r
    ensures r <==>
      str.Some? && (|str.value| == 32 || (|str.value| == 33 && str.value[32] == '\n')) &&
      forall k :: 0 <= k < 32 ==> IsHexChar(str.value[k])
  {
    if IsNullOrEmpty(str) then false else MatchHexRun(str.value, 0, 32)
  }

  // ----- spelling bytes in hexadecimal -----

  /** Bytes in lower-case hexadecimal, two digits each, first byte first. */
  function HexString(data: seq<byte>): (s: string)
    ensures |s| == 2 * |data|
  {
    if |data| == 0 then "" else HexString(data[..|data| - 1]) + Hex2(data[|data| - 1] as int, false)
  }

  /** Every character of a spelling is a lower-case hexadecimal digit. */
  lemma {:induction false} HexStringIsLowerHex(data: seq<byte>)
    ensures forall k :: 0 <= k < 2 * |data| ==>
      IsHexChar(HexString(data)[k]) && !('A' <= HexString(data)[k] <= 'F')
  {
    if |data| > 0 {
      var front := data[..|data| - 1];
      HexStringIsLowerHex(front);
      assert HexString(data) == HexString(front) + Hex2(data[|data| - 1] as int, false);
    }
  }

  /** Pair `k` of the spelling is the two digits of byte `k`. */
  lemma {:induction false} HexStringPair(data: seq<byte>, k: nat)
    requires k < |data|
    ensures HexString(data)[2 * k..2 * k + 2] == Hex2(data[k] as int, false)
  {
    var front := data[..|data| - 1];
    if k < |data| - 1 {
      HexStringPair(front, k);
      assert HexString(data)[2 * k..2 * k + 2] == HexString(front)[2 * k..2 * k + 2];
    }
  }

  /** Whether the characters at `2k` and `2k + 1` are hexadecimal digits. */
  predicate HexDigitPair(s: string, k: nat) {
    2 * k + 1 < |s| && IsHexChar(s[2 * k]) && IsHexChar(s[2 * k + 1])
  }

  /** The byte spelled by the digits at `2k` and `2k + 1`. */
  function DigitPairValue(s: string, k: nat): byte
    requires HexDigitPair(s, k)
  {
    (HexValue(s[2 * k]) * 16 + HexValue(s[2 * k + 1])) as byte
  }

  /** Reads a spelling back, one byte per pair of digits. */
  function ParseHex(s: string): (data: seq<byte>)
    requires forall k :: 0 <= k < |s| / 2 ==> HexDigitPair(s, k)
    ensures |data| == |s| / 2
  {
    seq(|s| / 2, k requires 0 <= k < |s| / 2 => DigitPairValue(s, k))
  }

  /** Reading the spelling back gives the bytes: no two byte strings share a spelling. */
  lemma ParseHexString(data: seq<byte>)
    ensures var s := HexString(data);
      (forall k :: 0 <= k < |s| / 2 ==> HexDigitPair(s, k)) && ParseHex(s) == data
  {
    var s := HexString(data);
    forall k | 0 <= k < |data|
      ensures HexDigitPair(s, k) && DigitPairValue(s, k) == data[k]
    {
      HexStringPair(data, k);
      var h := Hex2(data[k] as int, false);
      assert s[2 * k] == h[0] && s[2 * k + 1] == h[1];
    }
  }

  // ----- the hash text, as written -----

  /** The bytes 0, 1, ..., n - 1: the loop indices the hex loop spells. */
  function IndexBytes(n: nat): (s: seq<byte>)
    requires n <= 256
    ensures |s| == n && forall k :: 0 <= k < n ==> s[k] as int == k
  {
    if n == 0 then [] else IndexBytes(n - 1) + [(n - 1) as byte]
  }

  /**
   * Computes the digest of the input, then appends `i.ToString("x2")` for
   * every index `i` of the digest: pair `k` of the text spells `k`, whatever
   * the digest holds, so every input gets "000102030405060708090a0b0c0d0e0f".
   */
  method GetMd5Hash(computeHash: string -> Digest, input: string) returns (hash: string)
    ensures |hash| == 32 && forall k :: 0 <= k < 16 ==> hash[2 * k..2 * k + 2] == Hex2(k, false)
    ensures IsValidMd5(Some(hash))
  {
    var data := computeHash(input);
    hash := "";
    for i := 0 to |data|
      invariant hash == HexString(IndexBytes(i))
    {
      SpellNextIndex(i);
      hash := hash + Hex2(i, false);
    }
    IndexPairs();
    HexStringIsLowerHex(IndexBytes(16));
  }

  /** Spelling one index more appends its two digits. */
  lemma SpellNextIndex(n: nat)
    requires n < 256
    ensures HexString(IndexBytes(n + 1)) == HexString(IndexBytes(n)) + Hex2(n, false)
  {
    assert IndexBytes(n + 1)[..n] == IndexBytes(n);
  }

  /** Pair `k` of the spelling of the indices is the spelling of `k`. */
  lemma IndexPairs()
    ensures forall k :: 0 <= k < 16 ==> HexString(IndexBytes(16))[2 * k..2 * k + 2] == Hex2(k, false)
  {
    forall k | 0 <= k < 16
      ensures HexString(IndexBytes(16))[2 * k..2 * k + 2] == Hex2(k, false)
    {
      HexStringPair(IndexBytes(16), k);
    }
  }

  /** The hash text of a string: the spelling of the indices 0 to 15, whatever the string. */
  method Md5Encypt(computeHash: string -> Digest, str: string) returns (hash: string)
    ensures |hash| == 32 && forall k :: 0 <= k < 16 ==> hash[2 * k..2 * k + 2] == Hex2(k, false)
    ensures IsValidMd5(Some(hash))
  {
    hash := GetMd5Hash(computeHash, str);
  }

  /** The MD5 digest of the empty string, d41d8cd98f00b204e9800998ecf8427e. */
  const EmptyInputDigest: Digest :=
    [0xd4, 0x1d, 0x8c, 0xd9, 0x8f, 0x00, 0xb2, 0x04, 0xe9, 0x80, 0x09, 0x98, 0xec, 0xf8, 0x42, 0x7e]

  /**
   * For the empty string the text built by `GetMd5Hash`, which begins with
   * the spelling "00" of index 0, is not the spelling of its digest, which
   * begins with "d4".
   */
  lemma AsWrittenMissesEmptyInputDigest(hash: string)
    requires |hash| == 32 && hash[0..2] == Hex2(0, false)
    ensures hash != HexString(EmptyInputDigest)
  {
    HexStringPair(EmptyInputDigest, 0);
    assert Hex2(0, false)[0] == '0';
    assert Hex2(0xd4, false)[0] == 'd';
  }

  // ----- the hash text, as intended -----

  /** The hex loop appending each digest byte instead of its index. */
  method GetMd5HashOfDigest(computeHash: string -> Digest, input: string) returns (hash: string)
    ensures hash == HexString(computeHash(input))
  {
    var data := computeHash(input);
    hash := "";
    for i := 0 to |data|
      invariant hash == HexString(data[..i])
    {
      assert data[..i + 1][..i] == data[..i];
      hash := hash + Hex2(data[i] as int, false);
    }
    assert data[..|data|] == data;
  }

  /**
   * The intended hash text is 32 lower-case digits that pass the validator
   * and determine the digest: two inputs get the same text only when their
   * digests are equal.
   */
  lemma DigestTextIsFaithful(a: Digest, b: Digest)
    ensures |HexString(a)| == 32 && IsValidMd5(Some(HexString(a)))
    ensures HexString(a) == HexString(b) ==> a == b
  {
    HexStringIsLowerHex(a);
    ParseHexString(a);
    ParseHexString(b);
  }
}
