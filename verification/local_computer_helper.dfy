/**
 * The product-key decoders and the "Add or Remove Programs" visibility test
 * of `LocalComputerHelper`.  Both decoders run the long division of the
 * 15-byte key number by 24 in place, once per key letter; they are proved to
 * produce exactly the keys `ProductKey` defines.
 */
module LocalComputerHelper {
  import opened Wrappers
  import opened Bytes
  import opened ProductKey

  // ----- the long division shared by both decoders -----

  /**
   * The inner loop of both decoders: divides the little-endian number held in
   * `number[lo..hi]` by 24 in place, from its most significant byte down, and
   * returns the remainder.
   */
  method DivideBy24(number: array<byte>, lo: nat, hi: nat) returns (rem: int)
    requires lo <= hi <= number.Length
    modifies number
    ensures 0 <= rem < 24
    ensures Value(number[..], lo, hi) == Value(old(number[..]), lo, hi) / 24
    ensures rem == Value(old(number[..]), lo, hi) % 24
    ensures forall k :: 0 <= k < number.Length && !(lo <= k < hi) ==> number[k] == old(number[k])
  {
    ghost var before := number[..];
    rem := 0;
    var j := hi;
    while j > lo
      invariant lo <= j <= hi && 0 <= rem < 24
      invariant forall k :: 0 <= k < j ==> number[k] == before[k]
      invariant forall k :: hi <= k < number.Length ==> number[k] == before[k]
      invariant Value(before, j, hi) == 24 * Value(number[..], j, hi) + rem
    {
      j := j - 1;
      ghost var prev := number[..];
      var b := number[j];
      var current := 256 * rem + b as int;
      QuotientFitsByte(rem, b);
      number[j] := (current / 24) as byte;
      ValueSame(prev, j + 1, number[..], j + 1, hi - j - 1);
      DivisionStep(before, number[..], j, hi, rem, Value(prev, j + 1, hi));
      rem := current % 24;
    }
    DivModUnique(Value(before, lo, hi), 24, Value(number[..], lo, hi), rem);
  }

  /**
   * One byte of the division: with `before[j + 1..hi]` equal to 24 times `v`
   * plus `rem`, storing the quotient of `256 * rem + before[j]` at `j` keeps
   * the division exact one byte further down.
   */
  lemma DivisionStep(before: seq<byte>, now: seq<byte>, j: nat, hi: nat, rem: int, v: nat)
    requires j < hi <= |before| && hi <= |now| && 0 <= rem < 24
    requires Value(before, j + 1, hi) == 24 * v + rem
    requires Value(now, j + 1, hi) == v
    requires now[j] as int == (256 * rem + before[j] as int) / 24
    ensures Value(before, j, hi) == 24 * Value(now, j, hi) + (256 * rem + before[j] as int) % 24
  {
    var b := before[j] as int;
    assert b + 256 * (24 * v + rem) == 24 * ((256 * rem + b) / 24 + 256 * v) + (256 * rem + b) % 24;
  }

  // ----- keys before Windows 8 -----

  /** Start of the key number in the `DigitalProductId` value. */
  const KeyStartIndex := 52
  /** Number of bytes of the key number. */
  const DecodeStringLength := 15
  /** Length of a decoded key, dashes included. */
  const DecodeLength := 29

  /**
   * The copy of bytes 52 to 67 the pre-Windows 8 decoder divides: its first
   * 15 bytes hold the key number; the sixteenth, byte 67, is copied but
   * never read again.
   */
  method CopyKeyBytes(digitalProductId: array<byte>) returns (hexPid: array<byte>)
    requires digitalProductId.Length > KeyStartIndex + DecodeStringLength
    ensures fresh(hexPid) && hexPid.Length == DecodeStringLength + 1
    ensures Value(hexPid[..], 0, DecodeStringLength) ==
      Value(digitalProductId[..], KeyStartIndex, KeyStartIndex + DecodeStringLength)
    ensures hexPid[DecodeStringLength] == digitalProductId[KeyStartIndex + DecodeStringLength]
  {
    hexPid := new byte[DecodeStringLength + 1];
    for i := 0 to DecodeStringLength + 1
      invariant forall k :: 0 <= k < i ==> hexPid[k] == digitalProductId[KeyStartIndex + k]
    {
      hexPid[i] := digitalProductId[KeyStartIndex + i];
    }
    ValueSame(hexPid[..], 0, digitalProductId[..], KeyStartIndex, DecodeStringLength);
  }

  /**
   * Copies bytes 52 to 67 of the identifier, then fills the 29 key positions
   * from the right: a dash at every sixth, otherwise the letter of the
   * remainder of one division of the copied number by 24.  An identifier too
   * short to hold byte 67 makes the copy fail.
   */
  method DecodeProductKey(digitalProductId: array<byte>) returns (r: Result<string, Exception>)
    ensures digitalProductId.Length <= KeyStartIndex + DecodeStringLength ==> r == Failure(IndexOutOfRangeException)
    ensures digitalProductId.Length > KeyStartIndex + DecodeStringLength ==>
      r == Success(Key(Value(digitalProductId[..], KeyStartIndex, KeyStartIndex + DecodeStringLength), DecodeLength))
  {
    if digitalProductId.Length <= KeyStartIndex + DecodeStringLength {
      return Failure(IndexOutOfRangeException);
    }
    var hexPid := CopyKeyBytes(digitalProductId);
    ghost var n := Value(digitalProductId[..], KeyStartIndex, KeyStartIndex + DecodeStringLength);
    var decodedChars := new char[DecodeLength];
    ghost var key := Key(n, DecodeLength);
    var i := DecodeLength - 1;
    while i >= 0
      invariant -1 <= i < DecodeLength
      invariant Key(Value(hexPid[..], 0, DecodeStringLength), i + 1) == key[..i + 1]
      invariant forall p :: i < p < DecodeLength ==> decodedChars[p] == key[p]
    {
      ghost var written := decodedChars[..];
      DecodeCharAt(hexPid, decodedChars, i, key);
      assert decodedChars[..] == written[i := key[i]];
      i := i - 1;
    }
    assert decodedChars[..] == key;
    r := Success(decodedChars[..]);
  }

  /**
   * One step of the key loop: position `i` gets a dash when `i + 1` is a
   * multiple of 6, and otherwise the letter of the remainder of dividing the
   * key number by 24, the number keeping the quotient.
   */
  method DecodeCharAt(hexPid: array<byte>, decodedChars: array<char>, i: int, ghost key: string)
    requires hexPid.Length == 16 && decodedChars.Length == DecodeLength == |key| && 0 <= i < DecodeLength
    requires Key(Value(hexPid[..], 0, hexPid.Length - 1), i + 1) == key[..i + 1]
    modifies hexPid, decodedChars
    ensures decodedChars[..] == old(decodedChars[..])[i := key[i]]
    ensures Key(Value(hexPid[..], 0, hexPid.Length - 1), i) == key[..i]
    ensures (i + 1) % 6 == 0 ==> hexPid[..] == old(hexPid[..])
    ensures (i + 1) % 6 != 0 ==>
      Value(hexPid[..], 0, hexPid.Length - 1) == old(Value(hexPid[..], 0, hexPid.Length - 1)) / 24 &&
      hexPid[hexPid.Length - 1] == old(hexPid[hexPid.Length - 1])
  {
    ghost var m := Value(hexPid[..], 0, hexPid.Length - 1);
    if (i + 1) % 6 == 0 {
      KeyDashStep(m, i + 1, key);
      decodedChars[i] := '-';
    } else {
      KeyLetterStep(m, i + 1, key);
      ghost var written := decodedChars[..];
      var digitMapIndex := DivideBy24(hexPid, 0, hexPid.Length - 1);
      assert digitMapIndex == m % 24;
      assert decodedChars[..] == written;
      decodedChars[i] := Alphabet[digitMapIndex];
    }
  }

  /** Building a key from the right: position `len - 1` is a dash when `len % 6 == 0`. */
  lemma KeyDashStep(m: nat, len: nat, key: string)
    requires 0 < len <= |key| && len % 6 == 0 && Key(m, len) == key[..len]
    ensures Key(m, len - 1) == key[..len - 1] && key[len - 1] == '-'
  {
    assert key[..len] == key[..len - 1] + [key[len - 1]];
  }

  /** Otherwise it is the letter of `m % 24`, and the rest is built from `m / 24`. */
  lemma KeyLetterStep(m: nat, len: nat, key: string)
    requires 0 < len <= |key| && len % 6 != 0 && Key(m, len) == key[..len]
    ensures Key(m / 24, len - 1) == key[..len - 1] && key[len - 1] == Alphabet[m % 24]
  {
    assert key[..len] == key[..len - 1] + [key[len - 1]];
  }

  // ----- keys of Windows 8 and later -----

  /** Start of the key number in the `DigitalProductId` value. */
  const KeyOffset := 52

  /**
   * Clears bit 3 of byte 66, divides the key number in place by 24 once per
   * letter, 25 times, then drops the leading letter, inserts `N` at the
   * position the leading digit names and inserts a dash after every five
   * characters.  An identifier too short to hold byte 66 fails before
   * anything is written.
   */
  method DecodeProductKeyWin8AndUp(digitalProductId: array<byte>) returns (r: Result<string, Exception>)
    modifies digitalProductId
    ensures digitalProductId.Length <= 66 ==>
      r == Failure(IndexOutOfRangeException) && digitalProductId[..] == old(digitalProductId[..])
    ensures digitalProductId.Length > 66 ==>
      r == Success(Win8Key(Value(MarkedId(old(digitalProductId[..])), KeyOffset, KeyOffset + 15)))
    ensures digitalProductId.Length > 66 ==>
      Value(digitalProductId[..], KeyOffset, KeyOffset + 15) ==
      Shift(Value(MarkedId(old(digitalProductId[..])), KeyOffset, KeyOffset + 15), 25)
    ensures forall k :: 0 <= k < digitalProductId.Length && !(KeyOffset <= k < KeyOffset + 15) ==>
      digitalProductId[k] == old(digitalProductId[k])
  {
    if digitalProductId.Length <= 66 {
      return Failure(IndexOutOfRangeException);
    }
    digitalProductId[66] := MarkWin8Byte(digitalProductId[66]);
    assert digitalProductId[..] == MarkedId(old(digitalProductId[..]));
    var key, last := DivideIntoLetters(digitalProductId);
    var keypart1 := key[1..1 + last];
    var keypart2 := key[last + 1..];
    key := keypart1 + "N" + keypart2;
    key := InsertDashes(key);
    r := Success(key);
  }

  /**
   * The main loop of the Windows 8 decoder: 25 in-place divisions of the key
   * number by 24, each remainder's letter prepended to the key; `last` is the
   * remainder of the final division, the leading digit.
   */
  method DivideIntoLetters(digitalProductId: array<byte>) returns (key: string, last: int)
    requires digitalProductId.Length >= KeyOffset + 15
    modifies digitalProductId
    ensures key == Letters(Value(old(digitalProductId[..]), KeyOffset, KeyOffset + 15))
    ensures last == Digits(Value(old(digitalProductId[..]), KeyOffset, KeyOffset + 15), 25)[0]
    ensures Value(digitalProductId[..], KeyOffset, KeyOffset + 15) ==
      Shift(Value(old(digitalProductId[..]), KeyOffset, KeyOffset + 15), 25)
    ensures forall k :: 0 <= k < digitalProductId.Length && !(KeyOffset <= k < KeyOffset + 15) ==>
      digitalProductId[k] == old(digitalProductId[k])
  {
    ghost var n := Value(digitalProductId[..], KeyOffset, KeyOffset + 15);
    key := "";
    last := 0;
    ghost var ds: seq<int> := [];
    var i := 24;
    while i >= 0
      invariant -1 <= i <= 24 && |ds| == 24 - i && 0 <= last < 24
      invariant forall k :: 0 <= k < |ds| ==> 0 <= ds[k] < 24
      invariant Value(digitalProductId[..], KeyOffset, KeyOffset + 15) == Shift(n, 24 - i)
      invariant Digits(n, 25) == Digits(Shift(n, 24 - i), i + 1) + ds
      invariant key == Spell(ds)
      invariant |ds| > 0 ==> last == ds[0]
      invariant forall k :: 0 <= k < digitalProductId.Length && !(KeyOffset <= k < KeyOffset + 15) ==>
        digitalProductId[k] == old(digitalProductId[k])
    {
      ghost var m := Shift(n, 24 - i);
      DigitStep(n, i, ds);
      var current := DivideBy24(digitalProductId, KeyOffset, KeyOffset + 15);
      assert current == m % 24;
      last := current;
      SpellCons(current, ds);
      key := [Alphabet[current]] + key;
      ds := [current] + ds;
      i := i - 1;
    }
    assert ds == Digits(n, 25);
  }

  /**
   * The final loop of the Windows 8 decoder: inserts a dash at positions 5,
   * 11, 17 and 23 of the 25-letter key, one at a time, giving the key in
   * five groups of five.
   */
  method InsertDashes(letters: string) returns (key: string)
    requires |letters| == 25
    ensures key == Grouped(letters)
  {
    key := letters;
    var i := 5;
    ghost var groups := 0;
    while i < |key|
      invariant 0 <= groups <= 4 && i == 5 + 6 * groups
      invariant key == Grouped(letters[..5 * groups + 5]) + letters[5 * groups + 5..]
      decreases |key| - i
    {
      GroupStep(letters, groups);
      key := key[..i] + "-" + key[i..];
      i := i + 6;
      groups := groups + 1;
    }
    assert letters[..25] == letters;
  }

  /** One more division by 24 moves the lowest remaining digit to the front of the digits taken. */
  lemma DigitStep(n: nat, i: nat, ds: seq<int>)
    requires i <= 24 && Digits(n, 25) == Digits(Shift(n, 24 - i), i + 1) + ds
    ensures Shift(n, 25 - i) == Shift(n, 24 - i) / 24
    ensures Digits(n, 25) == Digits(Shift(n, 25 - i), i) + ([Shift(n, 24 - i) % 24] + ds)
  {
    var m := Shift(n, 24 - i);
    assert Digits(m, i + 1) == Digits(m / 24, i) + [m % 24];
  }

  /** Prepending a digit prepends its letter. */
  lemma SpellCons(d: int, ds: seq<int>)
    requires 0 <= d < 24 && forall k :: 0 <= k < |ds| ==> 0 <= ds[k] < 24
    ensures Spell([d] + ds) == [Alphabet[d]] + Spell(ds)
  {
    var s, t := Spell([d] + ds), [Alphabet[d]] + Spell(ds);
    assert forall k :: 0 <= k < |s| ==> s[k] == t[k];
  }

  /**
   * Inserting the dash after the first `groups + 1` groups of the marked key
   * extends the grouped prefix by one group.
   */
  lemma GroupStep(marked: string, groups: nat)
    requires |marked| == 25 && groups < 4
    ensures var j := 5 * groups + 5;
      var key := Grouped(marked[..j]) + marked[j..];
      |Grouped(marked[..j])| == 6 * groups + 5 &&
      key[..6 * groups + 5] + "-" + key[6 * groups + 5..] == Grouped(marked[..j + 5]) + marked[j + 5..]
  {
    var j := 5 * groups + 5;
    var u, v := marked[..j], marked[j..j + 5];
    GroupedAppend(u, v);
    assert u + v == marked[..j + 5];
    assert marked[j..] == v + marked[j + 5..];
    var key := Grouped(u) + marked[j..];
    assert key[..6 * groups + 5] == Grouped(u);
    assert key[6 * groups + 5..] == marked[j..];
  }

  // ----- installed programs -----

  /** The kinds of value a registry key can hold. */
  datatype RegistryValue =
    | StringValue(text: string)
    | ExpandStringValue(text: string)
    | MultiStringValue(lines: seq<string>)
    | DWordValue(dword: int)
    | QWordValue(qword: int)
    | BinaryValue(bytes: seq<byte>)

  /** A registry key, as the names of its values and the values. */
  type RegistryKey = map<string, RegistryValue>

  /** `GetValue`: the value of that name, or null when the key has none. */
  function GetValue(subkey: RegistryKey, name: string): Option<RegistryValue> {
    if name in subkey then Some(subkey[name]) else None
  }

  /** The `(string)` cast: null stays null, a string value is its text, anything else fails. */
  function AsString(v: Option<RegistryValue>): (r: Result<Option<string>, Exception>)
    ensures r.Failure? <==> v.Some? && !v.value.StringValue? && !v.value.ExpandStringValue?
    ensures r.Failure? ==> r.error == InvalidCastException
    ensures r == Success(None) <==> v.None?
    ensures r.Success? && v.Some? ==> r.value == Some(v.value.text)
  {
    match v
    case None => Success(None)
    case Some(StringValue(t)) => Success(Some(t))
    case Some(ExpandStringValue(t)) => Success(Some(t))
    case Some(_) => Failure(InvalidCastException)
  }

  /** A value that the `(string)` cast rejects. */
  predicate HoldsNonString(subkey: RegistryKey, name: string) {
    name in subkey && !subkey[name].StringValue? && !subkey[name].ExpandStringValue?
  }

  /** The text of a string value, if the key has one of that name. */
  predicate HasText(subkey: RegistryKey, name: string) {
    name in subkey && (subkey[name].StringValue? || subkey[name].ExpandStringValue?) && |subkey[name].text| > 0
  }

  /**
   * Whether an uninstall entry is listed in "Add or Remove Programs": it has
   * a non-empty display name, no release type, no parent and no
   * `SystemComponent` value.  The three names read as strings make the cast
   * fail when they hold a value of another kind.
   */
  function IsProgramVisible(subkey: RegistryKey): (r: Result<bool, Exception>)
    ensures r.Failure? <==>
      HoldsNonString(subkey, "DisplayName") || HoldsNonString(subkey, "ReleaseType") ||
      HoldsNonString(subkey, "ParentDisplayName")
    ensures r.Failure? ==> r.error == InvalidCastException
    ensures r.Success? ==> (r.value <==>
      HasText(subkey, "DisplayName") && !HasText(subkey, "ReleaseType") &&
      !HasText(subkey, "ParentDisplayName") && "SystemComponent" !in subkey)
  {
    match AsString(GetValue(subkey, "DisplayName"))
    case Failure(e) => Failure(e)
    case Success(name) =>
      match AsString(GetValue(subkey, "ReleaseType"))
      case Failure(e) => Failure(e)
      case Success(releaseType) =>
        var systemComponent := GetValue(subkey, "SystemComponent");
        match AsString(GetValue(subkey, "ParentDisplayName"))
        case Failure(e) => Failure(e)
        case Success(parentName) =>
          Success(!IsNullOrEmpty(name) && IsNullOrEmpty(releaseType) && IsNullOrEmpty(parentName) &&
            systemComponent.None?)
  }
}
