# SimpleHelper core, modelled in Dafny

This project models the sequential logic of the SimpleHelper utility library and proves what that logic computes:

- **CRC32.** The `CRC32` class and the file checksum built on it. The constructor fills a 256-entry table from the reflected polynomial 0xEDB88320. `GetCrc32` folds every byte a stream delivers through the table, starting from 0xFFFFFFFF, and complements the result. This is the CRC-32 of IEEE 802.3, clause 3.2.9, also used by ZIP.
- **Product-key decoders.**
  - The two Windows product-key decoders of `LocalComputerHelper` run long division by 24 over the 15-byte little-endian key number stored at offset 52 of `DigitalProductId`, in place, once per key letter.
  - The decoder for Windows 8 and later also clears bit 3 of byte 66 first. It then drops the leading letter, inserts `N` at the position named by the leading digit, and groups the letters in fives.
- **Visibility test.** `IsProgramVisible` decides from an uninstall registry key whether a program appears in "Add or Remove Programs".
- **MD5 helpers.** `IsValidMd5` validates MD5 text, and `GetMd5Hash`/`Md5Encypt` build the hash text of a string.
- **Pagination.** The helpers over `System.Decimal`: `HasDecimal`, `GetIntPart` and `CalculateNumberPage`.
- **Network selection rules.** These pick:
  - the first interface of a kind that is up, and its MAC address text;
  - the last IPv4 address of the host;
  - the first free port of a range.

  `GetPublicIp` of the .NET Standard library is also modelled.

The class `CRC32` exists twice, in `SimpleHelper/FileHelper.cs` and `SimpleHelper.Core/FileHelper.cs`. The two copies are the same code in a different member order, so one model serves both, and the table cites each copy.

The two `NetworkHelper.cs` files differ:
- `GetFreePortInRange` exists only in `SimpleHelper`.
- `GetPublicIp` downloads text in `SimpleHelper`, and returns the empty string in `SimpleHelper.Core`. Only the latter is modelled.
- `GetLocalIp` obtains the host entry with `Dns.GetHostEntry` in `SimpleHelper` and with `Dns.GetHostEntryAsync(...).Result` in `SimpleHelper.Core`. Both then run the same loop over the address list.
- `GetFirstMacAddress` and `GetMacAddress` are the same code in both files.

The shared network members model the interface loops, the address loop and the MAC formatting, which the two files have in common.

Modules:

| file | module | contents |
|---|---|---|
| `wrappers.dfy` | `Wrappers` | `Option`, `Result`, the exceptions the core throws, `string.IsNullOrEmpty` |
| `bytes.dfy` | `Bytes` | `byte`, hexadecimal digits, `ToString("x2")` / `ToString("X2")` |
| `crc32_spec.dfy` | `Crc32Spec` | bitwise CRC-32 division, the bytewise fold, their agreement, check values |
| `streams.dfy` | `Streams` | a byte stream with the `Stream.Read` contract |
| `file_helper.dfy` | `FileHelper` | class `CRC32` (table array, read loop), `GetCrcFile` |
| `product_key.dfy` | `ProductKey` | the key number, base-24 digits, the key layouts the decoders produce |
| `local_computer_helper.dfy` | `LocalComputerHelper` | both decoders over `array<byte>`, `IsProgramVisible` over a registry key |
| `md5_helper.dfy` | `MD5Helper` | the validator, the hash text as written and as intended |
| `decimal_helper.dfy` | `DecimalHelper` | decimal rounding, truncation and page counts |
| `network_helper.dfy` | `NetworkHelper` | MAC text, interface scans, last IPv4 address, free-port search |

## Model

| member | source | states |
|---|---|---|
| FileHelper.CRC32.constructor | SimpleHelper/FileHelper.cs:143-170 | The table has 256 entries, and entry `i` is `i` after eight steps of "shift right, xor 0xEDB88320 when the low bit was set". The identical copy is at SimpleHelper.Core/FileHelper.cs:50-77. |
| FileHelper.CRC32.UpdateWithBuffer | SimpleHelper/FileHelper.cs:189-193 | Folding the first `count` buffer bytes by table lookup gives the bytewise fold of those bytes from the incoming register. The identical copy is at SimpleHelper.Core/FileHelper.cs:34-38. |
| FileHelper.CRC32.GetCrc32 | SimpleHelper/FileHelper.cs:177-199 | Reads the stream to its end and returns `Crc32` of every byte not yet read: each byte is folded once, in order, however the stream splits them between reads. The identical copy is at SimpleHelper.Core/FileHelper.cs:22-44. |
| FileHelper.FoldOfSuffix | SimpleHelper/FileHelper.cs:197 | The complement of the register after the last byte is `Crc32` of the bytes read. The identical copy is at SimpleHelper.Core/FileHelper.cs:42. |
| FileHelper.IndexRoundTrip | SimpleHelper/FileHelper.cs:191-192 | A table index below 256 is unchanged by its conversion to an array position. |
| FileHelper.GetCrcFile | SimpleHelper/FileHelper.cs:114-121 | The widened checksum is in `[0, 2^32)` and equals `Crc32` of the file's bytes. The identical copy is at SimpleHelper.Core/FileHelper.cs:134-141. |
| Streams.ByteStream.constructor | SimpleHelper/FileHelper.cs:116 | A freshly opened stream is positioned at its first byte. |
| Streams.ByteStream.Read | SimpleHelper/FileHelper.cs:186-194 | `Read` copies at most `count` bytes from the position, advances by the number returned, and returns 0 only at the end or when asked for nothing. |
| Crc32Spec.Step | SimpleHelper/FileHelper.cs:158-165 | One division step: shift right, subtract the polynomial when the bit shifted out was set. That bit becomes the new top bit. |
| Crc32Spec.Rounds | SimpleHelper/FileHelper.cs:156-166 | `k` division steps; a zero register stays zero. `RoundsXor` and `UpdateIsBitwiseDivision` state what the steps compute. |
| Crc32Spec.StepInverse | SimpleHelper/FileHelper.cs:158-165 | A division step is invertible: `Unstep`, which reads the shifted-out bit from the new top bit, gives the register back. |
| Crc32Spec.RoundsInjective | SimpleHelper/FileHelper.cs:156-166 | Registers that agree after `k` division steps were equal before them. |
| Crc32Spec.TableEntriesDistinct | SimpleHelper/FileHelper.cs:153-167 | Distinct indices below 256 have distinct table entries. |
| Crc32Spec.TableEntry | SimpleHelper/FileHelper.cs:153-167 | Entry `i` of the table is `i` after eight division steps; entry 0 is 0. `KnownTableEntries` and `CheckEntries` pin further entries. |
| Crc32Spec.Update | SimpleHelper/FileHelper.cs:191-192 | One byte folded by table lookup: the register shifted right by 8, xor the entry at `b ^ (crc & 0xFF)`. `UpdateIsBitwiseDivision` proves this equals eight bitwise steps on the register xor the byte. |
| Crc32Spec.Fold | SimpleHelper/FileHelper.cs:182-195 | The register after folding `bytes[lo..hi]` one byte at a time, first byte first. `FoldSplit`, `FoldAppend` and `ChunkIndependence` state how it composes. |
| Crc32Spec.Crc32 | SimpleHelper/FileHelper.cs:182-197 | The complement of the fold of all bytes from the preset 0xFFFFFFFF. `CheckValue` and `EmptyChecksum` pin it to the standard values. |
| Crc32Spec.TableIndexInRange | SimpleHelper/FileHelper.cs:191-192 | The lookup index `b ^ (crc & 0xFF)` is always below 256. The identical copy is at SimpleHelper.Core/FileHelper.cs:36-37. |
| Crc32Spec.KnownTableEntries | SimpleHelper/FileHelper.cs:153-167 | Entry 0 is 0, entry 1 is 0x77073096 and entry 128 is 0xEDB88320. |
| Crc32Spec.CheckEntries | SimpleHelper/FileHelper.cs:153-167 | The entries used by the check value, such as 0xCE ↦ 0x7CDCEFB7, have their standard values. |
| Crc32Spec.EmptyChecksum | SimpleHelper/FileHelper.cs:182-197 | An empty stream gives 0, the complement of 0xFFFFFFFF. The identical copy is at SimpleHelper.Core/FileHelper.cs:27-42. |
| Crc32Spec.CheckPrefix3 | SimpleHelper/FileHelper.cs:187-193 | The register after folding "123" is 0x77B79C2D. |
| Crc32Spec.CheckPrefix6 | SimpleHelper/FileHelper.cs:187-193 | The register after folding "123456" is 0xF68D2C9E. |
| Crc32Spec.CheckValue | SimpleHelper/FileHelper.cs:177-199 | The checksum of ASCII "123456789" is the standard check value 0xCBF43926. |
| Crc32Spec.FoldStep | SimpleHelper/FileHelper.cs:191-192 | One table update extends the fold by one byte. |
| Crc32Spec.FoldNextChunk | SimpleHelper/FileHelper.cs:187-195 | Folding a buffer that holds the next bytes of the input extends the fold over those bytes. The identical copy is at SimpleHelper.Core/FileHelper.cs:32-40. |
| Crc32Spec.FoldAppend | SimpleHelper/FileHelper.cs:186-195 | The register after `a + b` is the register after `a` with `b` folded in. |
| Crc32Spec.ChunkIndependence | SimpleHelper/FileHelper.cs:186-195 | Folding the reads one after another equals folding their concatenation, however the bytes were split into reads. The identical copy is at SimpleHelper.Core/FileHelper.cs:31-40. |
| Crc32Spec.RoundsXor | SimpleHelper/FileHelper.cs:156-166 | The division steps distribute over xor: the register is linear. |
| Crc32Spec.UpdateIsBitwiseDivision | SimpleHelper/FileHelper.cs:191-192 | The table-driven update equals eight bitwise division steps applied to the register xor the byte, which is the textbook definition of CRC-32. The identical copy is at SimpleHelper.Core/FileHelper.cs:36-37. |
| LocalComputerHelper.DecodeProductKey | SimpleHelper/LocalComputerHelper.cs:662-701 | Fails with `IndexOutOfRangeException` when the identifier has 67 bytes or fewer. Otherwise returns `Key` of the number in bytes 52..66, and the caller's array is left untouched. |
| LocalComputerHelper.CopyKeyBytes | SimpleHelper/LocalComputerHelper.cs:674-678 | A fresh 16-byte copy of bytes 52..67, holding the same key number. |
| ProductKey.Key | SimpleHelper/LocalComputerHelper.cs:680-699 | The key built from the right, as the decoder builds it. It is `len` characters long; `KeyIsGroupedLetters` proves it is the grouped spelling of the 25 base-24 digits. |
| LocalComputerHelper.DecodeCharAt | SimpleHelper/LocalComputerHelper.cs:683-697 | Position `i` becomes a dash when `(i + 1) % 6 == 0`, and the copied bytes are then unchanged. Otherwise position `i` becomes the letter of the number modulo 24, the number becomes its quotient by 24, and the sixteenth byte is unchanged. The positions still to fill spell the key of the new number. No other character changes. |
| LocalComputerHelper.DivideBy24 | SimpleHelper/LocalComputerHelper.cs:690-697 | In-place long division: the number becomes its quotient by 24, the remainder is returned, and bytes outside the range are unchanged. The Windows 8 decoder runs the same loop at SimpleHelper/LocalComputerHelper.cs:719-727. |
| LocalComputerHelper.DivisionStep | SimpleHelper/LocalComputerHelper.cs:693-695 | One digit step: `256·rem + byte = 24·quotient + newRem` keeps the division invariant. |
| ProductKey.QuotientFitsByte | SimpleHelper/LocalComputerHelper.cs:694 | The quotient `(256·rem + byte) / 24` always fits in a byte. |
| LocalComputerHelper.KeyDashStep | SimpleHelper/LocalComputerHelper.cs:683-685 | Building from the right, a position whose successor is a multiple of 6 holds a dash. |
| LocalComputerHelper.KeyLetterStep | SimpleHelper/LocalComputerHelper.cs:687-696 | Other positions hold the letter of `m % 24`, and the rest is built from `m / 24`. |
| ProductKey.KeyFormat | SimpleHelper/LocalComputerHelper.cs:666-700 | The key has 29 characters, a dash exactly where `(p + 1) % 6 == 0` (positions 5, 11, 17, 23), and a letter of BCDFGHJKMPQRTVWXY2346789 everywhere else. |
| ProductKey.KeyDashAt | SimpleHelper/LocalComputerHelper.cs:683-685 | Every position with `(p + 1) % 6 == 0` is a dash. |
| ProductKey.KeyLetterAt | SimpleHelper/LocalComputerHelper.cs:687-696 | Every other position is the letter of base-24 digit `p - p / 6` of the number. |
| ProductKey.KeyIsGroupedLetters | SimpleHelper/LocalComputerHelper.cs:680-699 | The key is the 25 base-24 digits of the number, spelled in the alphabet and grouped in fives with dashes. |
| ProductKey.DigitsRoundTrip | SimpleHelper/LocalComputerHelper.cs:690-696 | The digits denote the number modulo `24^count`: no digit is lost or misplaced. |
| ProductKey.Digits | SimpleHelper/LocalComputerHelper.cs:690-696 | There are `count` digits, each in `0..23`. |
| ProductKey.Spell | SimpleHelper/LocalComputerHelper.cs:696 | Each digit becomes a letter of the 24-letter alphabet. |
| ProductKey.Letters | SimpleHelper/LocalComputerHelper.cs:717-729 | The letters of a key number are 25 characters. |
| ProductKey.DashIsNotKeyLetter | SimpleHelper/LocalComputerHelper.cs:666-670 | The separator is not a letter of the alphabet. |
| ProductKey.MarkerIsNotKeyLetter | SimpleHelper/LocalComputerHelper.cs:715 | `N` is not a letter of the alphabet, so it marks its position unambiguously. |
| ProductKey.ShiftIsQuotient | SimpleHelper/LocalComputerHelper.cs:717-727 | Dividing by 24 in place `k` times leaves the quotient by `24^k`. |
| ProductKey.MarkWin8Byte | SimpleHelper/LocalComputerHelper.cs:712-713 | The new byte 66: `b & 0xF7` or-ed with `(isWin8 & 2) * 4`, where `isWin8 = (b / 6) & 1`. `MarkWin8ByteClearsBit3` states its effect. |
| ProductKey.MarkWin8ByteClearsBit3 | SimpleHelper/LocalComputerHelper.cs:712-713 | The rewrite of byte 66 clears bit 3 and keeps the other bits, because `isWin8 & 2` is always 0. |
| ProductKey.MarkedId | SimpleHelper/LocalComputerHelper.cs:713 | Marking the identifier keeps its length. |
| LocalComputerHelper.DecodeProductKeyWin8AndUp | SimpleHelper/LocalComputerHelper.cs:708-741 | Fails when byte 66 does not exist, before anything is written. Otherwise returns `Win8Key` of the marked number. Bytes 52..66 end up holding the number divided by 24 twenty-five times, and the caller's other bytes are unchanged. |
| LocalComputerHelper.DivideIntoLetters | SimpleHelper/LocalComputerHelper.cs:716-729 | The 25 divisions spell the letters of the number, most significant first. `last` is the leading digit, and the number is left divided by `24^25`. |
| LocalComputerHelper.DigitStep | SimpleHelper/LocalComputerHelper.cs:720-728 | One more division moves the lowest remaining digit to the front of the digits taken. |
| LocalComputerHelper.SpellCons | SimpleHelper/LocalComputerHelper.cs:728 | Prepending a digit prepends its letter. |
| ProductKey.MarkLeading | SimpleHelper/LocalComputerHelper.cs:731-733 | Dropping the first letter and inserting `N` after `last` letters keeps 25 characters. |
| LocalComputerHelper.InsertDashes | SimpleHelper/LocalComputerHelper.cs:735-738 | Inserting a dash at 5, 11, 17 and 23 groups the 25 characters in fives. |
| LocalComputerHelper.GroupStep | SimpleHelper/LocalComputerHelper.cs:737 | Each insertion extends the grouped prefix by one group. |
| ProductKey.GroupedAppend | SimpleHelper/LocalComputerHelper.cs:735-738 | Grouping a whole number of groups plus one more group adds a dash and that group. |
| ProductKey.Grouped | SimpleHelper/LocalComputerHelper.cs:735-738 | Grouping adds one dash per five characters after the first group. |
| ProductKey.GroupedDashAt | SimpleHelper/LocalComputerHelper.cs:735-738 | The grouped text has a dash at every position `p` with `(p + 1) % 6 == 0`. |
| ProductKey.GroupedCharAt | SimpleHelper/LocalComputerHelper.cs:735-738 | Every other position holds character `p - p / 6` of the ungrouped text. |
| ProductKey.Win8Key | SimpleHelper/LocalComputerHelper.cs:708-741 | The Windows 8 key has 29 characters. |
| ProductKey.Win8KeyAt | SimpleHelper/LocalComputerHelper.cs:731-738 | Position by position: dashes at 5, 11, 17, 23; `N` at the marker position; the letters after the dropped leading letter before it, and the letters in place after it. |
| ProductKey.Win8KeyFormat | SimpleHelper/LocalComputerHelper.cs:715-739 | 29 characters, a dash exactly where `(p + 1) % 6 == 0`, exactly one `N` (at the position `last` names), and alphabet letters elsewhere. |
| ProductKey.Win8KeyRecovers | SimpleHelper/LocalComputerHelper.cs:731-733 | Around the `N`, the key holds the letters of the number in order, with the leading letter dropped. |
| LocalComputerHelper.IsProgramVisible | SimpleHelper/LocalComputerHelper.cs:748-761 | True exactly when DisplayName has text, ReleaseType and ParentDisplayName have none, and there is no SystemComponent value. It fails with `InvalidCastException` exactly when one of the three names holds a non-string value. |
| LocalComputerHelper.AsString | SimpleHelper/LocalComputerHelper.cs:750-754 | The `(string)` cast of a registry value. A missing value gives null, and a string value gives its text. Any other kind fails with `InvalidCastException`, and only those kinds fail. |
| MD5Helper.IsValidMd5 | SimpleHelper.Core/MD5Helper.cs:29-32 | Null and empty text are rejected. Otherwise the text is accepted exactly when it is 32 hexadecimal digits of either case, optionally followed by one final newline (`$` without the multiline option). |
| MD5Helper.MatchHexRun | SimpleHelper.Core/MD5Helper.cs:31 | The pattern `[0-9a-fA-F]{count}$` matches exactly `count` hexadecimal digits followed by the end or a final newline. |
| MD5Helper.GetMd5Hash | SimpleHelper.Core/MD5Helper.cs:34-42 | The text is 32 characters, and pair `k` is the lower-case spelling of the index `k`, whatever the digest. It passes `IsValidMd5`. |
| MD5Helper.Md5Encypt | SimpleHelper.Core/MD5Helper.cs:15-21 | Every input gets "000102…0f", and that text passes `IsValidMd5`. |
| MD5Helper.IndexBytes | SimpleHelper.Core/MD5Helper.cs:38-39 | The values the loop spells are `0, 1, …, n - 1`. |
| MD5Helper.SpellNextIndex | SimpleHelper.Core/MD5Helper.cs:38-39 | Each iteration appends the spelling of its index. |
| MD5Helper.IndexPairs | SimpleHelper.Core/MD5Helper.cs:38-39 | Pair `k` of the 16 spelled indices is the spelling of `k`. |
| MD5Helper.AsWrittenMissesEmptyInputDigest | SimpleHelper.Core/MD5Helper.cs:39 | For the empty string, the text built as written is not the spelling of its digest d41d8cd9…. |
| MD5Helper.GetMd5HashOfDigest | SimpleHelper.Core/MD5Helper.cs:34-42 | With `data[i]` spelled, the text is the hexadecimal spelling of the digest. |
| MD5Helper.DigestTextIsFaithful | SimpleHelper.Core/MD5Helper.cs:34-42 | The intended text is 32 lower-case digits, passes `IsValidMd5`, and determines the digest. |
| MD5Helper.HexString | SimpleHelper.Core/MD5Helper.cs:37-41 | Two characters per byte. |
| MD5Helper.HexStringIsLowerHex | SimpleHelper.Core/MD5Helper.cs:39 | Every character is a lower-case hexadecimal digit. |
| MD5Helper.HexStringPair | SimpleHelper.Core/MD5Helper.cs:38-39 | Pair `k` of the text spells byte `k`. |
| MD5Helper.ParseHex | SimpleHelper.Core/MD5Helper.cs:37-41 | Reading text back gives one byte per pair of digits. |
| MD5Helper.ParseHexString | SimpleHelper.Core/MD5Helper.cs:37-41 | Reading the text back gives the bytes, so no two byte strings share a spelling. |
| Bytes.Hex2 | SimpleHelper.Core/MD5Helper.cs:39 | `ToString("x2")` of a value below 256 is two digits, high nibble first, lower case, denoting the value; the upper-case spelling is the one `BitConverter.ToString` uses at SimpleHelper/NetworkHelper.cs:63. |
| Bytes.HexDigit | SimpleHelper.Core/MD5Helper.cs:39 | A digit below 16 is a hexadecimal character of the requested case. |
| Bytes.HexValue | SimpleHelper.Core/MD5Helper.cs:31 | A hexadecimal character of either case has a value in `0..15`. |
| Bytes.HexDigitValue | SimpleHelper.Core/MD5Helper.cs:31 | Reading a written digit back gives its value. |
| DecimalHelper.HasDecimal | SimpleHelper/DecimalHelper.cs:16-19 | True exactly when the value is not an integer. |
| DecimalHelper.Round | SimpleHelper/DecimalHelper.cs:18 | `Math.Round` gives the nearest integer, exact for integers, and the even one on ties. |
| DecimalHelper.Truncate | SimpleHelper/DecimalHelper.cs:45 | `Math.Truncate` drops the fraction toward zero. |
| DecimalHelper.GetIntPart | SimpleHelper/DecimalHelper.cs:43-46 | Truncates toward zero. It fails with `OverflowException`, rather than wrapping, exactly when the value is not strictly between -2^31 - 1 and 2^31. |
| DecimalHelper.CalculateNumberPage | SimpleHelper/DecimalHelper.cs:28-36 | For a whole value the result is `GetIntPart` of the value. Every failure is an `OverflowException`. |
| DecimalHelper.WholeValuePages | SimpleHelper/DecimalHelper.cs:28-36 | A whole value that fits is its own page count. |
| DecimalHelper.NumberPageIsCeiling | SimpleHelper/DecimalHelper.cs:21-36 | For every value above -1, the page count is the ceiling of the value, defined exactly when it fits in an `int`. |
| DecimalHelper.NumberPageAfterIntPart | SimpleHelper/DecimalHelper.cs:28-36 | The page count is the integer part or one more. |
| NetworkHelper.GetFirstMacAddress | SimpleHelper/NetworkHelper.cs:33-66 | The MAC text of the first interface, in enumeration order, of type `pType` that is up; null when there is none. The identical copy is at SimpleHelper.Core/NetworkHelper.cs:84-117. |
| NetworkHelper.GetMacAddress | SimpleHelper/NetworkHelper.cs:134-170 | The MAC text of the first interface that is up and is Ethernet or Wireless80211, skipping all others; null when there is none. The identical copy is at SimpleHelper.Core/NetworkHelper.cs:41-77. |
| NetworkHelper.FirstMatch | SimpleHelper/NetworkHelper.cs:39-53 | The position found satisfies the test and no earlier one does; none is found only when no element satisfies it. |
| NetworkHelper.FirstMatchIs | SimpleHelper/NetworkHelper.cs:39-53 | The position where the scan stops is the first match. |
| NetworkHelper.FormatMac | SimpleHelper/NetworkHelper.cs:63 | The MAC text of `n` bytes has `3n - 1` characters (none for no bytes). The identical copy is at SimpleHelper.Core/NetworkHelper.cs:74. |
| NetworkHelper.BitConverterToString | SimpleHelper/NetworkHelper.cs:63 | `BitConverter.ToString` gives `3n - 1` characters. |
| NetworkHelper.BitConverterPairAt | SimpleHelper/NetworkHelper.cs:63 | Byte `k` is spelled at `3k`, `3k + 1`, and a dash follows every byte but the last. |
| NetworkHelper.Replace | SimpleHelper/NetworkHelper.cs:63 | `Replace` keeps the length. |
| NetworkHelper.MacPairAt | SimpleHelper/NetworkHelper.cs:167 | Byte `k` is two upper-case digits at `3k`, `3k + 1`, and a colon follows every byte but the last. The identical copy is at SimpleHelper.Core/NetworkHelper.cs:114. |
| NetworkHelper.ParseMac | SimpleHelper/NetworkHelper.cs:167 | Reading MAC text back gives one byte per group of digits. |
| NetworkHelper.ParseFormatMac | SimpleHelper/NetworkHelper.cs:63 | Reading the MAC text back gives the address bytes: the text determines the address. |
| NetworkHelper.GetLocalIp | SimpleHelper/NetworkHelper.cs:115-128 | The text of the last IPv4 address in the host's list, or null when it has none. SimpleHelper.Core/NetworkHelper.cs:22-35 runs the same loop over an address list obtained through `GetHostEntryAsync(...).Result`. |
| NetworkHelper.LastMatch | SimpleHelper/NetworkHelper.cs:119-126 | The position found satisfies the test and no later one does; none is found only when no element satisfies it. |
| NetworkHelper.FamilyName | SimpleHelper/NetworkHelper.cs:122 | `AddressFamily.ToString()`. The name is "InterNetwork" exactly for the IPv4 family. |
| NetworkHelper.InterNetworkNameIsIPv4 | SimpleHelper/NetworkHelper.cs:122 | Comparing the family's name with "InterNetwork" selects exactly the IPv4 addresses. |
| NetworkHelper.GetPublicIp | SimpleHelper.Core/NetworkHelper.cs:146-164 | Always the empty text. |
| NetworkHelper.OpenConnectionPorts | SimpleHelper/NetworkHelper.cs:83 | A port is listed exactly when some connection that is not Closed has it as its local port. |
| NetworkHelper.UsedPorts | SimpleHelper/NetworkHelper.cs:78-85 | A port is in use exactly when a connection that is not Closed has it as its local port, or a TCP or UDP listener has it. |
| NetworkHelper.FirstFreePort | SimpleHelper/NetworkHelper.cs:87-94 | The smallest port of `[start, end)` not in use; none only when every port of the range is in use. |
| NetworkHelper.GetFreePortInRange | SimpleHelper/NetworkHelper.cs:75-100 | Success gives a port of the range that is free, not 0, and has every smaller port of the range in use. It fails with "Out of unused ports" exactly when every port is in use or the first free port is 0. |

## Left out

- Opening files. `GetCrcFile` and `GetCRCFile` take an already opened stream over the file's bytes, with the `FileStream` constructor and its errors left out.
- GetCrc32: a `Read` that fails is not modelled. `ByteStream.Read` always succeeds, whereas `Stream.Read` can throw `IOException`, which `GetCrc32`, `GetCrcFile` and `GetCRCFile` propagate without returning a checksum.
- How many bytes a single `Read` returns. `ByteStream.Read` promises only the `Stream.Read` contract, so the checksum is proved for every way a stream can split its bytes.
- Loop structure. The inner loops of the checksum, of both decoders and of the Windows 8 key assembly are methods of their own: `UpdateWithBuffer`, `DivideBy24`, `CopyKeyBytes`, `DecodeCharAt`, `DivideIntoLetters` and `InsertDashes`. The outer loops call them.
- DecodeProductKey: the source writes `decodedChars[i]` at every step of the division loop. The model writes it once, with the final remainder, which is the value that survives. `hexPid` is a byte array rather than an `ArrayList` of boxed bytes.
- DivideBy24: `(digitMapIndex << 8) | b` is modelled as `256 * digitMapIndex + b`. These are equal because the remainder is below 24 and the byte below 256.
- MarkWin8ByteClearsBit3: stated on the bits of byte 66 only.
- DecodeProductKeyWin8AndUp: the result is stated with `Shift(n, 25)`, twenty-five divisions by 24, rather than with `n / 24^25`. `ShiftIsQuotient` relates the two.
- The registry and WMI queries that produce `DigitalProductId` and the uninstall keys, and the rest of `LocalComputerHelper`. The decoders take the byte array and `IsProgramVisible` takes the key's values as parameters.
- IsProgramVisible: registry value names are compared exactly, not case-insensitively as Windows does.
- Null arguments. Arrays and streams are never null. The null `string` is modelled only where the source handles it: `IsValidMd5`, and the null-or-empty tests of `IsProgramVisible`.
- The MD5 digest and the UTF-8 encoding are a function parameter returning 16 bytes.
- `GetPublicIp` of `SimpleHelper/NetworkHelper.cs`, which downloads text over HTTP with `WebClient`.
- `IsConnectedToInternet`, `GetHostName` and the DNS lookups. The address list is a parameter.
- The enumeration of interfaces, listeners and connections. These lists are parameters, and an interface's physical address is its bytes, since `GetPhysicalAddress` never returns null.
- CalculateNumberPage: decimal arithmetic is exact here, but `System.Decimal` rounds `value + 1` to 28-29 significant digits. When `value + 1` rounds up to the next integer, the program returns the model's result plus one. For example, 6.9999999999999999999999999999 (28 nines) gives 8 in the program and 7 here.
- NumberPageIsCeiling: holds over exact arithmetic only. For inputs like 6.9999999999999999999999999999 the program returns the ceiling plus one.
- NumberPageAfterIntPart: holds over exact arithmetic only. For the same inputs the program's page count is the integer part plus two.
- The model's `Decimal` is every real in `[-decimal.MaxValue, decimal.MaxValue]`, not only the values a decimal can represent. Its `OverflowException` branch for `value + 1 > decimal.MaxValue` is reached only by such unrepresentable values: a real decimal with a fraction has at most 28 integer digits.
- Port numbers are unbounded integers. The loop cannot overflow because the port stays below the range's end.

## Findings

| source | as written | input that shows it | evidently intended | confidence | as-written member | corrected member |
|---|---|---|---|---|---|---|
| SimpleHelper.Core/MD5Helper.cs:39 | `sBuilder.Append(i.ToString("x2"))` spells the loop index | the empty string: its digest is d41d8cd98f00b204e9800998ecf8427e, but the text built is "000102030405060708090a0b0c0d0e0f", the same for every input | `data[i].ToString("x2")`, the spelling of the digest | not executed | MD5Helper.GetMd5Hash, MD5Helper.AsWrittenMissesEmptyInputDigest | MD5Helper.GetMd5HashOfDigest, MD5Helper.DigestTextIsFaithful |
