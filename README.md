# IPaddressCounter in Dafny

IPaddressCounter reads a file of IPv4 addresses, one dotted quad per line. It
reports how many addresses occur **exactly once**. Each line is turned into a
32-bit key by `toLong`/`toDigit`. The key is then recorded in a
pseudo-histogram: a `byte[1 << 30]` that holds one 2-bit saturating counter per
possible address, four counters to a byte. A final scan, `countUnique`, counts
the counters that hold 1.

The model has three modules, following the three pieces of the program, plus
one module of wrappers:

- `Results` (`results.dfy`): `Option`, `Result` and `Outcome`. A Java exception
  becomes a `Failure` carrying a `ParseError`.
- `AddressParser` (`address_parser.dfy`): the pure parser.
  - `SplitDots` is `String.split("\\.")`. It drops trailing empty fields, so
    `"1.2.3.4."` has four fields, `"..."` has none and `""` has one.
  - `ParseLong` is `Long.valueOf`: an optional sign and ASCII digits, with a
    value inside the signed 64-bit range.
  - `ToDigit` checks the range [0, 255]. `ToLong` reads the four fields from
    left to right and packs them big-endian.
  - Each of the three exception messages is a constructor of `ParseError`.
- `PresenceCounter` (`presence_counter.dfy`): the histogram as an
  `array<bv8>` of `COUNT_LENGTH` bytes.
  - `Observe` is the read-modify-write that one line performs on
    `count[ip / 4]`.
  - `CountUnique` is the scan.
  - `Slot`, `Next` and `Replay` give the abstract view they are proved
    against: slot values and the transition 0 → 1 → 3.
- `IPAddressCounter` (`address_counter.dfy`): the whole run.
  - `CountIPs` is the loop over the lines. The first line that does not parse
    ends it with that line's error.
  - `CountUniqueAddresses` allocates a zeroed array, runs the loop, then the
    scan. It is proved to return the number of addresses that occur exactly
    once among the parsed keys.

The second observation of an address makes its slot 3: the program ORs
`2 << shift` into a slot that already holds 1. A slot therefore only ever holds
0 (no), 1 (one) or 3 (many), never 2, and the model has `Next(1) == 3`.

`toLong` combines the shifted octets with `|`; the model adds them.
`PackIsBitOr` proves that Java's `|` on the shifted octets, written out bit by
bit on naturals, equals that sum, and `PackIsBitwiseOr` proves the same on
32-bit vectors. `ip & 3` is written `ip % 4`, which is the same thing for the
non-negative keys.

## Model

| member | source | states |
|---|---|---|
| AddressParser.Fields | IPaddressCounter.java:101 | every piece between dots is free of dots, and there is always at least one piece |
| AddressParser.DropTrailingEmpty | IPaddressCounter.java:101 | the result is a prefix of the fields; it does not end in an empty field; only empty fields were removed |
| AddressParser.SplitDots | IPaddressCounter.java:101 | no field of the split holds a dot |
| AddressParser.JoinOfFields | IPaddressCounter.java:101 | the pieces between dots, joined again with dots, give back the line |
| AddressParser.SplitDotsKeeps | IPaddressCounter.java:101 | a line with no dot splits into itself; otherwise the split is its pieces with the trailing empty pieces removed |
| AddressParser.FieldsOfPrefix | IPaddressCounter.java:101 | text without a dot stays in front of the first piece of what follows it |
| AddressParser.FieldsOfJoin | IPaddressCounter.java:101 | dot-free fields joined with dots split back into exactly those fields |
| AddressParser.ReadDigits | IPaddressCounter.java:111 | the digit reader behind Long.valueOf fails only where some character is not an ASCII digit; ReadDigitsValue pins down its value |
| AddressParser.ReadDigitsValue | IPaddressCounter.java:111 | reading digits succeeds exactly on all-digit strings, with the decimal value they spell |
| AddressParser.ParseLong | IPaddressCounter.java:111 | every accepted value lies in the signed 64-bit range; ParseLongExactly gives its full behaviour |
| AddressParser.ParseLongExactly | IPaddressCounter.java:111 | Long.valueOf exactly: a literal (optional '+' or '-', then one or more ASCII digits, leading zeros allowed) whose value fits in a long yields that value; every other string throws |
| AddressParser.ParseLongForm | IPaddressCounter.java:111 | one direction of ParseLongExactly, stated on the text: whatever is accepted has at least one digit and only digits after an optional sign |
| AddressParser.Decimal | IPaddressCounter.java:111 | the decimal spelling of n is a non-empty run of digits whose value is n |
| AddressParser.ParseLongOfDecimal | IPaddressCounter.java:111 | the canonical decimal spelling of n is read as n up to LONG_MAX and rejected above it |
| AddressParser.ParseLongOfNegatedDecimal | IPaddressCounter.java:111 | "-" before the decimal spelling of n is read as -n down to LONG_MIN and rejected below it |
| AddressParser.ToDigit | IPaddressCounter.java:109-120 | a success is an octet that Long.valueOf produced; a failure is "not a number" or "out of range" for that field |
| AddressParser.ToDigitAccepts | IPaddressCounter.java:111-119 | toDigit succeeds exactly on longs in [0, 255]; it reports "not a number" exactly when Long.valueOf throws |
| AddressParser.ToDigitExactly | IPaddressCounter.java:109-120 | toDigit exactly: "not a number" unless the field is a literal within the long range, then "out of range" unless its value is in [0, 255], else that value |
| AddressParser.ToDigitOfDecimal | IPaddressCounter.java:111-118 | canonical decimal spellings: octets pass, larger longs are out of range, numbers above LONG_MAX are not numbers |
| AddressParser.ToDigitOfNegatedDecimal | IPaddressCounter.java:111-118 | negated decimal spellings: out of range down to LONG_MIN, not numbers below it |
| AddressParser.ToDigitPlusSign | IPaddressCounter.java:111-116 | "+7" is the octet 7; a lone "+" is not a number |
| AddressParser.ToDigitLeadingZeros | IPaddressCounter.java:111-116 | "007" is the octet 7 and "-0" is the octet 0 |
| AddressParser.ToDigitLeadingZeroOutOfRange | IPaddressCounter.java:111-114 | "0256" is out of range: leading zeros do not change the value |
| AddressParser.ToDigitNotANumber | IPaddressCounter.java:117-118 | a field with a non-digit after its optional sign, or a lone sign, is not a number |
| AddressParser.Pack | IPaddressCounter.java:106 | four octets pack into a key in [0, 2^32); OctetsOfPack, PackOfOctets and PackInjective pin it down as a bijection onto that range |
| AddressParser.BitOr | IPaddressCounter.java:106 | Java's `\|` on non-negative longs, bit by bit: the result is at least each operand |
| AddressParser.BitOrDisjoint | IPaddressCounter.java:106 | when one operand's bits all lie below bit k and the other's all at or above it, OR is addition |
| AddressParser.PackIsBitOr | IPaddressCounter.java:106 | for octets, `(d0 << 24) \| (d1 << 16) \| (d2 << 8) \| d3`, each shift as its multiplication, equals Pack |
| AddressParser.PackIsBitwiseOr | IPaddressCounter.java:106 | for octets, the OR of the shifted octets equals their weighted sum in 32-bit arithmetic |
| AddressParser.OctetsOfPack | IPaddressCounter.java:106 | the packed key lies below 2^32, and shifting and masking give back each octet |
| AddressParser.PackOfOctets | IPaddressCounter.java:106 | every key below 2^32 is the packing of its own four octets |
| AddressParser.PackInjective | IPaddressCounter.java:106 | different octet quadruples give different keys |
| AddressParser.ToLong | IPaddressCounter.java:100-107 | a key lies in [0, 2^32); the line fails with "No 4 digits" exactly when the split does not have four fields |
| AddressParser.PackDigits | IPaddressCounter.java:106 | a successful packing of four toDigit outcomes lies in [0, 2^32) |
| AddressParser.PackDigitsOctets | IPaddressCounter.java:106 | each of the four outcomes is the octet at its place in the packed key |
| AddressParser.ToLongOctets | IPaddressCounter.java:103-106 | a parsed line has four fields, and field j reads as octet j of the key |
| AddressParser.PackDigitsFirstFailure | IPaddressCounter.java:106 | a failed packing carries the error of its leftmost failing outcome |
| AddressParser.ToLongFirstBadField | IPaddressCounter.java:106 | a four-field line that fails carries the error of its leftmost bad field, and every field before that one is good |
| AddressParser.ToLongFailsAt | IPaddressCounter.java:106 | conversely, the leftmost bad field decides the error of the line |
| AddressParser.ToLongSucceeds | IPaddressCounter.java:103-106 | four good fields give the packing of their octets |
| AddressParser.SplitDotsOfJoin | IPaddressCounter.java:101 | two or more dot-free fields, the last not empty, split back into themselves |
| AddressParser.SplitDotsOfFour | IPaddressCounter.java:101 | four such fields joined with dots split into exactly those four |
| AddressParser.SplitDotsOfFormat | IPaddressCounter.java:101 | a dotted quad splits into its four decimal spellings |
| AddressParser.ToLongOfFormat | IPaddressCounter.java:100-107 | round trip: the dotted quad of any four octets parses to their packed key |
| AddressParser.SplitDotsOfFourTrailingDot | IPaddressCounter.java:101 | with one trailing dot, the empty last field is dropped and four fields remain |
| AddressParser.ToLongTrailingDot | IPaddressCounter.java:101-106 | "a.b.c.d." parses to the same key as "a.b.c.d" |
| AddressParser.ToLongWrongFieldCount | IPaddressCounter.java:103-104 | a line made of one or more dot-free fields other than four, the last not empty, is "No 4 digits"; ToLong's own contract gives the general rule for any line, trailing empty fields included |
| AddressParser.ToLongOneField | IPaddressCounter.java:103-104 | "1234" has no dot, is one field, and is rejected as "No 4 digits" |
| AddressParser.ToLongEmptyLine | IPaddressCounter.java:101-104 | the empty line is one empty field and is rejected as "No 4 digits" |
| AddressParser.ToLongThreeFields | IPaddressCounter.java:103-104 | "1.2.3" is rejected as "No 4 digits" |
| AddressParser.ToLongFiveFields | IPaddressCounter.java:103-104 | "1.2.3.4.5" is rejected as "No 4 digits" |
| AddressParser.ToLongOnlyDots | IPaddressCounter.java:101-104 | "..." splits into no fields and is rejected as "No 4 digits" |
| AddressParser.ToLongNotANumber | IPaddressCounter.java:117-118 | after a good first field, a field that Long.valueOf rejects ("x", "") makes the line "Not a number" for that field |
| AddressParser.NotNumbers | IPaddressCounter.java:111 | "x", "" and "-" are rejected by Long.valueOf |
| AddressParser.ToLongAboveRange | IPaddressCounter.java:113-114 | a field above 255 (such as 256) is out of range |
| AddressParser.ToLongNegative | IPaddressCounter.java:113-114 | a negative field (such as -1) is out of range, not "not a number" |
| AddressParser.ToLongLeftmostError | IPaddressCounter.java:106 | an out-of-range first field decides the error whatever the other fields hold |
| PresenceCounter.Shift | IPaddressCounter.java:60 | the bit offset of a key in its byte is 0, 2, 4 or 6 |
| PresenceCounter.SlotOf | IPaddressCounter.java:61 | `(b >> shift) & 3` is a 2-bit value; SlotsOfByte and OrAdvancesSlot relate it to the byte's bits |
| PresenceCounter.Slot | IPaddressCounter.java:57-61 | the slot of a key is a 2-bit value; SlotAddressing shows each key has its own |
| PresenceCounter.Next | IPaddressCounter.java:63-69 | an observation never lowers a slot, always leaves it non-zero, and keeps it within two bits; IterateMonotone adds that 2 never arises and 3 is absorbing |
| PresenceCounter.ReplayIsIterate | IPaddressCounter.java:63-69 | replaying a sequence of keys on one slot applies one transition per occurrence of that slot's key |
| PresenceCounter.IterateFromZero | IPaddressCounter.java:23-25 | n transitions from 0 give 0, 1 or 3 for n = 0, 1 or at least 2 |
| PresenceCounter.ReplayFromZero | IPaddressCounter.java:23-25 | from a zeroed slot, the slot of key k holds 0, 1 or 3 as k occurred 0, 1 or at least 2 times |
| PresenceCounter.ReplayOrderIndependent | IPaddressCounter.java:54-69 | the final slot depends only on the multiset of keys, not on their order |
| PresenceCounter.IterateMonotone | IPaddressCounter.java:63-69 | transitions never lower a slot and never produce 2, and 3 is absorbing |
| PresenceCounter.SaturatesAtThree | IPaddressCounter.java:66-69 | after two or more observations the slot holds 3, and a further observation keeps it there |
| PresenceCounter.SlotAddressing | IPaddressCounter.java:57-60 | every key below 2^32 has its byte inside the array; two different keys never share both the byte and the offset |
| PresenceCounter.SameOutsideSlot | IPaddressCounter.java:64-67 | two bytes that agree outside one 2-bit slot agree on every other slot of the byte |
| PresenceCounter.SameByteOtherShift | IPaddressCounter.java:57-60 | two different keys in the same byte sit at different offsets |
| PresenceCounter.WriteKeepsSlotInByte | IPaddressCounter.java:57-69 | writing back the byte with only the key's two bits changed keeps the slots of the other keys in that byte |
| PresenceCounter.WriteKeepsSlot | IPaddressCounter.java:57-69 | such a write keeps the slot of every other key |
| PresenceCounter.WriteKeepsOtherSlots | IPaddressCounter.java:57-69 | the same, for all other keys at once |
| PresenceCounter.OrAdvancesSlot | IPaddressCounter.java:63-68 | ORing 1 into an empty slot makes it 1; ORing 2 into a slot holding 1 makes it 3; both leave the other six bits alone |
| PresenceCounter.Observe | IPaddressCounter.java:57-69 | the key's slot takes its next value (0 → 1, 1 → 3, 3 stays); every other slot and every other byte are unchanged; within the byte only the key's two bits may change |
| PresenceCounter.OnesBelowStep | IPaddressCounter.java:84-95 | extending the scan by one key adds one exactly when that key's slot holds 1 |
| PresenceCounter.SlotsOfByte | IPaddressCounter.java:82-93 | the four keys of byte i are read with the masks `b & 3`, `(b >> 2) & 3`, `(b >> 4) & 3` and `(b >> 6) & 3` |
| PresenceCounter.OnesBelowByte | IPaddressCounter.java:81-96 | scanning one byte adds one for each of its four slots that holds 1 |
| PresenceCounter.OnesBelowBound | IPaddressCounter.java:78-98 | the count of slots holding 1 never exceeds the number of slots scanned |
| PresenceCounter.OnesBelowOfZero | IPaddressCounter.java:31 | a zeroed array has no slot holding 1 |
| PresenceCounter.CountUnique | IPaddressCounter.java:78-98 | returns the number of keys in [0, 2^32) whose slot holds 1, at most 2^32, and leaves the array unchanged |
| IPAddressCounter.Collect | IPaddressCounter.java:54-55 | a successful collection has one key per outcome |
| IPAddressCounter.CollectKeys | IPaddressCounter.java:54-55 | a successful collection holds each outcome's value in order |
| IPAddressCounter.CollectAllSuccess | IPaddressCounter.java:54-55 | outcomes that all succeed collect into their values |
| IPAddressCounter.CollectStep | IPaddressCounter.java:54-55 | one more success appends its value |
| IPAddressCounter.CollectKeepsFailure | IPaddressCounter.java:54-55 | once a prefix fails, the whole run fails with that error |
| IPAddressCounter.CollectFirstFailure | IPaddressCounter.java:54-55 | a failing run fails with its first failure, and every outcome before it succeeded |
| IPAddressCounter.LineResults | IPaddressCounter.java:55 | one toLong outcome per line; ParseAllKeys and ParseAllFirstFailure say what ParseAll makes of them |
| IPAddressCounter.ParseAll | IPaddressCounter.java:54-55 | a successful parse has one key per line |
| IPAddressCounter.ParseAllKeys | IPaddressCounter.java:54-55 | a parsed input holds toLong of each line in order, and every key lies below 2^32 |
| IPAddressCounter.ParseAllOfKeys | IPaddressCounter.java:54-55 | lines that all parse give exactly their keys |
| IPAddressCounter.ParseAllFirstFailure | IPaddressCounter.java:54-55 | a failing input carries the error of its first bad line, and all earlier lines parse |
| IPAddressCounter.ParseAllStep | IPaddressCounter.java:54-55 | parsing one more good line appends its key |
| IPAddressCounter.ParseAllStops | IPaddressCounter.java:54-55 | a bad line after good ones decides the error of the whole input |
| IPAddressCounter.ReplayStep | IPaddressCounter.java:54-69 | one more observation extends every slot's replay by that key |
| IPAddressCounter.CountIPs | IPaddressCounter.java:50-76 | every slot has replayed the keys of the lines read; all lines are read exactly when all parse; otherwise the loop stops at the first bad line with that line's error |
| IPAddressCounter.OnesAreUniqueKeys | IPaddressCounter.java:22-25 | from a zeroed array, the slots holding 1 are exactly the addresses that occur once |
| IPAddressCounter.CountUniqueAddresses | IPaddressCounter.java:30-37 | the result is the error of the first bad line, or the number of addresses that occur exactly once |
| IPAddressCounter.UniqueKeysOrderIndependent | IPaddressCounter.java:22-25 | the count depends only on how often each address occurs |
| IPAddressCounter.UniqueKeysOfRepeat | IPaddressCounter.java:22-25 | of two different addresses, the one seen twice is not counted and the one seen once is |
| IPAddressCounter.ParseAllOfThree | IPaddressCounter.java:54-55 | the dotted quads of three lines parse into their three keys |
| IPAddressCounter.RepeatedAddressExample | IPaddressCounter.java:30-36 | input such as "1.1.1.1", "1.1.1.1", "2.2.2.2" has exactly one address seen once |
| IPAddressCounter.EmptyInputExample | IPaddressCounter.java:30-36 | an empty input parses to no keys and counts none |

## Left out

- `main(String[])` and the console output of `main(String)` (lines 17-20, 34, 36). These are argument defaulting and printing. `CountUniqueAddresses` returns the number that would be printed.
- File I/O in `countIPs(String, byte[])` (lines 39-48). The input is a sequence of lines, already split the way `BufferedReader.readLine` splits them. The `IOException` catch is not modelled.
- The size of the file divided by 14, used as a line-count estimate (lines 41-43). It only feeds the progress output.
- The progress percentage (lines 52-54 and 71-74) and `out` (lines 122-124). They only print, and never change the counts.
- `Long.valueOf` also accepts non-ASCII Unicode decimal digits. The model accepts ASCII digits only.
- An exception thrown by `toLong` ends the program. `CountUniqueAddresses` returns the error instead. `CountIPs` states what the array holds at that point, which the program never reads.
- Java's signed `byte` and `int` arithmetic is modelled with `bv8`. Sign extension does not matter, because every read masks with `& 3` after a shift of at most 6.
- The `long` tally of `countUnique` never exceeds 2^32, so it cannot overflow; `CountUnique` states that bound.
- The `(int) (ip / 4)` cast needs no model: the key is below 2^32, so the index is below 2^30.
- The general scan for any target counter value is not part of this program, which scans only for the value 1; the model follows that.
