# l2jfree network core, modelled in Dafny

This project models the parts of the l2jfree (Lineage II server emulator) code base that decide
how packets are read, written and admitted:

- **Flood limiter** (`FloodManager`, module `Flood`). It keeps a circular window of per-tick
  counters for each key. A check slides the window to the current tick, optionally counts one
  more event, and compares two overlapping window sums per filter against the warn and reject
  limits. A sweep drops the keys that have been idle for ten windows.
- **Hex codec** (`HexUtil`, modules `Hex` and `HexDump`). It covers zero-padded hex formatting
  (`fillHex`), byte arrays to and from upper-case hex octets (`bytesToHexString`,
  `HexStringToBytes`) and the 16-bytes-per-line dump (`printData`).
- **Packets of the legacy login protocol and the game client protocol**:
  - `GameServerAuth` (module `GameServerAuth`): decoding the request, the authorization decision
    of `runImpl`, the free-ID search and the registration of the authorized game server;
  - `ChangeAccessLevel` (module `ChangeAccessLevel`): decoding and the level to
    (ban reason, super user) mapping;
  - `SendPrivateStoreBuyList` (module `PrivateStoreBuyList`): the counted record list decoder;
  - `ObserverStartPacket` (module `ObserverStart`): the client-version dependent body.
- **Packet buffer** (module `Buffer`). The buffer class is not part of this model; its reads and
  writes are modelled as a forward-only little-endian cursor. C, H, D and Q are 1, 2, 4 and
  8 bytes wide, `readS` reads UTF-16LE code units up to a zero unit, and a read past the end is a
  buffer underflow.

Each object whose fields the Java code updates in place is a class: `LogEntry` with its
`short[]` window as an `array<short>`, `FloodManager` with its map of entries, the packet
objects, the `Reader`/`Writer` cursors, and the game server connection with the registry of
on-line servers. The loops of the source are methods with loop invariants. Each of them is proved
against a specification function (`Slid`, `Bumped`, `Verdict`, `Encoded`, `Decode`, `Dump`,
`FreeFrom`, `LastZeroKeyed`, `Body`, ...). The properties the code promises are lemmas about
those functions.

The flood filter loop returns at the first filter whose sums exceed its reject or warn limit.
It does not combine filters with `Result.max`, so the verdict can be milder than the most severe
one any filter would give. The model follows the code: see `Flood.VerdictIsFirstMatch` and the
example in `Flood.FirstMatchIsNotMostSevere`.

## Model

| member | source | states |
|---|---|---|
| Primitives.Wrap32 | l2jfree-login/src/main/java/com/l2jfree/loginserver/network/legacy/packets/receivable/GameServerAuth.java:76 | the value Java keeps of an int product: congruent to the mathematical value modulo 2^32, and equal to it when that fits an int |
| Primitives.Negate32 | l2jfree-login/src/main/java/com/l2jfree/loginserver/network/legacy/packets/receivable/ChangeAccessLevel.java:72 | Java int negation: -x, except that Integer.MIN_VALUE negates to itself |
| Primitives.Inc16 | l2jfree-commons/src/main/java/com/l2jfree/network/mmocore/FloodManager.java:208 | `short` increment: one more, with 32767 wrapping to -32768 |
| Buffer.LeRoundTrip | l2jfree-login/src/main/java/com/l2jfree/loginserver/network/legacy/packets/receivable/ChangeAccessLevel.java:56 | a value below 256^w written as w little-endian bytes reads back as itself |
| Buffer.LeBytesOfValue | l2jfree-login/src/main/java/com/l2jfree/loginserver/network/legacy/packets/receivable/ChangeAccessLevel.java:56 | every w-byte field is the encoding of the value read from it, so distinct fields read differently |
| Buffer.SignedRoundTrip | l2jfree-login/src/main/java/com/l2jfree/loginserver/network/legacy/packets/receivable/ChangeAccessLevel.java:56 | a signed value in the range of width w written in two's complement reads back as itself |
| Buffer.UnsignedRoundTrip | l2jfree-login/src/main/java/com/l2jfree/loginserver/network/legacy/packets/receivable/GameServerAuth.java:69-72 | an unsigned value below 256^w written at width w reads back as itself |
| Buffer.TakeBytes | l2jfree-login/src/main/java/com/l2jfree/loginserver/network/legacy/packets/receivable/GameServerAuth.java:75 | readB succeeds exactly when n bytes remain, then yields n bytes and advances by n |
| Buffer.TakeUnsigned | l2jfree-login/src/main/java/com/l2jfree/loginserver/network/legacy/packets/receivable/GameServerAuth.java:69-72 | an unsigned read succeeds exactly when w bytes remain and advances by w; otherwise it is a buffer underflow |
| Buffer.TakeSigned | l2jfree-login/src/main/java/com/l2jfree/loginserver/network/legacy/packets/receivable/GameServerAuth.java:73-74 | a signed read succeeds exactly when w bytes remain, advances by w and stays in the signed range of w bytes; otherwise it is a buffer underflow |
| Buffer.TakeD | l2jfree-login/src/main/java/com/l2jfree/loginserver/network/legacy/packets/receivable/ChangeAccessLevel.java:56 | readD yields a Java int |
| Buffer.TakeS | l2jfree-login/src/main/java/com/l2jfree/loginserver/network/legacy/packets/receivable/ChangeAccessLevel.java:57 | readS consumes two bytes per code unit plus the two-byte terminator |
| Buffer.TakeStrings | l2jfree-login/src/main/java/com/l2jfree/loginserver/network/legacy/packets/receivable/GameServerAuth.java:78-79 | reading n strings yields n strings and consumes at least two bytes each |
| Buffer.EncS | l2jfree-login/src/main/java/com/l2jfree/loginserver/network/legacy/packets/receivable/ChangeAccessLevel.java:57 | a string is written as two bytes per code unit and a terminator |
| Buffer.TakeUnsignedAt | l2jfree-login/src/main/java/com/l2jfree/loginserver/network/legacy/packets/receivable/GameServerAuth.java:69-72 | the bytes of an unsigned value at the cursor read back as that value and move the cursor past them |
| Buffer.TakeSignedAt | l2jfree-login/src/main/java/com/l2jfree/loginserver/network/legacy/packets/receivable/GameServerAuth.java:73-74 | the bytes of a signed value at the cursor read back as that value and move the cursor past them |
| Buffer.TakeSAt | l2jfree-login/src/main/java/com/l2jfree/loginserver/network/legacy/packets/receivable/ChangeAccessLevel.java:57 | a string without a zero unit, written at the cursor, reads back as itself and ends after its terminator |
| Buffer.TakeSEncodes | l2jfree-login/src/main/java/com/l2jfree/loginserver/network/legacy/packets/receivable/ChangeAccessLevel.java:57 | every string readS returns has no zero unit and the bytes it consumed are exactly that string's encoding |
| Buffer.TakeStringsAt | l2jfree-login/src/main/java/com/l2jfree/loginserver/network/legacy/packets/receivable/GameServerAuth.java:78-79 | a list of strings without zero units, written one after another, reads back as the same list |
| Buffer.TakeSStep | l2jfree-login/src/main/java/com/l2jfree/loginserver/network/legacy/packets/receivable/GameServerAuth.java:79 | readS stops at the first zero unit and otherwise keeps the unit and goes on two bytes later |
| Buffer.Reader.constructor | l2jfree-login/src/main/java/com/l2jfree/loginserver/network/legacy/packets/receivable/GameServerAuth.java:66 | a buffer starts at position 0 of the packet body |
| Buffer.Reader.ReadB | l2jfree-login/src/main/java/com/l2jfree/loginserver/network/legacy/packets/receivable/GameServerAuth.java:75 | returns the bytes TakeBytes gives and moves the cursor to match, or fails with its error |
| Buffer.Reader.ReadUnsigned | l2jfree-login/src/main/java/com/l2jfree/loginserver/network/legacy/packets/receivable/GameServerAuth.java:69-72 | returns the value TakeUnsigned gives and moves the cursor to match, or fails with its error |
| Buffer.Reader.ReadSigned | l2jfree-login/src/main/java/com/l2jfree/loginserver/network/legacy/packets/receivable/GameServerAuth.java:73-74 | returns the value TakeSigned gives and moves the cursor to match, or fails with its error |
| Buffer.Reader.ReadC | l2jfree-login/src/main/java/com/l2jfree/loginserver/network/legacy/packets/receivable/GameServerAuth.java:69-71 | readC: one unsigned byte, or a buffer underflow |
| Buffer.Reader.ReadH | l2jfree-login/src/main/java/com/l2jfree/loginserver/network/legacy/packets/receivable/GameServerAuth.java:72 | readH: two bytes little-endian, or a buffer underflow |
| Buffer.Reader.ReadD | l2jfree-login/src/main/java/com/l2jfree/loginserver/network/legacy/packets/receivable/ChangeAccessLevel.java:56 | readD: four bytes little-endian as a Java int, or a buffer underflow |
| Buffer.Reader.ReadQ | l2jfree-core/src/main/java/com/l2jfree/gameserver/network/client/packets/receivable/SendPrivateStoreBuyList.java:69-70 | readQ: eight bytes little-endian as a Java long, or a buffer underflow |
| Buffer.Reader.ReadS | l2jfree-login/src/main/java/com/l2jfree/loginserver/network/legacy/packets/receivable/ChangeAccessLevel.java:57 | readS: the code units up to the zero terminator, or a buffer underflow |
| Buffer.Writer.constructor | l2jfree-core/src/main/java/com/l2jfree/gameserver/network/client/packets/sendable/ObserverStartPacket.java:58 | a packet body starts empty |
| Buffer.Writer.WriteC | l2jfree-core/src/main/java/com/l2jfree/gameserver/network/client/packets/sendable/ObserverStartPacket.java:72 | writeC appends exactly the one-byte encoding of its value |
| Buffer.Writer.WriteH | l2jfree-core/src/main/java/com/l2jfree/gameserver/network/client/packets/sendable/ObserverStartPacket.java:71 | writeH appends exactly the two-byte encoding of its value |
| Buffer.Writer.WriteD | l2jfree-core/src/main/java/com/l2jfree/gameserver/network/client/packets/sendable/ObserverStartPacket.java:61-63 | writeD appends exactly the four-byte encoding of its value |
| Buffer.Writer.WriteQ | l2jfree-core/src/main/java/com/l2jfree/gameserver/network/client/packets/receivable/SendPrivateStoreBuyList.java:69-70 | writeQ appends exactly the eight-byte encoding of its value |
| Hex.ToHexDenotes | l2jfree-commons/src/main/java/com/l2jfree/util/HexUtil.java:242 | Integer.toHexString of n is non-empty, lower-case hex, has no leading zero, and denotes n |
| Hex.PaddedMeaning | l2jfree-commons/src/main/java/com/l2jfree/util/HexUtil.java:240-250 | fillHex has max(length of the hex, digits) characters: zeros, then the hex of the value; it denotes the value |
| Hex.PaddedByte | l2jfree-commons/src/main/java/com/l2jfree/util/HexUtil.java:179 | fillHex of a byte with two digits is exactly two characters |
| Hex.PaddedOffset | l2jfree-commons/src/main/java/com/l2jfree/util/HexUtil.java:175 | fillHex of an offset below 0x10000 with four digits is exactly four characters |
| Hex.FillHex | l2jfree-commons/src/main/java/com/l2jfree/util/HexUtil.java:240-250 | the builder loop yields the padded hex of the int's unsigned value |
| Hex.ToHex | l2jfree-commons/src/main/java/com/l2jfree/util/HexUtil.java:242 | Integer.toHexString of a non-negative value (pinned by ToHexDenotes) |
| Hex.Padded | l2jfree-commons/src/main/java/com/l2jfree/util/HexUtil.java:240-250 | fillHex as a function (pinned by PaddedMeaning) |
| Hex.UpperCase | l2jfree-commons/src/main/java/com/l2jfree/util/HexUtil.java:102 | ASCII upper-casing keeps the length (the only case mapping modelled) |
| Hex.BytesToHexStringWithDelimiter | l2jfree-commons/src/main/java/com/l2jfree/util/HexUtil.java:90-103 | the builder loop yields "" for a null or empty array, else the upper-cased octets joined by the delimiter |
| Hex.BytesToHexString | l2jfree-commons/src/main/java/com/l2jfree/util/HexUtil.java:78-81 | the overload without a delimiter yields 2 characters per byte |
| Hex.Encoded | l2jfree-commons/src/main/java/com/l2jfree/util/HexUtil.java:90-103 | bytesToHexString as a function (pinned by EncodedLayout and RoundTrip) |
| Hex.JoinedLength | l2jfree-commons/src/main/java/com/l2jfree/util/HexUtil.java:95-101 | n octets and n-1 delimiters make the builder's length |
| Hex.JoinedPair | l2jfree-commons/src/main/java/com/l2jfree/util/HexUtil.java:95-101 | octet i sits at 2i + i times the delimiter's length as the two-digit hex of byte i |
| Hex.JoinedDelimiter | l2jfree-commons/src/main/java/com/l2jfree/util/HexUtil.java:98-99 | the delimiter sits between octet i and octet i+1 |
| Hex.UpperPair | l2jfree-commons/src/main/java/com/l2jfree/util/HexUtil.java:100-102 | an upper-cased octet is two upper-case hex digits denoting the byte |
| Hex.EncodedLayout | l2jfree-commons/src/main/java/com/l2jfree/util/HexUtil.java:90-103 | the result has 2n characters plus n-1 delimiters, shows every byte as its octet and the delimiter between every two |
| Hex.EncodedLength | l2jfree-commons/src/main/java/com/l2jfree/util/HexUtil.java:90-103 | the result has 2n characters plus n-1 delimiters |
| Hex.EncodedOctets | l2jfree-commons/src/main/java/com/l2jfree/util/HexUtil.java:95-102 | every byte i appears as two upper-case hex digits at its place |
| Hex.EncodedDelimiters | l2jfree-commons/src/main/java/com/l2jfree/util/HexUtil.java:98-99 | the delimiter appears between every two octets |
| Hex.EncodedDelimiter | l2jfree-commons/src/main/java/com/l2jfree/util/HexUtil.java:98-99 | the delimiter appears after octet i-1 and before octet i |
| Hex.EncodedPair | l2jfree-commons/src/main/java/com/l2jfree/util/HexUtil.java:100 | byte i appears as two upper-case hex digits at its place |
| Hex.HexStringToBytes | l2jfree-commons/src/main/java/com/l2jfree/util/HexUtil.java:111-126 | the parse loop yields Null for null or an odd stripped length, a NumberFormatException on a bad octet, and the octets otherwise |
| Hex.ParseOctet | l2jfree-commons/src/main/java/com/l2jfree/util/HexUtil.java:123 | Integer.parseInt of two characters in base 16, masked to a byte, or a NumberFormatException (pinned by DecodedMeaning) |
| Hex.Decode | l2jfree-commons/src/main/java/com/l2jfree/util/HexUtil.java:111-126 | HexStringToBytes as a function (pinned by DecodedMeaning, DecodeShown and RoundTrip) |
| Hex.DecodedMeaning | l2jfree-commons/src/main/java/com/l2jfree/util/HexUtil.java:119-124 | with an even stripped length the parse throws exactly when some pair is neither two hex digits nor a sign and a digit; on success byte i is the number pair i denotes, and "-d" gives the byte that adds to d to a multiple of 256 |
| Hex.StripConcat | l2jfree-commons/src/main/java/com/l2jfree/util/HexUtil.java:115 | removing spaces works piece by piece |
| Hex.DecodeShown | l2jfree-commons/src/main/java/com/l2jfree/util/HexUtil.java:111-126 | a string of 2n characters showing n octets decodes to those n bytes |
| Hex.DecodeSeesStripped | l2jfree-commons/src/main/java/com/l2jfree/util/HexUtil.java:115 | two strings equal once spaces are removed decode alike |
| Hex.DecodeEncodedPlain | l2jfree-commons/src/main/java/com/l2jfree/util/HexUtil.java:90-126 | decoding the upper-cased octets without delimiter gives the bytes back |
| Hex.DecodeEncodedSpaced | l2jfree-commons/src/main/java/com/l2jfree/util/HexUtil.java:90-126 | decoding the upper-cased octets joined by spaces gives the bytes back |
| Hex.RoundTrip | l2jfree-commons/src/main/java/com/l2jfree/util/HexUtil.java:90-126 | HexStringToBytes(bytesToHexString(b)) is b for every array, with no delimiter and with " " |
| HexDump.AsciiCharMeaning | l2jfree-commons/src/main/java/com/l2jfree/util/HexUtil.java:189-197 | the ASCII column shows bytes 0x20..0x7f as themselves and every other byte as '.' |
| HexDump.AsciiChar | l2jfree-commons/src/main/java/com/l2jfree/util/HexUtil.java:189-197 | the ASCII column character of one byte (pinned by AsciiCharMeaning) |
| HexDump.Dump | l2jfree-commons/src/main/java/com/l2jfree/util/HexUtil.java:164-231 | printData as written, as a function (pinned by PrintAll and DumpReadsPastLen) |
| HexDump.DumpIntended | l2jfree-commons/src/main/java/com/l2jfree/util/HexUtil.java:164-231 | printData as documented, as a function (pinned by DumpLayout and DumpIntendedReadsOnlyLen) |
| HexDump.AsciiRun | l2jfree-commons/src/main/java/com/l2jfree/util/HexUtil.java:187-198 | the column loop appends the ASCII column of the bytes it visits |
| HexDump.AppendByte | l2jfree-commons/src/main/java/com/l2jfree/util/HexUtil.java:173-202 | one pass of the loop appends the offset at a line start, the octet and a space, and closes the line after 16 bytes; the counter restarts at 0 |
| HexDump.ClosingLine | l2jfree-commons/src/main/java/com/l2jfree/util/HexUtil.java:205-228 | the tail appends padding and the ASCII column of the last partial line, as the code computes them |
| HexDump.WriteRows | l2jfree-commons/src/main/java/com/l2jfree/util/HexUtil.java:166-203 | the main loop yields eol followed by the lines of the first len bytes and the open last line |
| HexDump.PrintData | l2jfree-commons/src/main/java/com/l2jfree/util/HexUtil.java:164-231 | printData(data, len) as written: for len up to data.length the dump with the tail computed from data.length; for a larger len the ArrayIndexOutOfBoundsException of data[data.length] |
| HexDump.PrintDataCorrected | l2jfree-commons/src/main/java/com/l2jfree/util/HexUtil.java:164-231 | printData with the tail computed from len: eol then one line per group of 16 of the first len bytes; a len past the array throws as in the code |
| HexDump.PrintAll | l2jfree-commons/src/main/java/com/l2jfree/util/HexUtil.java:145-148 | printData(raw) (len = data.length) agrees with the intended layout |
| HexDump.DumpLayout | l2jfree-commons/src/main/java/com/l2jfree/util/HexUtil.java:164-231 | the rows and the tail together make the line-by-line layout |
| HexDump.HexCellsLength | l2jfree-commons/src/main/java/com/l2jfree/util/HexUtil.java:179-180 | each byte takes three characters in the hex column |
| HexDump.LineLayout | l2jfree-commons/src/main/java/com/l2jfree/util/HexUtil.java:173-201 | a line has 57 + count characters plus the end of line, starts with its offset in hex and ": ", and shows its ASCII column at 57 |
| HexDump.AsciiColumnLength | l2jfree-commons/src/main/java/com/l2jfree/util/HexUtil.java:187-198 | the ASCII column has one character per byte |
| HexDump.LinesAgree | l2jfree-commons/src/main/java/com/l2jfree/util/HexUtil.java:171-203 | the full lines depend only on the bytes they show |
| HexDump.DumpIntendedReadsOnlyLen | l2jfree-commons/src/main/java/com/l2jfree/util/HexUtil.java:164-231 | the intended dump depends only on the first len bytes |
| HexDump.DumpReadsPastLen | l2jfree-commons/src/main/java/com/l2jfree/util/HexUtil.java:205-216 | the dump as written shows a byte past len: two arrays that agree on the first byte dump differently for len 1 |
| Flood.MaxResult | l2jfree-commons/src/main/java/com/l2jfree/network/mmocore/FloodManager.java:48-54 | Result.max returns one of its operands, the one whose ordinal is not lower |
| Flood.TickAmount | l2jfree-commons/src/main/java/com/l2jfree/network/mmocore/FloodManager.java:75-80 | the window has at least one slot, one more than every tickLimit, and no more than the largest of 1 and tickLimit+1 |
| Flood.SlidResets | l2jfree-commons/src/main/java/com/l2jfree/network/mmocore/FloodManager.java:184-189 | a check a whole window or more after the last one finds every counter zero |
| Flood.SlidBackwards | l2jfree-commons/src/main/java/com/l2jfree/network/mmocore/FloodManager.java:190-196 | a clock that went backwards leaves every counter as it was |
| Flood.AdvanceZeroesEntered | l2jfree-commons/src/main/java/com/l2jfree/network/mmocore/FloodManager.java:199-204 | advancing the last tick zeroes the slots of the ticks entered and leaves the others |
| Flood.SlotsDistinct | l2jfree-commons/src/main/java/com/l2jfree/network/mmocore/FloodManager.java:203 | fewer than length consecutive ticks use distinct slots |
| Flood.EnteredCount | l2jfree-commons/src/main/java/com/l2jfree/network/mmocore/FloodManager.java:199-204 | advancing k ticks, k below the length, enters exactly k slots |
| Flood.BumpedOnlyCurrent | l2jfree-commons/src/main/java/com/l2jfree/network/mmocore/FloodManager.java:207-208 | with increment exactly the current slot grows by one (as a short); without, nothing changes |
| Flood.WindowSplit | l2jfree-commons/src/main/java/com/l2jfree/network/mmocore/FloodManager.java:215-224 | a window sum splits at any point between its ends |
| Flood.SumsOverlap | l2jfree-commons/src/main/java/com/l2jfree/network/mmocore/FloodManager.java:212-224 | previousSum covers offsets 1..tickLimit and currentSum offsets 0..tickLimit-1; they share offsets 1..tickLimit-1 |
| Flood.VerdictIsFirstMatch | l2jfree-commons/src/main/java/com/l2jfree/network/mmocore/FloodManager.java:210-233 | ACCEPTED exactly when no filter exceeds its limits; otherwise the verdict is that of the first filter that does |
| Flood.VerdictBelowMostSevere | l2jfree-commons/src/main/java/com/l2jfree/network/mmocore/FloodManager.java:210-233 | the verdict is never more severe than the most severe filter verdict, and is ACCEPTED exactly when that one is |
| Flood.FirstMatchIsNotMostSevere | l2jfree-commons/src/main/java/com/l2jfree/network/mmocore/FloodManager.java:226-230 | a warning from an earlier filter hides a rejection from a later one |
| Flood.LogEntry.constructor | l2jfree-commons/src/main/java/com/l2jfree/network/mmocore/FloodManager.java:166-168 | a new entry has tickAmount zero counters and the current tick as its last tick |
| Flood.LogEntry.Slide | l2jfree-commons/src/main/java/com/l2jfree/network/mmocore/FloodManager.java:184-205 | after sliding, the last tick is the current tick and the counters are the slid window |
| Flood.LogEntry.WindowSums | l2jfree-commons/src/main/java/com/l2jfree/network/mmocore/FloodManager.java:212-224 | the sum loop computes previousSum and currentSum of the filter |
| Flood.LogEntry.Evaluate | l2jfree-commons/src/main/java/com/l2jfree/network/mmocore/FloodManager.java:210-233 | the filter loop returns the first-match verdict |
| Flood.LogEntry.IsFlooding | l2jfree-commons/src/main/java/com/l2jfree/network/mmocore/FloodManager.java:180-234 | the entry's counters become the slid then bumped window, its last tick the current tick, and the result the verdict on them |
| Flood.FloodManager.constructor | l2jfree-commons/src/main/java/com/l2jfree/network/mmocore/FloodManager.java:70-89 | the limiter keeps the filters, sizes its windows by TickAmount and starts with no entries |
| Flood.FloodManager.IsFlooding | l2jfree-commons/src/main/java/com/l2jfree/network/mmocore/FloodManager.java:139-162 | a null or empty key is REJECTED and adds no entry; any other key gets an entry (new ones start zeroed at the current tick) checked as above; other entries stay as they were |
| Flood.FloodManager.Flush | l2jfree-commons/src/main/java/com/l2jfree/network/mmocore/FloodManager.java:120-137 | exactly the entries still active (by the wrapped int test of isActive) stay, unchanged, and the rest are removed |
| Flood.LogEntry.IsActive | l2jfree-commons/src/main/java/com/l2jfree/network/mmocore/FloodManager.java:175-178 | isActive on the entry: the elapsed ticks against ten windows, both as Java ints |
| Flood.StillActiveMeaning | l2jfree-commons/src/main/java/com/l2jfree/network/mmocore/FloodManager.java:177 | without a wrap, an entry stays exactly while fewer than ten windows have passed |
| Flood.StillActiveWraps | l2jfree-commons/src/main/java/com/l2jfree/network/mmocore/FloodManager.java:177 | from a tick amount of 214748365 on, `_tickAmount * 10` wraps negative and even an entry used this tick is inactive |
| Flood.Slid | l2jfree-commons/src/main/java/com/l2jfree/network/mmocore/FloodManager.java:182-205 | the window after the slide: cleared after a gap of a whole window, kept when the clock went back, otherwise walked forward (pinned by SlidResets, SlidBackwards, AdvanceZeroesEntered) |
| Flood.Bumped | l2jfree-commons/src/main/java/com/l2jfree/network/mmocore/FloodManager.java:207-208 | the window after the optional increment of the current slot (pinned by BumpedOnlyCurrent) |
| Flood.Verdict | l2jfree-commons/src/main/java/com/l2jfree/network/mmocore/FloodManager.java:210-233 | the verdict of the filter loop (pinned by VerdictIsFirstMatch) |
| ChangeAccessLevel.DecodeEncode | l2jfree-login/src/main/java/com/l2jfree/loginserver/network/legacy/packets/receivable/ChangeAccessLevel.java:56-57 | a level and account written as D then S decode to the same request and stop after them |
| ChangeAccessLevel.Decode | l2jfree-login/src/main/java/com/l2jfree/loginserver/network/legacy/packets/receivable/ChangeAccessLevel.java:53-58 | read as a function: D level, then S account (pinned by DecodeEncode and DecodeNeedsMinimum) |
| ChangeAccessLevel.DecodeNeedsMinimum | l2jfree-login/src/main/java/com/l2jfree/loginserver/network/legacy/packets/receivable/ChangeAccessLevel.java:44-47 | a packet that decodes is longer than the minimum length of 5 |
| ChangeAccessLevel.Update | l2jfree-login/src/main/java/com/l2jfree/loginserver/network/legacy/packets/receivable/ChangeAccessLevel.java:71-75 | superUser iff level > 0, a ban reason iff level < 0, and that reason is -level |
| ChangeAccessLevel.NeverBannedSuperUser | l2jfree-login/src/main/java/com/l2jfree/loginserver/network/legacy/packets/receivable/ChangeAccessLevel.java:71-75 | never both a ban reason and super user; level 0 clears both |
| ChangeAccessLevel.MinValueBanReason | l2jfree-login/src/main/java/com/l2jfree/loginserver/network/legacy/packets/receivable/ChangeAccessLevel.java:72 | Integer.MIN_VALUE negates to itself, so its ban reason is negative |
| ChangeAccessLevel.ChangeAccessLevel.constructor | l2jfree-login/src/main/java/com/l2jfree/loginserver/network/legacy/packets/receivable/ChangeAccessLevel.java:37-38 | the level starts at Java's 0; the null account is modelled as the empty string, which read overwrites |
| ChangeAccessLevel.ChangeAccessLevel.ReadFields | l2jfree-login/src/main/java/com/l2jfree/loginserver/network/legacy/packets/receivable/ChangeAccessLevel.java:53-58 | read stores the decoded level and account and moves the cursor past them, or fails with the decoder's error |
| PrivateStoreBuyList.RecordLength | l2jfree-core/src/main/java/com/l2jfree/gameserver/network/client/packets/receivable/SendPrivateStoreBuyList.java:68-70 | one record (D item, Q quantity, Q price) is read exactly when 20 bytes remain, and ends 20 bytes on; otherwise the read underflows |
| PrivateStoreBuyList.OneRecord | l2jfree-core/src/main/java/com/l2jfree/gameserver/network/client/packets/receivable/SendPrivateStoreBuyList.java:66-71 | one record takes 20 bytes, or the loop underflows |
| PrivateStoreBuyList.TakeRecordsLength | l2jfree-core/src/main/java/com/l2jfree/gameserver/network/client/packets/receivable/SendPrivateStoreBuyList.java:66-71 | n records take exactly 20·n bytes, or underflow when fewer remain |
| PrivateStoreBuyList.DecodeLength | l2jfree-core/src/main/java/com/l2jfree/gameserver/network/client/packets/receivable/SendPrivateStoreBuyList.java:61-72 | read consumes 8 + 20·count bytes (count ≤ 0 reads no record), and underflows when the buffer is shorter |
| PrivateStoreBuyList.Decode | l2jfree-core/src/main/java/com/l2jfree/gameserver/network/client/packets/receivable/SendPrivateStoreBuyList.java:61-72 | read as a function: D seller, D count, then the records (pinned by DecodeLength) |
| PrivateStoreBuyList.NoRecordsIsMinimum | l2jfree-core/src/main/java/com/l2jfree/gameserver/network/client/packets/receivable/SendPrivateStoreBuyList.java:65-66 | a count of zero or less consumes exactly the minimum length |
| PrivateStoreBuyList.SendPrivateStoreBuyList.ReadFields | l2jfree-core/src/main/java/com/l2jfree/gameserver/network/client/packets/receivable/SendPrivateStoreBuyList.java:61-72 | the counted loop moves the cursor exactly as far as the decoder says, or fails with its error |
| PrivateStoreBuyList.SendPrivateStoreBuyList.SkipRecord | l2jfree-core/src/main/java/com/l2jfree/gameserver/network/client/packets/receivable/SendPrivateStoreBuyList.java:68-70 | one pass of the loop moves the cursor to where the record decoder ends, or fails with its error |
| ObserverStart.ZeroBytes | l2jfree-core/src/main/java/com/l2jfree/gameserver/network/client/packets/sendable/ObserverStartPacket.java:61-72 | zero written at any width is that many zero bytes |
| ObserverStart.Body | l2jfree-core/src/main/java/com/l2jfree/gameserver/network/client/packets/sendable/ObserverStartPacket.java:58-73 | the body writeImpl appends for each client version (pinned by BodyLayout and BodyReadsBack) |
| ObserverStart.BodyLayout | l2jfree-core/src/main/java/com/l2jfree/gameserver/network/client/packets/sendable/ObserverStartPacket.java:58-73 | the body is 20 bytes for Goddess of Destruction and later and 15 before, every byte is zero, and both share the first 12 bytes |
| ObserverStart.BodyReadsBack | l2jfree-core/src/main/java/com/l2jfree/gameserver/network/client/packets/sendable/ObserverStartPacket.java:58-73 | a client reading the fields in the layout of its version reads zeros and ends at the end of the body |
| ObserverStart.ObserverStartPacket.Opcode | l2jfree-core/src/main/java/com/l2jfree/gameserver/network/client/packets/sendable/ObserverStartPacket.java:51-55 | the opcode is 0xeb |
| ObserverStart.ObserverStartPacket.WriteImpl | l2jfree-core/src/main/java/com/l2jfree/gameserver/network/client/packets/sendable/ObserverStartPacket.java:58-74 | writeImpl appends exactly the body for the client's version |
| GameServerAuth.TakeFixed | l2jfree-login/src/main/java/com/l2jfree/loginserver/network/legacy/packets/receivable/GameServerAuth.java:69-73 | the fixed fields take 9 bytes |
| GameServerAuth.TakeHexId | l2jfree-login/src/main/java/com/l2jfree/loginserver/network/legacy/packets/receivable/GameServerAuth.java:74-75 | the HexID takes its 4-byte size and that many bytes |
| GameServerAuth.TakeHostCount | l2jfree-login/src/main/java/com/l2jfree/loginserver/network/legacy/packets/receivable/GameServerAuth.java:76-77 | the host count takes 4 bytes and is doubled, so the host array has even length |
| GameServerAuth.DecodeHead | l2jfree-login/src/main/java/com/l2jfree/loginserver/network/legacy/packets/receivable/GameServerAuth.java:69-77 | the fields before the hosts take 17 bytes plus the HexID, and the host count is even |
| GameServerAuth.EncodeFields | l2jfree-login/src/main/java/com/l2jfree/loginserver/network/legacy/packets/receivable/GameServerAuth.java:69-79 | where each field of the request lies in its encoding |
| GameServerAuth.DecodeHeadEncode | l2jfree-login/src/main/java/com/l2jfree/loginserver/network/legacy/packets/receivable/GameServerAuth.java:69-77 | decoding the fields of an encoded request gives them back |
| GameServerAuth.DecodeEncode | l2jfree-login/src/main/java/com/l2jfree/loginserver/network/legacy/packets/receivable/GameServerAuth.java:66-80 | a request written in the field order reads back as itself and stops after its last host |
| GameServerAuth.DecodeNeedsMinimum | l2jfree-login/src/main/java/com/l2jfree/loginserver/network/legacy/packets/receivable/GameServerAuth.java:60-63 | a packet that decodes has at least the minimum length of 17 |
| GameServerAuth.MinimumIsTight | l2jfree-login/src/main/java/com/l2jfree/loginserver/network/legacy/packets/receivable/GameServerAuth.java:60-63 | a request with no HexID and no hosts is exactly 17 bytes and decodes |
| GameServerAuth.WrapDoubleEven | l2jfree-login/src/main/java/com/l2jfree/loginserver/network/legacy/packets/receivable/GameServerAuth.java:76 | twice any int, even after wrapping, is even |
| GameServerAuth.DecodedHostsPair | l2jfree-login/src/main/java/com/l2jfree/loginserver/network/legacy/packets/receivable/GameServerAuth.java:76-79 | every decoded host list has even length |
| GameServerAuth.HostsStep | l2jfree-login/src/main/java/com/l2jfree/loginserver/network/legacy/packets/receivable/GameServerAuth.java:78-79 | the host loop reads one string per pass and stops at the first underflow |
| GameServerAuth.FreeFrom | l2jfree-login/src/main/java/com/l2jfree/loginserver/network/legacy/packets/receivable/GameServerAuth.java:241-254 | the ID found is the smallest from k below 127 that is neither registered nor on-line; none means all of them are taken |
| GameServerAuth.ReassignMeaning | l2jfree-login/src/main/java/com/l2jfree/loginserver/network/legacy/packets/receivable/GameServerAuth.java:212-260 | an ID is assigned exactly when the query succeeded and an ID in 1..126 is free; it is the smallest free one, with no auth and untrusted |
| GameServerAuth.AuthorizedIdIsFree | l2jfree-login/src/main/java/com/l2jfree/loginserver/network/legacy/packets/receivable/GameServerAuth.java:89-95 | no authorization takes the ID of a game server that is on-line |
| GameServerAuth.OtherIdOnlyIfAccepted | l2jfree-login/src/main/java/com/l2jfree/loginserver/network/legacy/packets/receivable/GameServerAuth.java:89-95 | a server gets an ID other than the desired one only if it accepts one and the mode is not strict, and then by reassignment |
| GameServerAuth.AuthMatchesHexId | l2jfree-login/src/main/java/com/l2jfree/loginserver/network/legacy/packets/receivable/GameServerAuth.java:132-144 | a trusted server has its desired ID and the stored auth equals its HexID text with bans allowed; a stored auth decodes to the HexID |
| GameServerAuth.UnregisteredIdGranted | l2jfree-login/src/main/java/com/l2jfree/loginserver/network/legacy/packets/receivable/GameServerAuth.java:121-177 | a failed lookup is NO_FREE_ID; a free unregistered ID is WRONG_HEXID in strict mode and otherwise granted untrusted with the HexID text |
| GameServerAuth.ReassignsFromOnlineId | l2jfree-login/src/main/java/com/l2jfree/loginserver/network/legacy/packets/receivable/GameServerAuth.java:89-95 | a server that wants the on-line ID 1 and accepts another, with no ID registered, is authorized on ID 2 |
| GameServerAuth.LastZeroKeyedMeaning | l2jfree-login/src/main/java/com/l2jfree/loginserver/network/legacy/packets/receivable/GameServerAuth.java:190-199 | no host is chosen exactly when no key starts with "0"; otherwise the value of the last such key is chosen |
| GameServerAuth.LastZeroKeyedStep | l2jfree-login/src/main/java/com/l2jfree/loginserver/network/legacy/packets/receivable/GameServerAuth.java:191-193 | each pass of the host loop keeps the chosen host unless the key starts with "0" |
| GameServerAuth.GameServer.constructor | l2jfree-login/src/main/java/com/l2jfree/loginserver/network/legacy/packets/receivable/GameServerAuth.java:85 | a new connection is CONNECTED, not closed and has no host |
| GameServerAuth.GameServer.Close | l2jfree-login/src/main/java/com/l2jfree/loginserver/network/legacy/packets/receivable/GameServerAuth.java:93 | closing records the reason; the ID, auth and state stay |
| GameServerAuth.LegacyConnections.constructor | l2jfree-login/src/main/java/com/l2jfree/loginserver/network/legacy/packets/receivable/GameServerAuth.java:86 | no game server is on-line at first |
| GameServerAuth.LegacyConnections.AddGameServer | l2jfree-login/src/main/java/com/l2jfree/loginserver/network/legacy/packets/receivable/GameServerAuth.java:207 | the server is registered under the ID; the others stay |
| GameServerAuth.GameServerAuth.constructor | l2jfree-login/src/main/java/com/l2jfree/loginserver/network/legacy/packets/receivable/GameServerAuth.java:51-57 | numbers and the flag start at Java's 0 and false; the null HexID and host arrays are modelled as empty sequences, which read overwrites |
| GameServerAuth.GameServerAuth.ReadFields | l2jfree-login/src/main/java/com/l2jfree/loginserver/network/legacy/packets/receivable/GameServerAuth.java:66-80 | read stores the decoded request and moves the cursor past it, or fails with the decoder's error |
| GameServerAuth.GameServerAuth.ReadFixed | l2jfree-login/src/main/java/com/l2jfree/loginserver/network/legacy/packets/receivable/GameServerAuth.java:69-73 | reads desiredId, acceptAlternateId, the ignored byte, port and maxPlayers |
| GameServerAuth.GameServerAuth.ReadHexId | l2jfree-login/src/main/java/com/l2jfree/loginserver/network/legacy/packets/receivable/GameServerAuth.java:74-75 | reads the HexID size and that many bytes; a negative size fails |
| GameServerAuth.GameServerAuth.ReadHostCount | l2jfree-login/src/main/java/com/l2jfree/loginserver/network/legacy/packets/receivable/GameServerAuth.java:76-77 | reads the doubled host count; a negative result fails |
| GameServerAuth.GameServerAuth.ReadHosts | l2jfree-login/src/main/java/com/l2jfree/loginserver/network/legacy/packets/receivable/GameServerAuth.java:77-79 | the host loop reads the given number of strings |
| GameServerAuth.GameServerAuth.Admit | l2jfree-login/src/main/java/com/l2jfree/loginserver/network/legacy/packets/receivable/GameServerAuth.java:184-205 | the connection gets the ID, auth, trust, the host of the last "0" key (else 127.0.0.1), the port and the maximum players |
| GameServerAuth.GameServerAuth.FinishAuthorization | l2jfree-login/src/main/java/com/l2jfree/loginserver/network/legacy/packets/receivable/GameServerAuth.java:182-210 | the connection is admitted, AUTHED and registered under the ID it was given |
| GameServerAuth.GameServerAuth.FinishAuthorizationAsWritten | l2jfree-login/src/main/java/com/l2jfree/loginserver/network/legacy/packets/receivable/GameServerAuth.java:182-210 | as written: the connection is admitted and AUTHED but registered under the desired ID |
| GameServerAuth.GameServerAuth.ScanIds | l2jfree-login/src/main/java/com/l2jfree/loginserver/network/legacy/packets/receivable/GameServerAuth.java:241-254 | the scan finds an ID exactly when one in 1..126 is neither registered nor on-line, and then the smallest such ID |
| GameServerAuth.GameServerAuth.TryAssignAvailableId | l2jfree-login/src/main/java/com/l2jfree/loginserver/network/legacy/packets/receivable/GameServerAuth.java:212-260 | corrected tryAssignAvailableId: the smallest free ID is authorized and registered under that ID, or the connection is closed with NO_FREE_ID |
| GameServerAuth.GameServerAuth.TryAssignAvailableIdAsWritten | l2jfree-login/src/main/java/com/l2jfree/loginserver/network/legacy/packets/receivable/GameServerAuth.java:212-260 | tryAssignAvailableId as written: the smallest free ID is given to the server, which is then registered under its desired ID |
| GameServerAuth.GameServerAuth.RunImpl | l2jfree-login/src/main/java/com/l2jfree/loginserver/network/legacy/packets/receivable/GameServerAuth.java:83-180 | corrected runImpl: the connection is refused with the decided reason or authorized as decided and registered under its ID; every game server already on-line stays registered |
| GameServerAuth.GameServerAuth.RunImplAsWritten | l2jfree-login/src/main/java/com/l2jfree/loginserver/network/legacy/packets/receivable/GameServerAuth.java:83-180 | runImpl as written: refused or authorized as decided, and an authorized server is registered under its desired ID |
| GameServerAuth.DesiredIdDisplaced | l2jfree-login/src/main/java/com/l2jfree/loginserver/network/legacy/packets/receivable/GameServerAuth.java:207 | as written, with ID 1 on-line, a server reassigned to ID 2 is registered under ID 1 and the registry then holds it alone: the server on-line there is registered no more |
| GameServerAuth.DesiredIdKept | l2jfree-login/src/main/java/com/l2jfree/loginserver/network/legacy/packets/receivable/GameServerAuth.java:207 | corrected, the same case keeps the server on-line under ID 1 and registers the new one under ID 2 |
| GameServerAuth.Decode | l2jfree-login/src/main/java/com/l2jfree/loginserver/network/legacy/packets/receivable/GameServerAuth.java:66-80 | read as a function: the fixed fields, the HexID, the doubled host count and the hosts, or the first underflow or negative size (pinned by DecodeHead and DecodeEncode) |
| GameServerAuth.Decide | l2jfree-login/src/main/java/com/l2jfree/loginserver/network/legacy/packets/receivable/GameServerAuth.java:89-177 | the decision tree of runImpl over the on-line IDs, the strict setting, the lookup of the desired ID and the registered IDs (pinned by AuthorizedIdIsFree, OtherIdOnlyIfAccepted, AuthMatchesHexId, UnregisteredIdGranted) |
| GameServerAuth.Reassign | l2jfree-login/src/main/java/com/l2jfree/loginserver/network/legacy/packets/receivable/GameServerAuth.java:212-260 | tryAssignAvailableId as a function: NO_FREE_ID when the query fails or no ID is free, else the first free ID untrusted with no auth (pinned by ReassignMeaning) |
| GameServerAuth.LastZeroKeyed | l2jfree-login/src/main/java/com/l2jfree/loginserver/network/legacy/packets/receivable/GameServerAuth.java:190-193 | the value after the last key starting with "0" (pinned by LastZeroKeyedMeaning) |
| GameServerAuth.SelectHost | l2jfree-login/src/main/java/com/l2jfree/loginserver/network/legacy/packets/receivable/GameServerAuth.java:190-199 | the advertised host: the last "0"-keyed value, else 127.0.0.1 (Admit sets it) |

## Left out

- The lock of `FloodManager`, its once-a-minute `flush` schedule and `EMPTY_FLOOD_MANAGER` are not modelled. They concern concurrency and start-up.
- The clock is a parameter: the current tick is passed in. The tick length only converts milliseconds to ticks and is not modelled.
- The error mode and the logging of the flood limiter are not modelled.
- Flood.LogEntry.IsFlooding: requires the current tick to be at least the window length minus one. Java's `%` of a negative tick would index below zero, and Dafny's `%` would not, so that range is excluded.
- Flood.LogEntry.WindowSums: the sums are unbounded integers. The Java int sums could only overflow past 2^31 events, which 16-bit counters cannot reach with fewer than 65536 slots.
- Flood.FloodManager.constructor: requires every tickLimit to be below Integer.MAX_VALUE. At MAX_VALUE, `tickLimit + 1` wraps and `Math.max` ignores it, so the window has fewer slots than the filter reads: the sum loop `i <= tickLimit` cannot end normally and throws ArrayIndexOutOfBoundsException once `_lastTick - i` is negative.
- `printData(ByteBuffer, int, int)`, `generateHex`, `stringToHex` and `hexToString` are not modelled. They are NIO plumbing, randomness and BigInteger conversions. The line separator is a parameter.
- HexDump.PrintData: requires the array to be shorter than 2^31 bytes, the bound every Java array keeps. A len past the array is modelled as the exception it raises; the partial output it discards is not.
- Hex.BytesToHexStringWithDelimiter: `toUpperCase` is modelled on ASCII letters only, over strings of Unicode scalar values. Java's locale-aware mapping also changes non-ASCII letters of the delimiter and can lengthen it ("ß" becomes "SS"). The octets themselves are ASCII, so the no-delimiter and " " cases are exact.
- Hex.HexStringToBytes: `Character.digit` is modelled on ASCII digits and letters only, and the length is counted in Unicode scalar values. Java also accepts other Unicode digits (fullwidth, Arabic-Indic) and counts UTF-16 units, so a string with such characters can parse, or flip the odd-length test, where the model says otherwise.
- The database is not modelled. The lookup of the desired ID and the list of registered IDs are inputs, and a failed query is an input case. Saving an unregistered ID does not change the outcome, so the insert is left out.
- Sending `LoginServerFail` and `AuthResponse`, the logging, and the capacity of the packet buffer are not modelled.
- The game server connection (`L2GameServer`) and the registry of on-line servers (`L2LegacyConnections`) are not part of this model. They are modelled by only the fields and the `addGameServer` put that the packet uses.
- GameServerAuth.GameServerAuth.RunImpl: requires an even number of hosts, which `read` always produces (`GameServerAuth.DecodedHostsPair`). Admit, FinishAuthorization, FinishAuthorizationAsWritten, TryAssignAvailableId, TryAssignAvailableIdAsWritten and RunImplAsWritten require it too.
- An array too large for the heap (`OutOfMemoryError`) is not modelled.
- Strings read from packets are sequences of UTF-16 code units. The auth strings of the database are Dafny strings.
- The client protocol version of `ObserverStartPacket` is a flag, "at least Goddess of Destruction". The player object is not used by the body and is left out.
- `SendPrivateStoreBuyList.runImpl` has an empty body, so it is not modelled.
- `ChangeAccessLevel.runImpl` is modelled only by the values it binds to the update statement (`ChangeAccessLevel.Update`). The SQL `LIKE` match is not modelled.

## Findings

| source | as written | input that shows it | evidently intended | confidence | as-written member | corrected member |
|---|---|---|---|---|---|---|
| l2jfree-commons/src/main/java/com/l2jfree/util/HexUtil.java:205-216 | the last partial line of `printData(data, len)` is computed from `data.length`, not from `len`, so it shows bytes past `len` and pads for the wrong count | 17 bytes `0x41`, and 16 bytes `0x41` then `0x42`, with len 1: both show the same first byte, yet the dumps differ because the tail shows byte 16 | the tail covers the last `len % 16` bytes of the first `len` bytes | not executed | HexDump.DumpReadsPastLen | HexDump.DumpIntendedReadsOnlyLen |
| l2jfree-login/src/main/java/com/l2jfree/loginserver/network/legacy/packets/receivable/GameServerAuth.java:207 | `finishAuthorization(id, …)` registers the connection under `_desiredId`, not under the `id` it assigned | desired ID 1 on-line, alternate IDs accepted, not strict, no registered IDs: the server is authorized on ID 2 but registered under ID 1, replacing the server on-line there | register under the assigned `id` (`FinishAuthorization`), so that no server already on-line is replaced | not executed | GameServerAuth.DesiredIdDisplaced | GameServerAuth.GameServerAuth.RunImpl |
