# O-RAN testbed: verified model of two components

This project models two parts of the repository in Dafny and proves what their
encoders, decoders and state changes promise.

**ASN.1 primitive codecs** (`ric_benchmarking/Bouncer/asn1c_defs`), the hand-written
runtime below the generated message types:

| file | what it models |
|---|---|
| Octets, Decimal | octet strings as unsigned and two's complement numbers, 64-bit wrap-around, decimal text |
| Strtox | the two bounded decimal parsers |
| Integer, NativeInteger | INTEGER buffers, DER canonicalisation, conversions to and from 64-bit natives |
| BitStream, PerFields | the bit stream with its cursor, alignment, length determinants, extension bit |
| IntegerAper, AperForms | INTEGER in aligned PER: encoder, decoder, and the bits each value takes |
| EnumMap, NativeEnumerated | enumeration tables searched by number and, through a permutation, by name; ENUMERATED in unaligned PER |
| IntegerXer, IntegerForms | INTEGER as XML text: printer, the parser that may start over in hexadecimal, and the grammar it accepts |
| ObjectIdentifier, OidText | OBJECT IDENTIFIER arcs in base 128 and as dotted text |
| BitString, BitStringUper | BIT STRING trailing zeros and ordering, and its unaligned PER |
| OctetText, OctetMeaning, OctetReceivers, OctetDump | hexadecimal, binary and entity text: the receivers, what any text stands for, the printers |
| XerEscape, XerStream, XerRestart, XerTags, XerStrings, XerDocuments, XerDriver | UTF-8 escapes, the XML tokenizer and decoding loop, the restart law and its exact limits, tags and comments, whole documents under any cutting |
| BerIntake | restartable intake of primitive BER contents into a growing buffer |

**Inventory builder** (`XTesting/kubeadm/inventory.py`): OrderedDict, Inventory (the
host table folded over add and delete arguments), InventoryArguments (what each argument
and whole runs of them do), InventoryRoles (purging and assigning the roles), RolePlaces
(which hosts of a first run get which role), InventoryRun (the class itself).

Code that changes things step by step is a method or a class with the same loop,
branches and fields, proved against a specification function; what the code promises
is then proved of that function, for every input. `dafny verify dfyconfig.toml`
checks everything.

Octets are numbers 0 to 255, C integers are mathematical integers with the 64-bit
conversions written out, and the bit stream is a sequence of bits. Buffers handed to
callbacks are appended to an output. In the XML modules `more` says that something other
than text follows the text at hand, as the `have_more` argument does.

## Where the code does not keep its promise

For each a lemma says exactly when it holds, over every input, unless the entry says
otherwise.

- An unsigned native integer does not survive DER from 0xff80000000000000 up (`NativeInteger.UnsignedRoundTrip`): the encoder strips leading ones as if they were a sign.
- The signed decimal parser multiplies out of range when digits follow a negative value at the boundary (`Strtox.StrtoImax` tells every outcome; `Strtox.PastBoundaryIsUndefined` is an instance).
- XML text of an unsigned INTEGER above INTMAX_MAX is printed but not parsed (`IntegerForms.XerRoundTrip`).
- An enumeration name with a NUL inside is taken for a shorter one (`EnumMap.OtherNameFound`).
- Aligned PER: unsigned fields of up to 16 bits do not come back above INTMAX_MAX; semi-constrained fields are encoded and refused by the decoder; contents of a multiple of 16384 octets are not terminated (`IntegerAper.RoundTrip`). Of the aligned forms only the octet-counted one refuses padding other than zeros (`IntegerAper.PaddingChecked`, `IntegerAper.PaddingIgnored`).
- Normally small numbers above 63 are not read back (`NativeEnumerated.SmallRoundTrip`), nor root entries whose index outgrows the field; without a range, extensible enumerations come back only when `extension` is 1 (`NativeEnumerated.RoundTrip`).
- Bit strings with stray unused bits compare unequal to others of the same bits (`BitString.DirtyBitsCount`), binary text is or-ed into them (`OctetText.LaidExact`), and decoding into a used structure can leave its old `bits_unused` (`BitStringUper.StoredIsExact`). In unaligned PER a size field of more than 16 bits is written but read as a length determinant (`BitStringUper.RoundTrip`).
- XML strings: a control character named like the element ends the decoding (`XerStrings.EscapedDocument`), and text in which `<&` comes in front of what would make a reference decodes differently when cut after it (`XerRestart.CuttingShows`).
- BER intake refuses 2^30 octets or more, because the doubled allocation turns negative as an int (`BerIntake.AnySplit`).
- Inventory: generated names can replace hosts loaded or named (`Inventory.ReplacedIff`), loaded ones for exactly the prefixes with a number in front of their first dot (`Inventory.NothingOverwritten`, `Inventory.OverwrittenOtherwise`); hosts named like a role are never purged (`InventoryRoles.AllTableExact`); the route reflector test looks at the wrong level of the group (`InventoryRoles.ReflectorsAreEtcdHosts`, `InventoryRoles.ReflectorConflicts`); between the two thresholds control plane and nodes overlap (`InventoryRoles.FreshPartition`).
- Names in comments at `OCTET_STRING.c:681-684` say `de1` to `de4` where the octets of the table spell `dc1` to `dc4`; the model follows the octets.

## Model

| member | source | states |
|---|---|---|
| Integer.MinimalUnique | ric_benchmarking/Bouncer/asn1c_defs/INTEGER.c:87-93 | two minimal contents of the same value are the same octets (section 8.3.2 of ITU-T X.690) |
| Integer.DerIsCanonical | ric_benchmarking/Bouncer/asn1c_defs/INTEGER.c:87-93 | the reference encoding of any integer is minimal and reads back as that integer |
| Integer.MinimalIsDer | ric_benchmarking/Bouncer/asn1c_defs/INTEGER.c:87-93 | minimal contents are exactly the reference encodings |
| Integer.MinimalIsLarge | ric_benchmarking/Bouncer/asn1c_defs/INTEGER.c:87-93 | minimal contents of n octets hold a value outside the range of n - 1 octets |
| Integer.MinimalFits | ric_benchmarking/Bouncer/asn1c_defs/INTEGER.c:1152-1176 | a buffer of up to eight octets always fits intmax_t, a longer minimal one never does |
| Integer.EncodeDer | ric_benchmarking/Bouncer/asn1c_defs/INTEGER.c:77-115 | for any buffer, absent or of any length, the octets handed on are the canonical encoding of its value |
| Integer.SkipSuperfluous | ric_benchmarking/Bouncer/asn1c_defs/INTEGER.c:82-105 | the scan leaves a minimal suffix of the same value |
| Integer.IntegerConvert | ric_benchmarking/Bouncer/asn1c_defs/INTEGER.c:1117-1135 | shift-and-or with wrap-around yields the two's complement value |
| Integer.SignedOfPattern | ric_benchmarking/Bouncer/asn1c_defs/INTEGER.c:1118-1135 | the eight octets of a 64-bit pattern read back as the signed meaning of that pattern |
| Integer.ToIntmax | ric_benchmarking/Bouncer/asn1c_defs/INTEGER.c:1137-1186 | succeeds on a buffer of any length exactly when its value fits intmax_t, and returns that value |
| Integer.ToUintmax | ric_benchmarking/Bouncer/asn1c_defs/INTEGER.c:1189-1219 | the same for uintmax_t; the sign bit is taken as magnitude |
| Integer.FromIntmax | ric_benchmarking/Bouncer/asn1c_defs/INTEGER.c:1247-1300 | stores the canonical octets of any intmax_t value, so ToIntmax gives it back |
| Integer.FromUintmax | ric_benchmarking/Bouncer/asn1c_defs/INTEGER.c:1221-1245 | stores canonical octets from which ToUintmax gives back any value in 0..2^64-1 |
| Strtox.StrtoUmax | ric_benchmarking/Bouncer/asn1c_defs/INTEGER.c:1497-1549 | reports a range error exactly when the leading digit run exceeds 2^64-1, at the digit that leaves the range; otherwise the exact value and where the digits stop |
| Strtox.StrtoImax | ric_benchmarking/Bouncer/asn1c_defs/INTEGER.c:1429-1494 | the complete outcome for every text: exact value, first digit that leaves the range, or the unguarded overflow |
| Strtox.InRangeIsRead | ric_benchmarking/Bouncer/asn1c_defs/INTEGER.c:1429-1494 | every numeral in -2^63..2^63-1, however many digits it has, is read exactly and without overflow |
| Strtox.PastBoundaryIsUndefined | ric_benchmarking/Bouncer/asn1c_defs/INTEGER.c:1459-1469 | a digit after -9223372036854775808 is not reported as out of range: the multiplication overflows |
| Strtox.ReadingSteps | ric_benchmarking/Bouncer/asn1c_defs/INTEGER.c:1450-1478 | what each digit does to the accumulator, whose sign is switched once at the boundary |
| EnumMap.MapValue2Enum | ric_benchmarking/Bouncer/asn1c_defs/INTEGER.c:298-305 | binary search by number finds the entry of that number or nothing |
| EnumMap.SearchName | ric_benchmarking/Bouncer/asn1c_defs/INTEGER.c:230-247 | binary search through the permutation finds the first entry the key selects |
| EnumMap.MapEnum2Value | ric_benchmarking/Bouncer/asn1c_defs/INTEGER.c:249-286 | the name is cut out of the tag at its first terminator; no terminator, no entry |
| EnumMap.TagEntryIs | ric_benchmarking/Bouncer/asn1c_defs/INTEGER.c:259-275 | the name ends at the first blank, slash or bracket after the tag's own; a text without one names nothing |
| EnumMap.ComparEnum2Value | ric_benchmarking/Bouncer/asn1c_defs/INTEGER.c:230-247 | the comparator: its sign is the order of the key against the permuted entry's name |
| EnumMap.EntryFoundBothWays | ric_benchmarking/Bouncer/asn1c_defs/INTEGER.c:230-305 | every entry of a well-formed table is found by its number and by its name |
| EnumMap.NameFoundIffListed | ric_benchmarking/Bouncer/asn1c_defs/INTEGER.c:230-286 | a key without NUL finds exactly the entry of that name, and otherwise nothing |
| EnumMap.NulCutsTheKey | ric_benchmarking/Bouncer/asn1c_defs/INTEGER.c:239-246 | a key that goes on after a name with a NUL finds the entry of that name |
| EnumMap.OtherNameFound | ric_benchmarking/Bouncer/asn1c_defs/INTEGER.c:230-286 | false promise: an entry of another name is found if and only if the key goes on after some name with a NUL |
| IntegerXer.DumpHex | ric_benchmarking/Bouncer/asn1c_defs/INTEGER.c:183-203 | the scratch buffer, flushed as it fills, prints all octets as xx:yy:zz and counts them |
| IntegerXer.HexTextIsColons | ric_benchmarking/Bouncer/asn1c_defs/INTEGER.c:183-203 | dropping the last colon leaves exactly the separated form |
| IntegerXer.EncodeXer | ric_benchmarking/Bouncer/asn1c_defs/INTEGER.c:569-586 | decimal, tag or hexadecimal form chosen by size, table and strictness |
| IntegerXer.XerBodyDecode | ric_benchmarking/Bouncer/asn1c_defs/INTEGER.c:324-558 | the parser ends, starts over in hexadecimal at most once, and never stores beyond chunk_size/3 + 1 octets |
| IntegerXer.CharKeeps | ric_benchmarking/Bouncer/asn1c_defs/INTEGER.c:362-497 | three characters are spent on each octet stored; only a parser still in decimal mode starts over, and never returns to it |
| IntegerXer.FinishDecode | ric_benchmarking/Bouncer/asn1c_defs/INTEGER.c:499-558 | the final state decides between a stored value, a stored octet string and each error code |
| IntegerXer.DecimalValue | ric_benchmarking/Bouncer/asn1c_defs/INTEGER.c:506-530 | the decimal part of the final switch, result code by result code |
| IntegerForms.ReadIffSpelled | ric_benchmarking/Bouncer/asn1c_defs/INTEGER.c:324-558 | the whole parser: a text is read if and only if it is blank, a signed decimal between blanks, pairs of hexadecimal digits of either case between blanks, or a tag that names an entry; and for exactly what that form stands for |
| IntegerForms.NumberRead | ric_benchmarking/Bouncer/asn1c_defs/INTEGER.c:372-424 | blanks, a sign or none, digits, blanks: the exact value, the range limit, or the unguarded overflow |
| IntegerForms.PairsRead | ric_benchmarking/Bouncer/asn1c_defs/INTEGER.c:399-480 | blanks, pairs of digits of either case with colons between them, blanks: those octets, unless it is two decimal digits |
| IntegerForms.TagRead | ric_benchmarking/Bouncer/asn1c_defs/INTEGER.c:426-442 | blanks and a tag that names an entry: its number |
| IntegerForms.BlankRead | ric_benchmarking/Bouncer/asn1c_defs/INTEGER.c:366-370 | blanks alone are no contents |
| IntegerForms.Spelled | ric_benchmarking/Bouncer/asn1c_defs/INTEGER.c:362-558 | whatever is not refused has one of these forms |
| IntegerForms.ShapeKept | ric_benchmarking/Bouncer/asn1c_defs/INTEGER.c:362-497 | each character moves the parser from what one state has read to what the next has read |
| IntegerForms.Restarts | ric_benchmarking/Bouncer/asn1c_defs/INTEGER.c:443-476 | pairs that start with a decimal digit are taken for a number first, and read again from the start |
| IntegerForms.ScanPair | ric_benchmarking/Bouncer/asn1c_defs/INTEGER.c:399-412 | two hexadecimal digits store the octet they spell |
| IntegerForms.NameRead | ric_benchmarking/Bouncer/asn1c_defs/INTEGER.c:426-442 | a name in a tag, whatever terminator ends it and whatever follows, is parsed to its number |
| IntegerForms.HexTextPaired | ric_benchmarking/Bouncer/asn1c_defs/INTEGER.c:183-203 | the long form is printed as pairs of digits |
| IntegerForms.Printed | ric_benchmarking/Bouncer/asn1c_defs/INTEGER.c:131-205 | what is printed: the tag of a listed value, nothing from a strict type, the shortest decimal, or pairs of digits |
| IntegerForms.DecimalRoundTrip | ric_benchmarking/Bouncer/asn1c_defs/INTEGER.c:161-171 | a printed number is parsed to its canonical octets exactly when it fits intmax_t |
| IntegerForms.HexRoundTrip | ric_benchmarking/Bouncer/asn1c_defs/INTEGER.c:183-203 | the long form of any length comes back octet for octet |
| IntegerForms.EnumRoundTrip | ric_benchmarking/Bouncer/asn1c_defs/INTEGER.c:426-442 | the tag of an enumerated value comes back as that value |
| IntegerForms.XerRoundTrip | ric_benchmarking/Bouncer/asn1c_defs/INTEGER.c:131-558 | print then parse is the identity on value for every buffer length, except unsigned values above INTMAX_MAX, which end in the decoder limit |
| IntegerAper.LengthWidth | ric_benchmarking/Bouncer/asn1c_defs/INTEGER.c:1068-1072 | the scan ends at the least width whose power of two covers the octet count |
| IntegerAper.CountWidth | ric_benchmarking/Bouncer/asn1c_defs/INTEGER.c:1062-1072 | the octet count takes two bits for ranges of up to 32 bits, three above |
| IntegerAper.HighestOctet | ric_benchmarking/Bouncer/asn1c_defs/INTEGER.c:1074-1079 | the scan ends at the highest non-zero octet |
| IntegerAper.CountFits | ric_benchmarking/Bouncer/asn1c_defs/INTEGER.c:1062-1083 | the octet count less one always fits the length field, and that many octets hold the whole offset |
| IntegerAper.TopOctetsHold | ric_benchmarking/Bouncer/asn1c_defs/INTEGER.c:1074-1092 | no non-zero octet of the offset is left out |
| IntegerAper.CountedRoundTrip | ric_benchmarking/Bouncer/asn1c_defs/INTEGER.c:867-895 | the octet-counted form is read back from any bit offset (12.2.6 of ITU-T X.691) |
| IntegerAper.RangeRoundTrip | ric_benchmarking/Bouncer/asn1c_defs/INTEGER.c:1036-1095 | any offset into a range of up to 64 bits is read back from any bit offset, consuming exactly its bits |
| IntegerAper.RebaseOffset | ric_benchmarking/Bouncer/asn1c_defs/INTEGER.c:1043-1043 | modulo 2^64 the offset written is the distance from the low bound and fits the width |
| IntegerAper.RebaseRoundTrip | ric_benchmarking/Bouncer/asn1c_defs/INTEGER.c:896-899 | adding the low bound back recovers the value, up to the conversion the width selects |
| IntegerAper.UnconstrainedRoundTrip | ric_benchmarking/Bouncer/asn1c_defs/INTEGER.c:936-954 | contents whose size is not a multiple of 16384 are read back, in any number of fragments |
| IntegerAper.UnterminatedFragments | ric_benchmarking/Bouncer/asn1c_defs/INTEGER.c:1103-1110 | false promise: a multiple of 16384 octets has no closing length, so the decoder fails or goes on into what follows |
| IntegerAper.RangedRoundTrip | ric_benchmarking/Bouncer/asn1c_defs/INTEGER.c:971-1095 | a value in the root range is decoded to its canonical octets exactly when it is signed, wider than 16 bits, or at most INTMAX_MAX |
| IntegerAper.OpenRoundTrip | ric_benchmarking/Bouncer/asn1c_defs/INTEGER.c:929-954 | a value outside the root, or without range, comes back octet for octet, its bits consumed exactly, from any stream that holds it, if and only if its constraint is not left with flags and its size not a multiple of 16384 |
| IntegerAper.RoundTrip | ric_benchmarking/Bouncer/asn1c_defs/INTEGER.c:820-1113 | every value of either form: the decoder undoes the encoder if and only if Faithful, which is told from value, constraint and size |
| IntegerAper.PaddingIgnored | ric_benchmarking/Bouncer/asn1c_defs/INTEGER.c:908-919 | before a field of 8 to 16 bits the padding may be anything |
| IntegerAper.PaddingChecked | ric_benchmarking/Bouncer/asn1c_defs/INTEGER.c:887-888 | before the octets of the counted form it must be zeros |
| IntegerAper.SequenceRoundTrip | ric_benchmarking/Bouncer/asn1c_defs/INTEGER.c:820-1113 | any sequence of values under their own constraints, from any bit offset, comes back in order, consuming exactly the bits written |
| AperForms.RefusedIff | ric_benchmarking/Bouncer/asn1c_defs/INTEGER.c:978-1035 | which contents are refused: empty ones, those that do not fit the field, those outside the bounds of a type that cannot be extended, and a low bound without a range |
| AperForms.EncodedIff | ric_benchmarking/Bouncer/asn1c_defs/INTEGER.c:971-1113 | the bits written are the one form the value has: extension bit, offset from the low bound in the width of the range, or octets in fragments |
| AperForms.RangeFormIs | ric_benchmarking/Bouncer/asn1c_defs/INTEGER.c:1045-1095 | an offset has one form: as many bits as the range below 8, one or two aligned octets up to 16, else a count in two or three bits and the fewest octets that hold it |
| AperForms.FragmentsWritten | ric_benchmarking/Bouncer/asn1c_defs/INTEGER.c:1103-1110 | contents without range are octets on an octet boundary, each fragment after its length |
| AperForms.CountedRead | ric_benchmarking/Bouncer/asn1c_defs/INTEGER.c:867-895 | any count of octets the field can tell is read, needed to hold the number or not |
| AperForms.OffsetStored | ric_benchmarking/Bouncer/asn1c_defs/INTEGER.c:820-929 | whatever offset a stream holds, what is stored is canonical, congruent to offset plus low bound modulo 2^64 and in the range of the conversion; without a range the decoder fails |
| AperForms.PastRoot | ric_benchmarking/Bouncer/asn1c_defs/INTEGER.c:838-842 | past the extension root the constraint no longer counts |
| AperForms.PiecesRead | ric_benchmarking/Bouncer/asn1c_defs/INTEGER.c:936-954 | contents in any fragments, closed by a shorter one, perhaps empty, are gathered, whatever the padding holds |
| AperForms.UnflaggedStored | ric_benchmarking/Bouncer/asn1c_defs/INTEGER.c:956-966 | without flags the octets are stored as they stand, and a low bound is added to their number if that fits |
| IntegerAper.PutRange | ric_benchmarking/Bouncer/asn1c_defs/INTEGER.c:1036-1095 | each form of a constrained field, appended at any bit offset |
| IntegerAper.PutCounted | ric_benchmarking/Bouncer/asn1c_defs/INTEGER.c:1061-1093 | count, alignment and octets of ranges over 16 bits |
| IntegerAper.PutUnconstrained | ric_benchmarking/Bouncer/asn1c_defs/INTEGER.c:1103-1110 | all contents go out in length-prefixed fragments |
| IntegerAper.EncodeAper | ric_benchmarking/Bouncer/asn1c_defs/INTEGER.c:971-1113 | success and the bits appended, for every contents, constraint and signedness |
| IntegerAper.GetRange | ric_benchmarking/Bouncer/asn1c_defs/INTEGER.c:866-924 | the offset read, in a signed long |
| IntegerAper.GetCounted | ric_benchmarking/Bouncer/asn1c_defs/INTEGER.c:867-895 | count, zero padding demanded, then the octets |
| IntegerAper.GetOctets | ric_benchmarking/Bouncer/asn1c_defs/INTEGER.c:889-894 | octets added in from the top wrap to the signed reading of the whole |
| IntegerAper.GetUnconstrained | ric_benchmarking/Bouncer/asn1c_defs/INTEGER.c:937-954 | fragments are gathered until one is not followed by another |
| IntegerAper.DecodeAper | ric_benchmarking/Bouncer/asn1c_defs/INTEGER.c:820-969 | success, the octets stored and the bits consumed, for every stream and constraint |
| NativeInteger.PadToEight | ric_benchmarking/Bouncer/asn1c_defs/NativeInteger.c:166-176 | the loop leaves the eight octets of the native value |
| NativeInteger.EncodeDer | ric_benchmarking/Bouncer/asn1c_defs/NativeInteger.c:153-184 | padding then stripping gives the same octets as the direct encoding of the value read as signed |
| NativeInteger.DecodeBerValue | ric_benchmarking/Bouncer/asn1c_defs/NativeInteger.c:113-139 | the native value of the contents by the field's signedness, or failure when it does not fit |
| NativeInteger.SignedRoundTrip | ric_benchmarking/Bouncer/asn1c_defs/NativeInteger.c:67-184 | every signed native integer survives |
| NativeInteger.UnsignedRoundTrip | ric_benchmarking/Bouncer/asn1c_defs/NativeInteger.c:157-157 | an unsigned one survives if and only if it is below 0xff80000000000000 |
| NativeInteger.UnsignedMaximumIsLost | ric_benchmarking/Bouncer/asn1c_defs/NativeInteger.c:157-157 | 2^64-1 is encoded as ff and decoded as 255 |
| BitStream.FromToBits | ric_benchmarking/Bouncer/asn1c_defs/asn_bit_data.c:62-142 | a field that fits its width is read back as its value |
| BitStream.ToFromBits | ric_benchmarking/Bouncer/asn1c_defs/asn_bit_data.c:191-277 | writing the value read reproduces the bits |
| BitStream.ToBitsSplit | ric_benchmarking/Bouncer/asn1c_defs/asn_bit_data.c:267-270 | a field written in a high and a low part is the field written whole |
| BitStream.Writer.PutFew | ric_benchmarking/Bouncer/asn1c_defs/asn_bit_data.c:191-277 | appends the low bits of the value, and refuses widths outside 0..31 |
| BitStream.Writer.PutMany | ric_benchmarking/Bouncer/asn1c_defs/asn_bit_data.c:283-311 | appends exactly the first nbits bits of the octets, 24 at a time |
| BitStream.Reader.GetFew | ric_benchmarking/Bouncer/asn1c_defs/asn_bit_data.c:62-142 | reads a field, or fails leaving the stream where it was |
| BitStream.Reader.GetMany | ric_benchmarking/Bouncer/asn1c_defs/asn_bit_data.c:147-186 | stores the bits left-aligned, the last octet padded with zeros |
| BitStream.FewAt | ric_benchmarking/Bouncer/asn1c_defs/asn_bit_data.c:62-142 | a field found in the stream is read as its value |
| BitStream.ManyAt | ric_benchmarking/Bouncer/asn1c_defs/asn_bit_data.c:147-186 | octets found in the stream are read back |
| BitStream.GroupBits | ric_benchmarking/Bouncer/asn1c_defs/asn_bit_data.c:293-306 | the octets shifted together stand for the next bits of the source |
| BitStream.UngroupIsPack | ric_benchmarking/Bouncer/asn1c_defs/asn_bit_data.c:161-182 | the octets stored stand for the bits read |
| BitStream.PackConcat | ric_benchmarking/Bouncer/asn1c_defs/asn_bit_data.c:159-183 | octets stored in steps are the octets stored at once |
| BitStream.Writer.PutAlign | ric_benchmarking/Bouncer/asn1c_defs/per_support.c:390-398 | appends zeros up to the next octet boundary |
| BitStream.Reader.GetAlign | ric_benchmarking/Bouncer/asn1c_defs/per_support.c:297-305 | passes over the bits up to the boundary and yields their value |
| BitStream.AlignedAt | ric_benchmarking/Bouncer/asn1c_defs/per_support.c:297-305 | padding written is passed over and yields zero |
| PerFields.HeaderRoundTrip | ric_benchmarking/Bouncer/asn1c_defs/per_support.c:14-44 | whatever the number of units, the length determinant is read back as the units let go |
| PerFields.PutHeader | ric_benchmarking/Bouncer/asn1c_defs/per_support.c:168-192 | the determinant of up to 127, up to 16383, or up to four fragments |
| PerFields.GetHeader | ric_benchmarking/Bouncer/asn1c_defs/per_support.c:27-43 | the determinant read; one asking for no fragment or more than four is refused |
| PerFields.HeaderOctets | ric_benchmarking/Bouncer/asn1c_defs/per_support.c:168-192 | the determinant is one octet up to 127, two up to 16383, else one that counts up to four fragments (section 11.9 of ITU-T X.691) |
| PerFields.DeterminantRead | ric_benchmarking/Bouncer/asn1c_defs/per_support.c:27-43 | what every determinant means, also one never written; leading octets 192 and above 196 are refused |
| IntegerAper.LengthRoundTrip | ric_benchmarking/Bouncer/asn1c_defs/per_support.c:307-335 | the same for a determinant on an octet boundary |
| IntegerAper.PutLength | ric_benchmarking/Bouncer/asn1c_defs/per_support.c:400-425 | alignment and determinant, and how many octets may follow |
| IntegerAper.GetLength | ric_benchmarking/Bouncer/asn1c_defs/per_support.c:307-335 | alignment of any value is passed over before the determinant |
| NativeEnumerated.SmallRoundTrip | ric_benchmarking/Bouncer/asn1c_defs/per_support.c:74-120 | false promise: a normally small number is read back if and only if it is at most 63 |
| NativeEnumerated.PutNsnnwn | ric_benchmarking/Bouncer/asn1c_defs/per_support.c:100-120 | the bits of a small number, or refusal outside 0..2^24-1 |
| NativeEnumerated.GetNsnnwn | ric_benchmarking/Bouncer/asn1c_defs/per_support.c:74-94 | the number read, with each refusal of the longer form |
| NativeEnumerated.SmallWritten | ric_benchmarking/Bouncer/asn1c_defs/per_support.c:100-120 | a small number has one form: six bits after a zero, or the fewest octets, at most three, after their count; any other number is refused |
| NativeEnumerated.SmallRead | ric_benchmarking/Bouncer/asn1c_defs/per_support.c:74-94 | the number read, for every stream: after a one the next eight bits are the count, and no more than two octets are taken |
| BitStringUper.PutLength | ric_benchmarking/Bouncer/asn1c_defs/per_support.c:168-192 | the determinant, and whether a closing length is due |
| BitStringUper.GetLength | ric_benchmarking/Bouncer/asn1c_defs/per_support.c:14-44 | a constrained size field, or the determinant |
| NativeEnumerated.RoundTrip | ric_benchmarking/Bouncer/asn1c_defs/NativeEnumerated.c:92-229 | encode then decode gives the same number exactly for root entries whose index fits the field and the first 64 extensions; without a range, exactly when extension is 1 and the index at most 63 |
| NativeEnumerated.EncodedIff | ric_benchmarking/Bouncer/asn1c_defs/NativeEnumerated.c:160-229 | the bits written are those of the entry that has the number: its index in the root, or its distance from the extension marker as a small number; no entry, no form, failure |
| NativeEnumerated.DecodedIff | ric_benchmarking/Bouncer/asn1c_defs/NativeEnumerated.c:92-147 | the number stored, for every stream: the root entry whose index is read, or the one that far behind the extension marker |
| NativeEnumerated.FindIndex | ric_benchmarking/Bouncer/asn1c_defs/NativeEnumerated.c:149-158 | binary search by number yields the index in the table |
| NativeEnumerated.IndexOf | ric_benchmarking/Bouncer/asn1c_defs/NativeEnumerated.c:187-194 | the index names an entry of that number, and there is one whenever the number is listed |
| NativeEnumerated.EncodeUper | ric_benchmarking/Bouncer/asn1c_defs/NativeEnumerated.c:160-229 | success and the bits appended, for every table, constraint and number |
| NativeEnumerated.DecodeUper | ric_benchmarking/Bouncer/asn1c_defs/NativeEnumerated.c:92-147 | success, number and bits consumed, for every stream |
| ObjectIdentifier.GetSingleArc | ric_benchmarking/Bouncer/asn1c_defs/OBJECT_IDENTIFIER.c:108-144 | an arc is read if and only if the first terminated group is worth at most 2^32-1, for any number of leading 0x80 octets and with no wrap-around |
| ObjectIdentifier.TooLarge | ric_benchmarking/Bouncer/asn1c_defs/OBJECT_IDENTIFIER.c:133-138 | a prefix over the limit that goes on belongs to a group over 2^32-1 |
| ObjectIdentifier.Val128Grows | ric_benchmarking/Bouncer/asn1c_defs/OBJECT_IDENTIFIER.c:123-139 | each further octet multiplies the value by at least 128 |
| ObjectIdentifier.FirstArcOfArc | ric_benchmarking/Bouncer/asn1c_defs/OBJECT_IDENTIFIER.c:108-144 | an encoded arc is read back with its length, whatever follows it |
| ObjectIdentifier.ArcIsShort | ric_benchmarking/Bouncer/asn1c_defs/OBJECT_IDENTIFIER.c:352-382 | every arc takes one to five octets and does not start with 0x80 (section 8.19 of ITU-T X.690) |
| ObjectIdentifier.MinimalGroupIsArc | ric_benchmarking/Bouncer/asn1c_defs/OBJECT_IDENTIFIER.c:352-382 | a terminated group that does not start with 0x80 is the encoding of its value |
| ObjectIdentifier.FillScratch | ric_benchmarking/Bouncer/asn1c_defs/OBJECT_IDENTIFIER.c:359-371 | the loop leaves the arc at the end of the scratch buffer and never runs out of it |
| ObjectIdentifier.SetSingleArc | ric_benchmarking/Bouncer/asn1c_defs/OBJECT_IDENTIFIER.c:352-382 | stores the arc when there is room and returns its length, else -1 and nothing stored |
| ObjectIdentifier.ArcsFit | ric_benchmarking/Bouncer/asn1c_defs/OBJECT_IDENTIFIER.c:425-433 | the estimate of five octets an arc suffices |
| ObjectIdentifier.RoundTrip | ric_benchmarking/Bouncer/asn1c_defs/OBJECT_IDENTIFIER.c:293-470 | every arc list that meets the first-two-arc rule is recovered from its encoding |
| ObjectIdentifier.EncodeInjective | ric_benchmarking/Bouncer/asn1c_defs/OBJECT_IDENTIFIER.c:384-470 | different valid identifiers have different contents |
| ObjectIdentifier.DecodedIsValid | ric_benchmarking/Bouncer/asn1c_defs/OBJECT_IDENTIFIER.c:86-106 | whatever decodes meets the first-two-arc rule |
| ObjectIdentifier.SetArcs | ric_benchmarking/Bouncer/asn1c_defs/OBJECT_IDENTIFIER.c:384-470 | succeeds exactly on valid arc lists, never for lack of room, and otherwise leaves the structure alone |
| ObjectIdentifier.GetArcs | ric_benchmarking/Bouncer/asn1c_defs/OBJECT_IDENTIFIER.c:293-346 | the number of arcs and as many as there are slots, or -1 exactly for broken contents |
| OidText.DumpBody | ric_benchmarking/Bouncer/asn1c_defs/OBJECT_IDENTIFIER.c:146-196 | prints the dotted form exactly for contents that decode; the 32-character buffer always suffices |
| OidText.ArcPrintsShort | ric_benchmarking/Bouncer/asn1c_defs/OBJECT_IDENTIFIER.c:149-149 | an arc prints in at most ten characters |
| OidText.ParseArcs | ric_benchmarking/Bouncer/asn1c_defs/OBJECT_IDENTIFIER.c:472-590 | the count returned and the slots filled, for every text and any number of slots |
| OidText.CaptureArc | ric_benchmarking/Bouncer/asn1c_defs/OBJECT_IDENTIFIER.c:494-518 | a digit run is taken whole if and only if it is worth at most 2^32-1 |
| OidText.WrittenIsParsed | ric_benchmarking/Bouncer/asn1c_defs/OBJECT_IDENTIFIER.c:472-590 | spaces, dotted numerals of at most 2^32-1 each, spaces: accepted with exactly those numbers |
| OidText.ParsedIsWritten | ric_benchmarking/Bouncer/asn1c_defs/OBJECT_IDENTIFIER.c:472-590 | every text accepted with a positive count has that form |
| OidText.AcceptedIffWritten | ric_benchmarking/Bouncer/asn1c_defs/OBJECT_IDENTIFIER.c:472-590 | a positive count is returned if and only if the text has that form |
| OidText.TextRoundTrip | ric_benchmarking/Bouncer/asn1c_defs/OBJECT_IDENTIFIER.c:146-590 | parsing a printed identifier gives back its arcs |
| OidText.XerBodyDecode | ric_benchmarking/Bouncer/asn1c_defs/OBJECT_IDENTIFIER.c:198-238 | ten slots, then as many as were counted: the contents stored are the encoding of the arcs parsed, with each error code |
| BitString.LowestBitIs | ric_benchmarking/Bouncer/asn1c_defs/BIT_STRING.c:238-238 | v & -v isolates the lowest set bit |
| BitString.UnusedIsTrailingZeros | ric_benchmarking/Bouncer/asn1c_defs/BIT_STRING.c:236-241 | the three mask tests count the zeros below it |
| BitString.CompactLength | ric_benchmarking/Bouncer/asn1c_defs/BIT_STRING.c:219-255 | dropping zero octets and the zeros of the last one drops exactly the trailing zero bits |
| BitString.Compactify | ric_benchmarking/Bouncer/asn1c_defs/BIT_STRING.c:219-255 | the octets kept and the unused bits end the string at its last one bit |
| BitString.OrderIsLex | ric_benchmarking/Bouncer/asn1c_defs/BIT_STRING.c:276-304 | octet order of stripped strings is decided at the first differing bit |
| BitString.CompactedOrder | ric_benchmarking/Bouncer/asn1c_defs/BIT_STRING.c:276-304 | the order of the compacted strings is the lexicographic order of the strings extended by zeros for ever |
| BitString.LexTransitive | ric_benchmarking/Bouncer/asn1c_defs/BIT_STRING.c:261-305 | that order is transitive |
| BitString.LexTrichotomy | ric_benchmarking/Bouncer/asn1c_defs/BIT_STRING.c:261-305 | no two strings are less than each other, or less and equal |
| BitString.Compare | ric_benchmarking/Bouncer/asn1c_defs/BIT_STRING.c:261-305 | the sign is that of the lexicographic order; 0 exactly when the strings differ in trailing zeros only, so the unused-bits comparison never decides (section 22.7 of ITU-T X.680) |
| BitString.CleanBits | ric_benchmarking/Bouncer/asn1c_defs/BIT_STRING.c:264-271 | with zero unused bits the bits compared are those of the value |
| BitString.EqualBitsCompare | ric_benchmarking/Bouncer/asn1c_defs/BIT_STRING.c:261-305 | two values that stand for the same bits compare equal if and only if they are the same value |
| BitString.DirtyBitsCount | ric_benchmarking/Bouncer/asn1c_defs/BIT_STRING.c:264-271 | false promise: a value compares equal to a clean value of its own bits if and only if its unused bits are zero |
| BitString.StrayBit | ric_benchmarking/Bouncer/asn1c_defs/BIT_STRING.c:264-271 | an instance of one bit |
| BitStringUper.FragmentsRoundTrip | ric_benchmarking/Bouncer/asn1c_defs/BIT_STRING.c:525-541 | a string of any size is read back through its fragments and closing length |
| BitStringUper.ConstrainedRoundTrip | ric_benchmarking/Bouncer/asn1c_defs/BIT_STRING.c:492-521 | a constrained size field and the padded bits are read back |
| BitStringUper.WideField | ric_benchmarking/Bouncer/asn1c_defs/BIT_STRING.c:391-420 | a size field of more than 16 bits, read as determinants, lets in fewer bits than its size and the bits saved on it |
| BitStringUper.WideSizeFails | ric_benchmarking/Bouncer/asn1c_defs/BIT_STRING.c:391-420 | so what such a field leads to is never the value sent, in any stream |
| BitStringUper.RoundTrip | ric_benchmarking/Bouncer/asn1c_defs/BIT_STRING.c:321-544 | every encodable value under every size constraint comes back as the bits transmitted, consuming exactly the bits written, if and only if its size lies outside the root or its field has at most 16 bits |
| BitStringUper.EncodingSucceeds | ric_benchmarking/Bouncer/asn1c_defs/BIT_STRING.c:471-484 | encoding succeeds exactly when the size is unconstrained, or the string without trailing zeros has at most ub bits and the field fewer than 32, or more than ub and the size is extensible |
| BitStringUper.EncodedSize | ric_benchmarking/Bouncer/asn1c_defs/BIT_STRING.c:492-521 | a constrained size costs effective_bits and the larger of that length and lb |
| BitStringUper.PiecesWritten | ric_benchmarking/Bouncer/asn1c_defs/BIT_STRING.c:525-541 | a string of any size goes out in pieces of at most 65536 bits after their length, the last shorter than 16384, perhaps empty |
| BitStringUper.EncodedForm | ric_benchmarking/Bouncer/asn1c_defs/BIT_STRING.c:471-541 | what goes out for every value taken: extension bit, size less the least one, the string without trailing zeros filled up to the least size; or that string in pieces |
| BitStringUper.StoredIsExact | ric_benchmarking/Bouncer/asn1c_defs/BIT_STRING.c:410-410 | the structure decoded into is exact if and only if the size was fixed, ends inside an octet, or bits_unused was 0 before |
| BitStringUper.DecodedComparesEqual | ric_benchmarking/Bouncer/asn1c_defs/BIT_STRING.c:264-267 | into a fresh structure every value decodes to one that compares equal |
| BitStringUper.PutTrailer | ric_benchmarking/Bouncer/asn1c_defs/BIT_STRING.c:506-519 | the loop appends exactly the zeros missing |
| BitStringUper.PutFragments | ric_benchmarking/Bouncer/asn1c_defs/BIT_STRING.c:525-541 | all bits go out in fragments of at most 64K |
| BitStringUper.PutConstrained | ric_benchmarking/Bouncer/asn1c_defs/BIT_STRING.c:492-521 | size field, bits and trailer |
| BitStringUper.EncodeUper | ric_benchmarking/Bouncer/asn1c_defs/BIT_STRING.c:425-544 | success and the bits appended, for every value and size constraint |
| BitStringUper.GetFragments | ric_benchmarking/Bouncer/asn1c_defs/BIT_STRING.c:391-420 | the bits of all fragments, packed into octets |
| BitStringUper.DecodeUper | ric_benchmarking/Bouncer/asn1c_defs/BIT_STRING.c:321-423 | success, the value stored and the bits consumed, for every stream |
| OctetDump.HalfPatterns | ric_benchmarking/Bouncer/asn1c_defs/BIT_STRING.c:83-93 | the two half-octet patterns spell the eight bits of an octet |
| OctetDump.BinaryTextBits | ric_benchmarking/Bouncer/asn1c_defs/BIT_STRING.c:95-151 | the text holds exactly the bits of the value, indented or not |
| OctetDump.BinaryRoundTrip | ric_benchmarking/Bouncer/asn1c_defs/BIT_STRING.c:95-151 | the text of any valid value is read back as exactly its bits, unused ones zero |
| OctetDump.EncodeXerBinary | ric_benchmarking/Bouncer/asn1c_defs/BIT_STRING.c:95-151 | the 128-character scratch buffer prints the whole text |
| OctetDump.TopBits | ric_benchmarking/Bouncer/asn1c_defs/BIT_STRING.c:135-145 | of the last octet only the used bits are printed, highest first |
| OctetText.HexSplit | ric_benchmarking/Bouncer/asn1c_defs/OCTET_STRING.c:800-872 | hexadecimal text cut anywhere, the unread tail given again, yields the same octets |
| OctetText.HexStalls | ric_benchmarking/Bouncer/asn1c_defs/OCTET_STRING.c:821-865 | what a first read leaves holds no whole pair |
| OctetText.HexFits | ric_benchmarking/Bouncer/asn1c_defs/OCTET_STRING.c:809-814 | the octets stored never exceed the estimate |
| OctetText.DigitsConcat | ric_benchmarking/Bouncer/asn1c_defs/OCTET_STRING.c:877-934 | binary text in two parts yields the bits of both |
| OctetText.DigitsFit | ric_benchmarking/Bouncer/asn1c_defs/OCTET_STRING.c:884-886 | no more bits than characters |
| BitString.BitsOfBits | ric_benchmarking/Bouncer/asn1c_defs/OCTET_STRING.c:893-928 | the structure for a bit string is valid, clean and stands for those bits |
| BitString.OfBitsRestores | ric_benchmarking/Bouncer/asn1c_defs/OCTET_STRING.c:893-928 | a value is rebuilt from its own bits if and only if its unused bits are zero |
| OctetText.PieceExtends | ric_benchmarking/Bouncer/asn1c_defs/OCTET_STRING.c:1008-1098 | a complete reference means the same whatever follows |
| OctetText.ExpandSplit | ric_benchmarking/Bouncer/asn1c_defs/OCTET_STRING.c:981-1118 | entity text cut anywhere, an incomplete reference given again, yields the same octets |
| OctetText.ExpandFits | ric_benchmarking/Bouncer/asn1c_defs/OCTET_STRING.c:989-994 | expanding never makes text longer than the estimate |
| OctetText.ConvertSplit | ric_benchmarking/Bouncer/asn1c_defs/OCTET_STRING.c:800-1118 | restart law of all three receivers: a first part, then its unread tail with the rest, is the whole at once; values and failures are the same even while more may come |
| OctetText.ConvertStalls | ric_benchmarking/Bouncer/asn1c_defs/OCTET_STRING.c:800-1118 | a first call leaves nothing that a second would take before more text comes |
| OctetText.PieceIsPlain | ric_benchmarking/Bouncer/asn1c_defs/OCTET_STRING.c:1008-1096 | a reference is longer than what it stands for, and holds no ampersand after its first |
| OctetText.LaidClean | ric_benchmarking/Bouncer/asn1c_defs/OCTET_STRING.c:893-914 | behind zero unused bits the digits come out as they are |
| OctetText.LaidExact | ric_benchmarking/Bouncer/asn1c_defs/OCTET_STRING.c:893-914 | false promise: behind stray unused bits the digits come out as they are if and only if every stray one that a digit meets is met by a one |
| OctetReceivers.ConvertHexadecimal | ric_benchmarking/Bouncer/asn1c_defs/OCTET_STRING.c:800-872 | for every text: octets stored, count read and the refusal, within the size the code asserts |
| OctetReceivers.ConvertBinary | ric_benchmarking/Bouncer/asn1c_defs/OCTET_STRING.c:877-934 | for every text and every valid structure, stray unused bits included: digits or-ed in across the partial octet, count read and the refusal |
| OctetReceivers.StoreDigits | ric_benchmarking/Bouncer/asn1c_defs/OCTET_STRING.c:901-920 | each digit goes to the next free bit, inside the reallocated buffer |
| OctetReceivers.PutDigit | ric_benchmarking/Bouncer/asn1c_defs/OCTET_STRING.c:910-914 | one digit, in a new cell when the current one is full |
| OctetReceivers.SetBitBits | ric_benchmarking/Bouncer/asn1c_defs/OCTET_STRING.c:914-914 | or-ing in a bit changes that bit only |
| OctetReceivers.Strtoent | ric_benchmarking/Bouncer/asn1c_defs/OCTET_STRING.c:939-976 | the value and length of a numeric reference, unfinished, or refused |
| OctetReceivers.ReadReference | ric_benchmarking/Bouncer/asn1c_defs/OCTET_STRING.c:1008-1096 | one reference of any kind |
| OctetReceivers.ConvertEntities | ric_benchmarking/Bouncer/asn1c_defs/OCTET_STRING.c:981-1118 | for every text: octets stored, count read, stall or failed assertion, within the size the code asserts |
| OctetDump.HexPairRead | ric_benchmarking/Bouncer/asn1c_defs/OCTET_STRING.c:634-650 | a printed pair is read as its octet |
| OctetDump.HexRoundTrip | ric_benchmarking/Bouncer/asn1c_defs/OCTET_STRING.c:600-657 | any octets, canonical or laid out, are read back exactly |
| OctetDump.EncodeXerCanonical | ric_benchmarking/Bouncer/asn1c_defs/OCTET_STRING.c:616-632 | the scratch buffer prints every octet |
| OctetDump.EncodeXerPretty | ric_benchmarking/Bouncer/asn1c_defs/OCTET_STRING.c:633-650 | sixteen octets to a line, indented |
| XerEscape.EntryIs | ric_benchmarking/Bouncer/asn1c_defs/OCTET_STRING.c:659-710 | the whole table: the tag of each control character by the octets of its name, white space as it stands, three references |
| XerEscape.EntriesDiffer | ric_benchmarking/Bouncer/asn1c_defs/OCTET_STRING.c:659-710 | no two control characters share an escape |
| XerEscape.ControlIsFound | ric_benchmarking/Bouncer/asn1c_defs/OCTET_STRING.c:712-728 | the tag written for a control character is recognised as that character |
| XerEscape.CheckEscapedControlChar | ric_benchmarking/Bouncer/asn1c_defs/OCTET_STRING.c:712-728 | the least character with that tag, or -1 when there is none |
| XerEscape.ControlFrom | ric_benchmarking/Bouncer/asn1c_defs/OCTET_STRING.c:712-728 | a tag found is the tag of that entry; none found, no entry has it |
| XerEscape.EncodeXerUtf8 | ric_benchmarking/Bouncer/asn1c_defs/OCTET_STRING.c:752-795 | runs between escapes add up to the escaped string, and the count is its length |
| XerDriver.HandleControlChars | ric_benchmarking/Bouncer/asn1c_defs/OCTET_STRING.c:730-750 | a recognised tag appends its character, any other changes nothing |
| XerStrings.HexDocument | ric_benchmarking/Bouncer/asn1c_defs/OCTET_STRING.c:600-872 | OCTET STRING: any octets survive the document, in either form and however it is cut |
| XerStrings.BinaryDocument | ric_benchmarking/Bouncer/asn1c_defs/OCTET_STRING.c:877-934 | BIT STRING: any valid value comes back as exactly its bits, however the document is cut |
| XerStrings.ExpandEscape | ric_benchmarking/Bouncer/asn1c_defs/OCTET_STRING.c:752-1118 | text without control characters is unescaped to what was escaped |
| XerStrings.RunControl | ric_benchmarking/Bouncer/asn1c_defs/OCTET_STRING.c:730-750 | a control character's tag gives it back unless it is the element's own |
| XerStrings.RunEscaped | ric_benchmarking/Bouncer/asn1c_defs/OCTET_STRING.c:752-1118 | escaped string and closing tag, in one call |
| XerStrings.EscapedDocument | ric_benchmarking/Bouncer/asn1c_defs/OCTET_STRING.c:659-1118 | UTF-8 strings: every byte string survives, however the document is cut, exactly when no control character in it is named like the element |
| XerStrings.StrayAmpersand | ric_benchmarking/Bouncer/asn1c_defs/OCTET_STRING.c:1099-1110 | an instance: <&lt; is kept in one call, and is << when cut after the ampersand |
| XerRestart.AmpersandAlike | ric_benchmarking/Bouncer/asn1c_defs/OCTET_STRING.c:1099-1110 | an ampersand read with the text after it comes to the ampersand kept before, unless the two make a reference |
| XerRestart.RereadDiffers | ric_benchmarking/Bouncer/asn1c_defs/OCTET_STRING.c:1008-1096 | and when they do, never |
| XerStrings.DocumentClosed | ric_benchmarking/Bouncer/asn1c_defs/OCTET_STRING.c:752-795 | escaped text never holds <& |
| BerIntake.Doubled | ric_benchmarking/Bouncer/asn1c_defs/OCTET_STRING.c:103-105 | the doubling loop ends above the expected size |
| BerIntake.Doubling | ric_benchmarking/Bouncer/asn1c_defs/OCTET_STRING.c:103-105 | the loop itself |
| BerIntake.DoubledAgain | ric_benchmarking/Bouncer/asn1c_defs/OCTET_STRING.c:101-116 | growing in steps ends at the allocation of growing at once |
| BerIntake.DoubledBound | ric_benchmarking/Bouncer/asn1c_defs/OCTET_STRING.c:103-105 | at most twice the expected size, or 16 |
| BerIntake.DoubledIsPower | ric_benchmarking/Bouncer/asn1c_defs/OCTET_STRING.c:103-105 | allocations are powers of two |
| BerIntake.AllocationFits | ric_benchmarking/Bouncer/asn1c_defs/OCTET_STRING.c:99-107 | neither sign test fires exactly below 2^30 octets |
| BerIntake.AppendGrows | ric_benchmarking/Bouncer/asn1c_defs/OCTET_STRING.c:94-121 | appending succeeds exactly below 2^30 octets, and always leaves room for the terminator |
| BerIntake.TakesPart | ric_benchmarking/Bouncer/asn1c_defs/OCTET_STRING.c:472-483 | a call that ends before the contents consumes all it was given |
| BerIntake.TakesRest | ric_benchmarking/Bouncer/asn1c_defs/OCTET_STRING.c:484-496 | a call that reaches the end consumes exactly the rest |
| BerIntake.AnySplit | ric_benchmarking/Bouncer/asn1c_defs/OCTET_STRING.c:465-497 | whatever pieces the contents come in: same octets, unused bits and allocation as in one call, consumed counts adding up to the length, failure exactly from 2^30 octets on |
| BerIntake.FinishCleans | ric_benchmarking/Bouncer/asn1c_defs/OCTET_STRING.c:509-524 | accepted exactly when unused bits and size agree; the bits received are kept and the unused ones zeroed |
| BerIntake.ClearLowBits | ric_benchmarking/Bouncer/asn1c_defs/OCTET_STRING.c:518-518 | masking clears the low bits and no other |
| BerIntake.OctetRoundTrip | ric_benchmarking/Bouncer/asn1c_defs/OCTET_STRING.c:538-598 | OCTET STRING contents come back unchanged in any pieces |
| BerIntake.BitRoundTrip | ric_benchmarking/Bouncer/asn1c_defs/OCTET_STRING.c:538-598 | BIT STRING contents come back as the same bits in any pieces, and as the same value if and only if its unused bits were zero |
| BerIntake.Decoder.AppendOctets | ric_benchmarking/Bouncer/asn1c_defs/OCTET_STRING.c:94-121 | the macro on the structure: room, contents and terminator |
| BerIntake.Decoder.Reallocate | ric_benchmarking/Bouncer/asn1c_defs/OCTET_STRING.c:106-116 | what was stored is kept |
| BerIntake.Decoder.Phase3 | ric_benchmarking/Bouncer/asn1c_defs/OCTET_STRING.c:465-497 | result code, count consumed and new state, for any data |
| BerIntake.Decoder.FinishBits | ric_benchmarking/Bouncer/asn1c_defs/OCTET_STRING.c:509-524 | the final check and the masked last octet |
| XerStream.ScanExtends | ric_benchmarking/Bouncer/asn1c_defs/xer_support.c:82-226 | a token that ends within a buffer is the same whatever follows; otherwise the scan goes on from the state it had |
| XerStream.StrayIsTwo | ric_benchmarking/Bouncer/asn1c_defs/xer_support.c:104-110 | the only text token that fills a buffer uncut is < and one character |
| XerStream.TextRuns | ric_benchmarking/Bouncer/asn1c_defs/xer_support.c:91-99 | text runs to the next < or the end of the buffer |
| XerStream.CommentShifts | ric_benchmarking/Bouncer/asn1c_defs/xer_support.c:183-204 | inside a comment it does not matter how much was handed over |
| XerStrings.TagScanned | ric_benchmarking/Bouncer/asn1c_defs/xer_support.c:112-129 | a tag is one token, whatever follows |
| XerDriver.ScanToken | ric_benchmarking/Bouncer/asn1c_defs/xer_support.c:82-226 | the loop finds the first token, or none |
| XerDriver.ClassifyTag | ric_benchmarking/Bouncer/asn1c_defs/xer_decoder.c:108-166 | the class of every tag against the expected name |
| XerDriver.CompareName | ric_benchmarking/Bouncer/asn1c_defs/xer_decoder.c:143-165 | the name comparison, blanks after the name included |
| XerStrings.CheckOpening | ric_benchmarking/Bouncer/asn1c_defs/xer_decoder.c:108-166 | the element's own opening tag is recognised |
| XerStrings.CheckClosing | ric_benchmarking/Bouncer/asn1c_defs/xer_decoder.c:108-166 | and its closing tag |
| XerStrings.CheckEmpty | ric_benchmarking/Bouncer/asn1c_defs/xer_decoder.c:108-166 | an empty tag is the element's own or unknown, by its name alone |
| XerStream.Step | ric_benchmarking/Bouncer/asn1c_defs/xer_decoder.c:228-317 | one turn of the loop consumes something and leaves a value the receiver can go on with, or ends the call |
| XerStream.Run | ric_benchmarking/Bouncer/asn1c_defs/xer_decoder.c:204-320 | what is consumed lies in the buffer, and the tokenizer is never left just after a < |
| XerRestart.RunSplit | ric_benchmarking/Bouncer/asn1c_defs/xer_decoder.c:204-320 | a call on a first buffer, then one on what it left with the second, comes to one call on both: verdict, total consumed and value, and the value so far when the document is unfinished |
| XerRestart.AnyCutting | ric_benchmarking/Bouncer/asn1c_defs/xer_decoder.c:204-320 | however a document is cut, it decodes as it does in one call: every hexadecimal or binary document, and entity text but where CuttingShows says not |
| XerRestart.SplitText | ric_benchmarking/Bouncer/asn1c_defs/xer_decoder.c:186-195 | text cut in two, the unread part given again, converts alike |
| XerRestart.CompleteText | ric_benchmarking/Bouncer/asn1c_defs/xer_decoder.c:247-259 | a token of text within the first buffer |
| XerRestart.SameStep | ric_benchmarking/Bouncer/asn1c_defs/xer_decoder.c:247-259 | a token both buffers start with, and known alike whether more follows, makes the same turn of the loop |
| XerRestart.RunOnlyText | ric_benchmarking/Bouncer/asn1c_defs/xer_decoder.c:186-195 | text that nothing follows yet ends in waiting, what it converts to stored |
| XerRestart.CutText | ric_benchmarking/Bouncer/asn1c_defs/xer_decoder.c:247-259 | a first buffer that is all text |
| XerRestart.CutStray | ric_benchmarking/Bouncer/asn1c_defs/xer_decoder.c:104-110 | a first buffer that is the text token <& |
| XerRestart.CuttingShows | ric_benchmarking/Bouncer/asn1c_defs/xer_decoder.c:104-110 | false promise: entity documents that one call finishes come to the same under every cutting if and only if that call never takes <& for text with the rest of a reference behind it |
| XerRestart.StrayCut | ric_benchmarking/Bouncer/asn1c_defs/xer_decoder.c:104-110 | where it does, cutting after the ampersand decodes differently |
| XerRestart.RunRebased | ric_benchmarking/Bouncer/asn1c_defs/xer_decoder.c:204-320 | decoding into another value ends alike, with as many octets more |
| XerRestart.CutComment | ric_benchmarking/Bouncer/asn1c_defs/xer_decoder.c:244-246 | a first buffer that ends inside a comment |
| XerStrings.DocumentRead | ric_benchmarking/Bouncer/asn1c_defs/xer_decoder.c:204-320 | text its receiver converts whole makes a document that decodes to what it converts to |
| XerStrings.CutDocument | ric_benchmarking/Bouncer/asn1c_defs/xer_decoder.c:204-320 | and so under any cutting |
| XerDriver.Decode | ric_benchmarking/Bouncer/asn1c_defs/xer_decoder.c:204-320 | code, count, context and value of a call, for every buffer |
| XerDriver.DecodeToken | ric_benchmarking/Bouncer/asn1c_defs/xer_decoder.c:228-317 | one turn of the loop consumes something or ends the call |
| XerDriver.DoTag | ric_benchmarking/Bouncer/asn1c_defs/xer_decoder.c:267-313 | what each class of tag does in each phase |
| XerDriver.Receive | ric_benchmarking/Bouncer/asn1c_defs/xer_decoder.c:186-195 | the receiver called on the structure |
| OrderedDict.Dict.Set | XTesting/kubeadm/inventory.py:352-352 | assignment keeps keys distinct |
| OrderedDict.Dict.SetKeys | XTesting/kubeadm/inventory.py:346-346 | an existing key keeps its place, a new one goes last |
| OrderedDict.Dict.SetGets | XTesting/kubeadm/inventory.py:346-346 | assignment changes that key and no other |
| OrderedDict.Dict.RemoveGets | XTesting/kubeadm/inventory.py:221-221 | deletion removes that key and no other |
| Inventory.GeneratedId | XTesting/kubeadm/inventory.py:174-180 | the id read from a generated name is at least the number in it, when the prefix has no dot |
| Inventory.DottedId | XTesting/kubeadm/inventory.py:177-178 | with a dot in the prefix the id comes from the prefix alone |
| Inventory.ExistsIpIs | XTesting/kubeadm/inventory.py:311-315 | an address is reported exactly when some host has it |
| Inventory.HighestIdBounds | XTesting/kubeadm/inventory.py:190-199 | no loaded host that starts with the prefix has a greater id |
| Inventory.LoadedUnused | XTesting/kubeadm/inventory.py:190-207 | so the next number names no loaded host |
| Inventory.ApplyKeepsAddresses | XTesting/kubeadm/inventory.py:215-279 | each argument keeps addresses distinct |
| Inventory.AddressesStayDistinct | XTesting/kubeadm/inventory.py:184-280 | whatever arguments are given, in any order, distinct addresses stay distinct |
| Inventory.NothingOverwritten | XTesting/kubeadm/inventory.py:184-280 | with a safe prefix (no dot, or no number in front of its first dot) adding by address leaves every loaded host as it is and in its place |
| Inventory.OverwrittenOtherwise | XTesting/kubeadm/inventory.py:206-248 | for every other prefix some loaded host is overwritten by some addition; no such prefix keeps its promise |
| Inventory.ApplyStores | XTesting/kubeadm/inventory.py:215-279 | an argument that deletes nothing stores a name given, stores the next name generated, or changes no host |
| Inventory.ReplacedIff | XTesting/kubeadm/inventory.py:215-279 | any run of additions, from any table and under any prefix: nothing is replaced if and only if no host there has a name the run generates, and each name given is new and not generated from then on |
| Inventory.NamedSafeIff | XTesting/kubeadm/inventory.py:184-280 | false promise: from a fresh table, or a loaded one under a safe prefix, nothing loaded or added is replaced if and only if each name given is new and not generated from then on |
| Inventory.AddressesSafeIff | XTesting/kubeadm/inventory.py:227-262 | adding by address alone, under any prefix: if and only if no host there has a name the run generates |
| Inventory.NamedMayBeReplaced | XTesting/kubeadm/inventory.py:246-279 | an instance: a host named like the first name to be generated |
| Inventory.BuiltIsValid | XTesting/kubeadm/inventory.py:184-280 | host names stay distinct keys |
| InventoryRoles.EnsuredRoles | XTesting/kubeadm/inventory.py:161-172 | every required group is there |
| InventoryRoles.AddAllIn | XTesting/kubeadm/inventory.py:341-352 | adding hosts to a role shows in that role and no other |
| InventoryRoles.PurgedIn | XTesting/kubeadm/inventory.py:324-332 | purging keeps exactly the hosts that remain and the protected names |
| InventoryRoles.PreparedIn | XTesting/kubeadm/inventory.py:122-124 | before assignment every role but the cluster lists what it did, less the hosts that are gone |
| InventoryRoles.AssignedRoles | XTesting/kubeadm/inventory.py:122-135 | where every role stands after a run: what it listed and still may, then what it is given |
| InventoryRoles.RolesListHosts | XTesting/kubeadm/inventory.py:122-135 | after every run each role lists hosts of the inventory, besides at most names like a role's that it listed before |
| InventoryRoles.AllTableIs | XTesting/kubeadm/inventory.py:333-360 | the all table holds every host with its variables, besides at most such names |
| InventoryRoles.AllTableExact | XTesting/kubeadm/inventory.py:333-360 | it is exactly the host table if and only if no such name was left in it |
| InventoryRoles.SetAllGets | XTesting/kubeadm/inventory.py:358-360 | each host ends with the variables computed for it |
| InventoryRoles.NotPassedOver | XTesting/kubeadm/inventory.py:380-394 | a host becomes a node exactly when it is in neither table that counts at this scale |
| InventoryRoles.FreshRoles | XTesting/kubeadm/inventory.py:125-133 | where each host of a fresh inventory goes |
| InventoryRoles.SlicesApart | XTesting/kubeadm/inventory.py:127-129 | at scale the control plane is taken from after the etcd hosts |
| InventoryRoles.EtcdApartAtScale | XTesting/kubeadm/inventory.py:125-135 | from SCALE_THRESHOLD up etcd shares no host with control plane or nodes, whatever the thresholds |
| InventoryRoles.FreshPartition | XTesting/kubeadm/inventory.py:125-135 | the three roles partition the hosts if and only if there are SCALE_THRESHOLD hosts or more, and either MASSIVE_SCALE_THRESHOLD or more or none left for the control plane |
| InventoryRoles.ReflectorConflicts | XTesting/kubeadm/inventory.py:367-378 | so a route reflector is a control plane host too if and only if it was listed there before |
| InventoryRoles.ReflectorsAreEtcdHosts | XTesting/kubeadm/inventory.py:367-378 | false promise: the test looks at the keys of the groups, so the route reflectors are the etcd hosts but for one named like such a key |
| InventoryRoles.FreshIsAssigned | XTesting/kubeadm/inventory.py:116-135 | a fresh inventory never ends in an exception |
| InventoryRoles.EveryRun | XTesting/kubeadm/inventory.py:116-135 | every run on a loaded configuration: table and roles hold only hosts computed, and names like a role's left from before |
| InventoryRoles.FirstRun | XTesting/kubeadm/inventory.py:82-135 | the first run: it succeeds when there are arguments and they do, and partitions the hosts under exactly the conditions above |
| InventoryRoles.Slice | XTesting/kubeadm/inventory.py:126-132 | a Python slice, negative bounds included, takes from the list |
| InventoryRoles.Merge | XTesting/kubeadm/inventory.py:349-352 | names listed are those before and those added |
| InventoryRun.KubesprayInventory.constructor | XTesting/kubeadm/inventory.py:82-116 | the configuration loaded, with the required groups ensured |
| InventoryRun.KubesprayInventory.FindAddress | XTesting/kubeadm/inventory.py:311-315 | the loop, exceptions included |
| InventoryRun.KubesprayInventory.DeleteAddress | XTesting/kubeadm/inventory.py:317-322 | the first host of that address is removed |
| InventoryRun.KubesprayInventory.HighestLoadedId | XTesting/kubeadm/inventory.py:190-207 | the loop over loaded hosts, with the exit on a host without id |
| InventoryRun.KubesprayInventory.ComputeHosts | XTesting/kubeadm/inventory.py:184-280 | the fold of all arguments into the host table |
| InventoryRun.KubesprayInventory.ApplyArgument | XTesting/kubeadm/inventory.py:215-279 | one argument of any kind, with locals left over from earlier ones |
| InventoryRun.KubesprayInventory.PurgeInvalidHosts | XTesting/kubeadm/inventory.py:324-339 | in every role and the all table only hosts that remain, or protected names |
| InventoryRun.KubesprayInventory.AddHostToGroup | XTesting/kubeadm/inventory.py:341-352 | one host more in that role, everything else as it was |
| InventoryRun.KubesprayInventory.AddHosts | XTesting/kubeadm/inventory.py:354-356 | the hosts in order, each once |
| InventoryRun.KubesprayInventory.SetAllHosts | XTesting/kubeadm/inventory.py:358-360 | the all table updated host by host |
| InventoryRun.KubesprayInventory.SetKubeNode | XTesting/kubeadm/inventory.py:380-394 | the hosts not passed over, tested against the groups as they stand |
| InventoryRun.KubesprayInventory.SetCalicoRr | XTesting/kubeadm/inventory.py:367-378 | the hosts not kept out, tested against the groups as they stand |
| InventoryRun.KubesprayInventory.Prepare | XTesting/kubeadm/inventory.py:122-124 | purge, all table and cluster group in turn |
| InventoryRun.KubesprayInventory.AssignRoles | XTesting/kubeadm/inventory.py:125-135 | the roles in turn, at and below scale |
| InventoryRun.KubesprayInventory.Run | XTesting/kubeadm/inventory.py:116-135 | the whole sequence ends in the state the role lemmas speak of, in an exception, or without arguments in the help and exit |
| Decimal.NibbleIs | ric_benchmarking/Bouncer/asn1c_defs/OCTET_STRING.c:830-838 | a digit of either case is worth its place in 0123456789ABCDEF or 0123456789abcdef, and nothing else is a digit |
| OctetMeaning.HexMeaning | ric_benchmarking/Bouncer/asn1c_defs/OCTET_STRING.c:800-872 | any text: refused if and only if something visible is no digit, else the pairs of visible digits are the octets stored; a digit left over waits, or fills up with zero bits when no text can follow |
| OctetMeaning.HexRead | ric_benchmarking/Bouncer/asn1c_defs/OCTET_STRING.c:800-872 | digits of either case, blanks anywhere: text is read as given octets if and only if it spells them |
| OctetMeaning.BinaryMeaning | ric_benchmarking/Bouncer/asn1c_defs/OCTET_STRING.c:893-914 | any text: read if and only if all that is visible is zeros and ones, and as those bits |
| OctetMeaning.Utf8Reads | ric_benchmarking/Bouncer/asn1c_defs/OCTET_STRING.c:1033-1060 | what a code point is stored as reads back as that code point in UTF-8 (section 3 of RFC 3629), and nothing shorter does |
| OctetMeaning.NumberIs | ric_benchmarking/Bouncer/asn1c_defs/OCTET_STRING.c:940-976 | what a run of digits comes to: their value in the base at its semicolon, nothing yet, or refused at the character or digit that spoils it |
| OctetMeaning.NumericRead | ric_benchmarking/Bouncer/asn1c_defs/OCTET_STRING.c:1011-1060 | a decimal or hexadecimal reference to any code point but zero stores it in UTF-8 and takes exactly its own length, whatever follows |
| OctetMeaning.DecimalRead | ric_benchmarking/Bouncer/asn1c_defs/OCTET_STRING.c:1011-1060 | so does the decimal reference printed from a number |
| OctetMeaning.ReferenceRead | ric_benchmarking/Bouncer/asn1c_defs/OCTET_STRING.c:1007-1096 | every reference, named or numeric, is read as what it stands for |
| OctetMeaning.PendingRead | ric_benchmarking/Bouncer/asn1c_defs/OCTET_STRING.c:1010-1067 | what may yet become a reference waits |
| OctetMeaning.PieceMeaning | ric_benchmarking/Bouncer/asn1c_defs/OCTET_STRING.c:1001-1107 | the front of any text: waiting if and only if it may yet become a reference, aborted if and only if it refers to zero, a reference as what it stands for, anything else as itself |
| OctetMeaning.SegmentsRead | ric_benchmarking/Bouncer/asn1c_defs/OCTET_STRING.c:982-1118 | text made of octets and references is read as what these stand for |
| XerTags.CheckTagIs | ric_benchmarking/Bouncer/asn1c_defs/xer_decoder.c:109-175 | a tag is the opening, empty or closing one of a name if and only if the name stands behind its bracket, ended by a blank or the tag's end |
| XerTags.BrokenIs | ric_benchmarking/Bouncer/asn1c_defs/xer_decoder.c:113-168 | it is broken if and only if it lacks brackets, has slashes at both ends, or a NUL behind the name |
| XerTags.UnknownIs | ric_benchmarking/Bouncer/asn1c_defs/xer_decoder.c:130-160 | and an empty one of another name if and only if it ends in a slash alone |
| XerDocuments.TagInFront | ric_benchmarking/Bouncer/asn1c_defs/xer_decoder.c:275-317 | before the element: its opening tag starts it, its empty tag is the empty value, a control character's tag is that character, any other fails |
| XerDocuments.TagInside | ric_benchmarking/Bouncer/asn1c_defs/xer_decoder.c:275-317 | inside it: its closing tag ends it, a control character's tag adds it, any other fails |
| XerDocuments.PrologRun | ric_benchmarking/Bouncer/asn1c_defs/xer_decoder.c:250-262 | text and comments before the element are passed over |
| XerDocuments.ItemsRun | ric_benchmarking/Bouncer/asn1c_defs/xer_decoder.c:250-269 | inside it each stretch of text goes to the receiver by itself, and comments to nobody |
| XerDocuments.ElementRead | ric_benchmarking/Bouncer/asn1c_defs/xer_decoder.c:205-320 | an element of any layout, with attributes, blanks and comments, decodes to what its stretches of text convert to |
| XerDocuments.EmptyElementRead | ric_benchmarking/Bouncer/asn1c_defs/xer_decoder.c:275-285 | an empty tag decodes to the empty value |
| XerDocuments.ElementCut | ric_benchmarking/Bouncer/asn1c_defs/xer_decoder.c:205-320 | and so however the document is cut, when it holds no <& or is not entity text |
| XerStrings.SpelledDocument | ric_benchmarking/Bouncer/asn1c_defs/xer_decoder.c:205-320 | OCTET STRING: digits of either case with blanks anywhere decode to the octets they spell, however the document is cut |
| XerStrings.SegmentsDocument | ric_benchmarking/Bouncer/asn1c_defs/xer_decoder.c:205-320 | strings: text with references of every kind decodes to what they stand for, however the document is cut |
| XerTags.CommentToken | ric_benchmarking/Bouncer/asn1c_defs/xer_support.c:166-205 | a comment is one token up to its first --> , whatever follows |
| XerTags.TagToken | ric_benchmarking/Bouncer/asn1c_defs/xer_support.c:100-165 | a tag with any plain, quoted or bare attributes is one token, up to the bracket outside quotes |
| XerTags.BareTagToken | ric_benchmarking/Bouncer/asn1c_defs/xer_support.c:130-165 | the bracket also ends a value without quotes, or stands where one was awaited |
| XerTags.InterruptedTag | ric_benchmarking/Bouncer/asn1c_defs/xer_support.c:118-124 | a tag that another bracket interrupts ends before it |
| XerTags.StrayBracket | ric_benchmarking/Bouncer/asn1c_defs/xer_support.c:100-111 | a bracket that starts no tag is text together with the character behind it |
| InventoryArguments.Deletes | XTesting/kubeadm/inventory.py:217-226 | an argument with a minus: the host of that name is gone, else the first of that address, else none; every other keeps its variables and order; an exception only when a host without address comes first |
| InventoryArguments.RunDeletes | XTesting/kubeadm/inventory.py:184-226 | a run that ends in a deletion comes to the run before it, less exactly that host |
| InventoryArguments.AddsAddress | XTesting/kubeadm/inventory.py:227-262 | an address, with or without access address: skipped when it or its text is there, else a host under the next number with exactly these variables |
| InventoryArguments.AddsNamed | XTesting/kubeadm/inventory.py:264-280 | name and address, with or without access address: skipped likewise, else that host with exactly these variables |
| InventoryArguments.AddsAgain | XTesting/kubeadm/inventory.py:264-280 | a name without comma is read with what an earlier argument left |
| InventoryArguments.Refused | XTesting/kubeadm/inventory.py:217-270 | arguments with too many commas, or empty, end in an exception |
| InventoryArguments.PassedBy | XTesting/kubeadm/inventory.py:217-264 | any other argument changes nothing |
| InventoryArguments.HostIdIs | XTesting/kubeadm/inventory.py:174-180 | the id of a host is the number its name ends in before the first dot |
| InventoryArguments.HighestIdIs | XTesting/kubeadm/inventory.py:190-208 | the highest id is attained by a host that bears the prefix |
| InventoryArguments.AddressRun | XTesting/kubeadm/inventory.py:184-262 | a run over new addresses stores each under its own number, in order, behind the hosts there |
| InventoryArguments.FreshAddresses | XTesting/kubeadm/inventory.py:184-262 | a first run over different addresses numbers them from 1 |
| InventoryArguments.LoadedAddresses | XTesting/kubeadm/inventory.py:184-262 | over a loaded table under a safe prefix it numbers them on from the highest id |
| RolePlaces.EtcdPlaced | XTesting/kubeadm/inventory.py:125-133 | etcd gets the first three hosts, or the first alone |
| RolePlaces.ControlIs | XTesting/kubeadm/inventory.py:127-133 | the control plane gets the next KUBE_CONTROL_HOSTS hosts at scale, else the first ones |
| RolePlaces.ControlFromEnd | XTesting/kubeadm/inventory.py:127-133 | a negative count leaves hosts out at the end |
| RolePlaces.NodesPlaced | XTesting/kubeadm/inventory.py:380-394 | the nodes are all hosts, in order, behind those kept apart at this scale |
| RolePlaces.ReflectorsPlaced | XTesting/kubeadm/inventory.py:134-135 | the route reflectors are the etcd hosts at scale, and nobody below it |
| RolePlaces.FirstPlaces | XTesting/kubeadm/inventory.py:117-136 | a first run: which hosts, counted from the front, get which role |
| RolePlaces.ProtectedIs | XTesting/kubeadm/inventory.py:324-341 | the six names that are never purged |
| RolePlaces.AssignmentFails | XTesting/kubeadm/inventory.py:324-394 | assigning roles ends in an exception if and only if a group other than the cluster lacks its hosts key, or a control plane group is consulted that has no table |
| OctetDump.IndentIs | ric_benchmarking/Bouncer/asn1c_defs/asn_internal.h:114-122 | a line feed and four blanks to each level |

## Left out

- Generated descriptor and constraint files (Cause*, RIC*, Global*, ProtocolIE-*, E2SM-*): constant tables with one-branch range checks.
- OPEN_TYPE, ANY, tags and lengths in BER, and the constructed form of OCTET STRING (phases 1 and 2 of its decoder): they rest on the tag and length layer, which is not part of this model.
- BOOLEAN, NULL, the print functions and random_fill: easy members, or random ones.
- INTEGER_compare, INTEGER in unaligned PER, OCTET STRING and ENUMERATED in aligned PER: other codecs over the same fields.
- Failing allocation, failing callbacks, errno and debug output: allocation succeeds and callbacks append.
- The byte-level packing and the 32-octet scratch space of asn_bit_data.c: a stream is its sequence of bits, without a refill function.
- Big-endian machines: the byte order tests of the native conversions take the little-endian branch.
- xer_decode_primitive around the INTEGER and OBJECT IDENTIFIER body decoders: each body arrives in one piece, as it does there.
- The phase after an element has ended: the decoders refuse further calls.
- ssh host names (USE_REAL_HOSTNAME), environment variables, files, YAML, printing and the help and load commands: thresholds, prefix, credentials and the loaded configuration are parameters.
- range2ips: arguments are taken as already expanded.
- Letters and digits beyond ASCII in host names and arguments; hosts whose options are null.
- Sizes near 2^64: a size_t sum does not wrap around in the model; a chunk for BER intake is below 2^31 octets.
- IntegerAper.DecodeAper: on failure it does not say what was consumed, because nothing is promised about it; the same holds for every decoder whose failure leaves the structure unspecified.
- IntegerAper.RangeRoundTrip: constraints are those the compiler emits, with a width of at most 64 bits that covers the range.
- AperForms.EncodedIff: for the same constraints; AperForms.RefusedIff says which values are refused under any constraint of C longs.
- EnumMap.SearchName: asks for a table sorted by number whose permutation sorts the names, as the compiled tables are.
- OctetReceivers.ConvertBinary: asks for a structure as BIT_STRING_constraint demands it, at most seven unused bits and none without octets.
- XerRestart.AnyCutting: entity documents that hold `<&` are covered when one call finishes them, where XerRestart.CuttingShows is exact; for one that fails or is unfinished nothing is said. Of unfinished documents the count consumed is not compared, since trailing blanks and comments may be consumed or held.
- XerDriver.Receive: the binary receiver is called on structures whose unused bits are zero, as fresh ones and those it leaves are; OctetReceivers.ConvertBinary and OctetText.LaidExact say what it does on others.
- XerStrings.EscapedDocument: the document is one opening tag, the text and one closing tag; XerDocuments.ElementRead covers comments and attributes.
- XerDocuments.ElementRead: an element whose body holds text and comments; control characters' tags inside it are covered by XerDocuments.TagInside one at a time, and by XerStrings.EscapedDocument without comments.
- RolePlaces.FirstPlaces: asks for a KUBE_CONTROL_HOSTS that is not negative; RolePlaces.ControlFromEnd says what a negative one does.
- InventoryArguments.AddressRun: addresses without comma that are new and no host's name; InventoryArguments.AddsAddress tells each other case.
- BerIntake.OctetRoundTrip: contents only; the tag and length in front of them are not part of this model.
- Inventory.ReplacedIff: runs of additions; a deletion takes out what it names, and a name may then be given again.
- InventoryRoles.EtcdApartAtScale: fresh inventories only; from a loaded one a role keeps the hosts it listed, as InventoryRoles.AssignedRoles says.
