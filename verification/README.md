# darwinscope, modelled and proved in Dafny

darwinscope reads Mach-O files without trusting them: every decoder is fail-soft, and a read that
does not fit ends a walk instead of aborting it. This project models the parts of it that carry an
algorithm. The original loops and objects are Dafny methods and classes, each proved equal to a
declarative specification function; the laws are lemmas about those functions, over every input.

| files | what they model |
|---|---|
| `Bytes`, `Leb128`, `FunctionStarts`, `SegmentMap` | byte readers, ULEB128/SLEB128 (section 7.6 of DWARF version 5), the `LC_FUNCTION_STARTS` iterator, the segment-table translator |
| `ChainSlot`, `ChainWalk`, `ChainLaws`, `ChainRoundTrip` | chained fixups: one 64-bit slot in seven pointer formats, the walk over page starts and chains, what every walk keeps, and writing a plan of chains and walking it back |
| `Requirement`, `RequirementLaws`, `RequirementTree`, `RequirementText` | the code-requirement evaluator: cursor, bytecode, the tree it stands for, emitted text, and a reader of that text under the precedence `!` over `and` over `or` |
| `Der`, `DerLaws`, `DerInteger`, `Oid` | DER entitlements and OBJECT IDENTIFIER bodies (sections 8.1.3, 8.3 and 8.19 of X.690) |
| `Trailers`, `TrailerLaws`, `TrailerMemory`, `TrailerWalk` | the objects that trail a Swift type descriptor: flags and block headers, tiling and truncation, blocks laid out in memory and walked back, the class and value-type walks |
| `ClassIter` | the Objective-C class iterator, de-duplicating classes and interleaving metaclasses |
| `Utf8Str`, `Attributes`, `AttributeLaws` | strings as UTF-8 (section 4 of RFC 3629), and the quote-aware property-attribute splitter |

Conventions. Bytes and machine words are integers in their width's range; masks and shifts are
written with `%` and `/` by powers of two, and wrapping, checked and saturating operations are
spelled out. `usize` is 64 bits. A slice is at most `isize::MAX` bytes long, so an offset that
overflows `usize` is past the end of the slice as well. Text is kept as bytes or as tokens. Every
lemma carries `{:induction false}`: its body is its proof.

Where the code does something else than its documentation says, the model follows the code:

- `read_uleb128` and `read_sleb128` promise None exactly for truncation and for a value past 64 bits
  (src/util.rs:18-26, src/util.rs:54-55). The code drops the tenth byte's bits above bit 63, and
  refuses frames of twelve bytes and more whatever their value. `Leb128.UlebAsDocumentedIff` and
  `Leb128.SlebAsDocumentedIff` say exactly when the promise is kept; `Leb128.UlebOverflowAccepted` and
  `Leb128.SlebOverflowAccepted` show 2^64 being read as 0, `Leb128.LongZeroRefused` an encoding of 0
  being refused.
- An import's special library ordinals are documented as -1 to -4 (src/fixup.rs:196-201); the code
  names 0 to -3 instead (src/fixup.rs:1108-1111). `ChainSlot.SpecialOrdinalsShifted` says so for all
  of them.
- A rebase's `high8` is documented as None in the arm64e formats (src/fixup.rs:546-548); the code
  fills it in for plain arm64e rebases. `ChainSlot.High8AsDocumentedIff` is the exact condition,
  `ChainSlot.PlainArm64eHasHigh8` a slot.
- `der_decode_integer` promises the low 8 bytes of a wide INTEGER (src/codesign.rs:1448-1449), and the
  variant that holds it saturation (src/codesign.rs:976); the code keeps the first 8 bytes, and does not
  sign-extend a shorter body. `DerInteger.KeepsLowIff` and `DerInteger.SaturatesIff` say exactly when
  each promise is kept, `DerInteger.IntegerExactIff` when the result is the body's value;
  `DerInteger.WideMisread` and `DerInteger.MinusOneMisread` are bodies that are misread.
- The attribute splitter takes the string to be ASCII outside quoted types
  (src/objc/property.rs:221-225). Where an item starts with another character, only the first byte of
  it is kept, as the key, and the value is silently emptied. `AttributeLaws.LosslessIff` and
  `AttributeLaws.SplitIsStable` are the exact conditions under which nothing is lost or changed,
  `AttributeLaws.AccentIsLost` and `AttributeLaws.ExclamationIsUnstable` strings that fail them.
- The type encoding is documented as the leading `T` item's (src/objc/property.rs:78-79); the code
  takes the first `T` item with a value, wherever it is. `AttributeLaws.TypeIsLeadingIff` is the exact
  condition, `AttributeLaws.LaterTypeTaken` the string `C,Tq`.
- A comma inside quotes is documented as no separator (src/objc/property.rs:185-191); the code takes
  an item's first byte as its key unread, even a quote or a comma.
  `AttributeLaws.EndAsDocumentedIff` is the exact condition, `AttributeLaws.QuotedCommaSplits` the
  string `",",R`.
- `ClassIter` is documented as yielding two rows for each class (src/objc/class.rs:433-435); a class
  whose `isa` is null, itself or undecodable comes alone. `ClassIter.TwoRowsEachIff` is the exact
  condition, `ClassIter.RootClassAlone` such a class.

Limits a caller meets:

- The depth caps admit depth 64 and depth 32 themselves: `RequirementLaws.FaithfulIffShallow` and
  `DerLaws.ValueReadsBackIff` hold with those bounds inclusive.
- A chain is bounded by the segment's file size, not by its page (src/fixup.rs:836-840), so the chains
  of two pages can meet, and a slot be reported twice (`ChainLaws.SlotVisitedTwice`); a map keyed by
  `vm_address`, such as the one at src/objc/mod.rs:187-190, then merges the rows.
  `ChainLaws.PagesOrderedIff` and `ChainLaws.AddressesDistinctIff` say exactly when no slot repeats,
  and `ChainLaws.PagedAddressesDistinct` that chains which keep to their pages never do.

## Model

| member | source | states |
|---|---|---|
| Bytes.BitOrDisjoint | src/util.rs:42 | or-ing a chunk above the bits already accumulated is adding it |
| Bytes.LeRoundTrip | src/util.rs:103-131 | the little-endian bytes of a value that fits read back as the value |
| Bytes.BeRoundTrip | src/util.rs:208-213 | the same for big-endian bytes |
| Leb128.ReadUleb128 | src/util.rs:27-50 | the loop returns the first frame's base-128 value modulo 2^64 and its length; frames of more than ten bytes are refused, but for an eleventh that is zero |
| Leb128.ReadSleb128 | src/util.rs:56-95 | the loop returns the first frame's two's-complement value, as an i64, and its length; an eleventh byte must repeat the sign |
| Leb128.UlebRoundTrip | src/util.rs:16-50 | every u64, encoded and followed by any bytes, decodes to itself, consuming exactly its encoding of at most ten bytes |
| Leb128.SlebRoundTrip | src/util.rs:52-95 | the same for every i64 |
| Leb128.UlebExact | src/util.rs:16-50 | an accepted value is the encoded number if and only if the tenth group, where there is one, is at most 1 |
| Leb128.UlebOverflowAccepted | src/util.rs:21-26 | the ten-byte encoding of 2^64 is accepted and read as 0 |
| Leb128.SlebExact | src/util.rs:52-95 | an accepted signed value is the encoded number if and only if the tenth group, where there is one, is all sign bits |
| Leb128.SlebOverflowAccepted | src/util.rs:52-95 | the ten-byte encoding of 2^64 is accepted and read as 0 by the signed decoder too |
| Leb128.UlebAsDocumentedIff | src/util.rs:16-50 | the decoder returns the value of frames that fit in 64 bits and None for all others if and only if fitting coincides with having at most ten bytes, or eleven of which the last is zero |
| Leb128.LongZeroRefused | src/util.rs:34-40 | a twelve-byte encoding of 0 fits, and is refused |
| Leb128.SlebAsDocumentedIff | src/util.rs:52-95 | the same for the signed decoder, whose eleventh byte must repeat the sign |
| FunctionStarts.FunctionStartIter.constructor | src/binary.rs:377-383 | a fresh iterator has the whole stream's addresses to yield |
| FunctionStarts.FunctionStartIter.Next | src/binary.rs:664-685 | yields the next pending address and leaves the others; once it returned None it keeps returning None |
| FunctionStarts.Collect | src/binary.rs:664-685 | a run to the first None collects exactly the stream's addresses |
| FunctionStarts.StartsIncrease | src/binary.rs:664-685 | on any stream the addresses strictly increase and exceed the base |
| FunctionStarts.FunctionStartsRoundTrip | src/binary.rs:664-685 | every strictly increasing list above the base, as ULEB128 deltas, a zero and any padding, is yielded exactly |
| SegmentMap.VmToFileOffsetIn | src/util.rs:238-259 | the search loop equals its first-match specification, overflowing entries and BSS tails included |
| SegmentMap.FirstMatchExact | src/util.rs:238-259 | on any table at all an address translates to an offset if and only if the first entry that covers it backs it there, before any entry overflows |
| SegmentMap.TranslationExact | src/util.rs:238-259 | over disjoint ranges an address translates to an offset if and only if some segment holds it on disk there |
| ChainSlot.SlotRoundTrip | src/fixup.rs:914-1077 | packing in-width fields in any supported format, whatever the reserved bits, and decoding the slot gives `next` and a row with, field by field, the payload's target from its own base, high8, PAC data, ordinal, import, clamped addend and site |
| ChainSlot.EverySlotIsPacked | src/fixup.rs:914-1064 | every 64-bit slot of a supported format is some in-width payload packed, so that the round trip says what any slot decodes to |
| ChainSlot.OtherOrdinalsNameNothing | src/fixup.rs:1102-1114 | ordinals past the dylib list and below the special ones have no name |
| ChainSlot.SpecialOrdinalsShifted | src/fixup.rs:1098-1114 | a documented library ordinal gets its documented name if and only if it is positive; the special ones are off by one |
| ChainSlot.AddendField | src/fixup.rs:1068-1077 | bits 32 to 51 of a slot read back as the signed 19-bit addend stored there |
| ChainSlot.BindNamesItsImport | src/fixup.rs:1080-1096 | in any slot of any format a bind carries the name, weak flag and dylib of the import its ordinal picks, or none when there is none, the sum of the slot's and the import's addends held within an i64, and the slot's own site |
| ChainSlot.High8AsDocumentedIff | src/fixup.rs:1010-1015 | `high8` is present just in the 64-bit formats, as documented, if and only if the format is one of them or the slot is authenticated |
| ChainSlot.PlainArm64eHasHigh8 | src/fixup.rs:1010-1015 | a plain arm64e rebase with a `high8` |
| ChainWalk.AdvanceIncreases | src/fixup.rs:880-891 | a chain offset strictly increases even where it saturates, and by at least the stride where it does not |
| ChainWalk.WalkChain | src/fixup.rs:826-892 | the loop over one page appends the chain's rebases and binds, in visiting order, and stops on arbitrary bytes |
| ChainWalk.DecodeSegmentChains | src/fixup.rs:782-894 | over all pages of a segment: unsupported formats, absent and multi-start pages are skipped, an unreadable page start ends the segment |
| ChainWalk.BuildRebaseIter | src/fixup.rs:722-737 | yields the rebases of the whole image, walked with empty import tables |
| ChainWalk.BuildBindIter | src/fixup.rs:748-772 | yields the binds of the whole image |
| ChainLaws.ChainClimbs | src/fixup.rs:826-892 | on arbitrary bytes a chain starts at its page's start, its offsets climb by at least the stride and stay below the file size |
| ChainLaws.ChainRowBound | src/fixup.rs:826-892 | a page yields at most ceil(filesize / stride) rows |
| ChainLaws.PagesOrderedIff | src/fixup.rs:801-892 | on arbitrary bytes the rows of a segment strictly climb if and only if each non-empty chain ends below where the next non-empty one starts |
| ChainLaws.PagedChainsApart | src/fixup.rs:829-840 | chains that keep to their own pages do |
| ChainLaws.SlotVisitedTwice | src/fixup.rs:829-840 | a segment of two eight-byte pages whose chains meet: one slot makes two equal rows |
| ChainLaws.AddressesDistinctIff | src/objc/mod.rs:187-190 | over a table with disjoint ranges no two rows of an image share a `vm_address` if and only if no segment's walk visits a slot twice |
| ChainLaws.PagedAddressesDistinct | src/objc/mod.rs:187-190 | so when every chain keeps to its page all addresses of the image differ |
| ChainLaws.RebasesAndBindsPartition | src/fixup.rs:722-772 | the two walks visit the same slots with the same bits; the visited rows are an interleaving of the rebases of one walk and the binds of the other; rebases never depend on import tables |
| ChainLaws.CollectChainedSegments | src/binary.rs:577-604 | every chained segment with a table entry is joined with it, in order; the image base is the lowest address with bytes on disk, or 0 |
| ChainLaws.LocsComeFromTable | src/binary.rs:592-604 | every walk context carries the address, offset and file size of its own table entry |
| ChainLaws.AllCollected | src/binary.rs:592-604 | no chained segment with a table entry is dropped, and their order is kept |
| ChainLaws.StraySegmentDropped | src/binary.rs:594-596 | one without a table entry is dropped, and changes nothing else |
| ChainLaws.CollectedFromTable | src/binary.rs:592-604 | chained segments of distinct indices are joined with distinct table entries |
| ChainLaws.WalkAgreesWithTranslator | src/fixup.rs:829-855 | over a well-formed table, translating a row's `vm_address` gives precisely the file offset its slot was read from |
| ChainLaws.ImageRowsTranslate | src/binary.rs:577-604 | the same for every row of a whole image: the translated offset holds the row's raw slot |
| ChainRoundTrip.ApplyWrites | src/fixup.rs:795-848 | disjoint writes into a buffer are all there afterwards |
| ChainRoundTrip.ChainsRoundTrip | src/fixup.rs:782-894 | for every supported format and every plan of in-width links whose writes stay apart, with any word from 0x8000 on for pages without a chain, walking the written buffer returns exactly the planned rows, in order; strides, header size and sites are the format's own numbers |
| ChainRoundTrip.SpacedChainsRoundTrip | src/fixup.rs:782-894 | the same for chains whose slots are at least 8 bytes apart and keep to their pages |
| ChainRoundTrip.ImageRoundTrip | src/fixup.rs:722-772 | over a buffer written with the plans of many segments, the two iterators yield exactly the planned rebases and binds of all of them, in order, and nothing for segments of unsupported formats |
| Requirement.ReqCursor.Data | src/codesign.rs:1592-1600 | a length-prefixed field: what is returned, and where the cursor ends in every outcome, padding and failures included |
| Requirement.ReqCursor.GetCertSlot | src/codesign.rs:1720-1727 | the slot as a signed number |
| Requirement.ReqCursor.GetMatch | src/codesign.rs:1702-1717 | operators 1 to 8 take an operand, all others none |
| Requirement.ReqCursor.GetFields | src/codesign.rs:1627-1698 | the fields an opcode reads, in the order it reads them, stopping where a read fails |
| Requirement.EvalExpression | src/codesign.rs:1621-1699 | text, final cursor position and number of node calls all equal the specification's |
| RequirementLaws.EvaluationIsLinear | src/codesign.rs:1573-1699 | on arbitrary bytes the cursor ends 4-aligned and at most 3 past the end, after at most 1 + 2 * (length / 4) node calls, binary recursion notwithstanding |
| RequirementLaws.LeafLayout | src/codesign.rs:1627-1698 | for every opcode the fields the evaluator reads are those of the leaf's bytes, written out opcode by opcode: slot, data fields and match suffix, in this order |
| RequirementLaws.EvalEncoded | src/codesign.rs:1621-1727 | anywhere in a buffer, the bytes of a tree of height at most 64, connectives 6, 7 and 9 and each leaf in its own layout, evaluate to its text, consumed exactly, padding included, in one call per node |
| RequirementLaws.FaithfulIffShallow | src/codesign.rs:1621-1625 | an encoded tree comes out as its own text if and only if its height is at most 64 |
| RequirementLaws.DeepIsCut | src/codesign.rs:1622-1624 | past the cap the text, if any, holds the truncation marker |
| RequirementLaws.DecodeRequirementBlob | src/codesign.rs:1605-1618 | magic, length and bounds are checked before the expression at +12 is evaluated |
| RequirementLaws.BlobRoundTrip | src/codesign.rs:1605-1618 | a requirement blob built around an encoded tree, at any offset of a vector, decodes to the tree's text |
| RequirementLaws.OtherBlobsRefused | src/codesign.rs:1605-1617 | a blob that decodes has the magic word and a length that covers its header and stays inside the vector |
| RequirementText.TextKeepsMeaning | src/codesign.rs:1566-1570 | the text of any tree, read back under `!` over `and` over `or`, is true of the same valuations |
| RequirementText.EvaluatedTextKeepsMeaning | src/codesign.rs:1621-1655 | from bytecode to meaning: what the evaluator prints for a tree of height at most 64 reads back with the same truth value under every valuation |
| RequirementTree.EvalPrintsTree | src/codesign.rs:1621-1699 | on arbitrary bytes, at any position and depth, the evaluator's text is that of the tree the bytes stand for, and the syntax level decides on parentheses and nothing else |
| RequirementText.AnyTextKeepsMeaning | src/codesign.rs:1621-1699 | so whatever text the evaluator returns reads back, with the truth value of that tree under every valuation |
| RequirementText.EmittedIsShortest | src/codesign.rs:1642-1655 | no text that reads back as the same tree has fewer tokens than the emitted one, so none has fewer parentheses |
| RequirementText.NoPairCanBeDropped | src/codesign.rs:1760-1762 | dropping any two tokens, such as a pair of parentheses, changes how the text reads back |
| Der.TlvIsLocal | src/codesign.rs:1492-1516 | a TLV's header depends only on the TLV's own bytes |
| DerLaws.HeaderOctets | src/codesign.rs:1492-1516 | the header, octet by octet: one short form and long forms of one to four octets, all else refused |
| Der.ReadHeaderIn | src/codesign.rs:1492-1516 | the length loop yields the big-endian value of one to four octets; truncated, indefinite and longer lengths are refused |
| Der.FoldInteger | src/codesign.rs:1450-1456 | the folding loop yields the two's-complement reading of the first eight octets |
| Der.LocateEntriesIn | src/codesign.rs:1315-1349 | finds the first container past any INTEGERs inside the outer TLV, or nothing |
| Der.FirstUtf8String | src/codesign.rs:1458-1469 | an entry's key: a UTF8String at its front that fits and validates |
| Der.DecodeEntry | src/codesign.rs:1386-1400 | an entry's key with the value behind it, `Other(0)` when the value is malformed |
| Der.CollectKeys | src/codesign.rs:1271-1309 | the key loop yields the keys of the TLVs framed end to end, up to the first malformed one |
| Der.CollectPairs | src/codesign.rs:1354-1383 | the pair loop yields their pairs, in order |
| Der.DecodeValueAt | src/codesign.rs:1403-1446 | the recursive decoder equals the specification at every depth, in one call per value it decodes |
| Der.DecodeArray | src/codesign.rs:1415-1440 | the item loop yields one value per framed TLV, up to the item cap, in one call per value at every depth |
| DerLaws.WalkersAgree | src/codesign.rs:1271-1400 | on every byte string the collected keys are the keys of the collected pairs |
| DerLaws.ValueByTag | src/codesign.rs:1411-1444 | what each of the seven tags decodes to, four of them to arrays; any other tag is kept as it is |
| DerLaws.ArrayItems | src/codesign.rs:1415-1440 | an array has exactly one item for each TLV framed in its body, until the cap, each decoded from that TLV's bytes alone |
| DerLaws.NodesFit | src/codesign.rs:1403-1446 | at any depth the values decoded from a TLV, and so the calls made, are at most half its bytes |
| DerLaws.DecodingIsLinear | src/codesign.rs:1393-1398 | so for the value of every entry, on arbitrary bytes |
| DerLaws.ValueReadsBack | src/codesign.rs:1403-1456 | the X.690 encoding of a value within the caps decodes to it, at any depth it fits and whatever follows |
| DerLaws.ValueReadsBackIff | src/codesign.rs:1403-1420 | booleans, non-negative integers, UTF-8 strings and arrays survive encoding if and only if nested no deeper than 32, with no array of more than 1024 items |
| DerLaws.BareIsNotWrapped | src/codesign.rs:1272-1278 | a bare list of entries is never mistaken for a wrapped one |
| DerLaws.WrappedIsLocated | src/codesign.rs:1315-1349 | a wrapped list is found past its version INTEGER, whatever the outer tag, in a container tagged 0x30, 0x31, 0xa0 or 0xb0 |
| DerLaws.OtherTagNotLocated | src/codesign.rs:1340-1346 | a first TLV of any other tag past the INTEGERs hides the entries |
| DerLaws.EntitlementsRoundTrip | src/codesign.rs:1354-1456 | every list of entries within the caps decodes to exactly that list in order, both bare and wrapped with a version INTEGER |
| DerInteger.IntegerExactIff | src/codesign.rs:1448-1456 | a decoded INTEGER is the body's two's-complement value if and only if the body is empty or non-negative and short, eight octets, or all 0x00 or all 0xff |
| DerInteger.MinusOneMisread | src/codesign.rs:1448-1456 | the encoding of -1 decodes to 255 |
| DerInteger.KeepsLowIff | src/codesign.rs:1448-1456 | of a body of eight octets or more the low 8 are kept, as documented, if and only if they equal the first 8 |
| DerInteger.WideMisread | src/codesign.rs:1448-1456 | a 1 and eight zero octets decode to 2^56, where the low 8 bytes are 0 |
| DerInteger.SaturatesIff | src/codesign.rs:976 | the result is the body's value clamped to an i64, as documented, if and only if it is exact or the first eight octets are already at an end of i64 |
| Oid.OidComponent | src/codesign.rs:1746-1757 | the loop with wrapping arithmetic yields the frame's base-128 value modulo 2^32; a component cut short yields nothing and exhausts the data |
| Oid.Decode | src/codesign.rs:1730-1743 | the arcs of every component, the first split in two |
| Oid.OidRoundTripIff | src/codesign.rs:1730-1757 | a valid list of arcs survives encoding if and only if every subidentifier is below 2^32 |
| Oid.PrefixesStaySmall | src/codesign.rs:1746-1757 | no intermediate value of a component exceeds its final value, so a component below 2^32 never wraps |
| TrailerLaws.StepAdvances | src/swift/classtrailers.rs:448-538 | every block is recorded at the cursor, under its own kind, and moves the cursor by exactly its size |
| TrailerLaws.WalkTiles | src/swift/classtrailers.rs:13-52 | every walk records a prefix of the present blocks in the declared order, end to end from the start; when no read fails and no address overflows, all of them |
| TrailerLaws.TilesSum | src/swift/classtrailers.rs:43-47 | a block lies at the start plus the sizes of exactly the earlier blocks, and is 4-aligned if the start is, past padded parameters and the 16-bit set |
| TrailerLaws.ClassBlocksTile | src/swift/classtrailers.rs:220-346 | the class walk's blocks are contiguous, disjoint and 4-aligned |
| TrailerMemory.FlagsReadBack | src/swift/context.rs:110-280 | each flag test on a descriptor's word answers for its own bits, whatever the others hold |
| TrailerMemory.StepReadsBack | src/swift/classtrailers.rs:448-543 | over a block in memory a walk records the counts at their own offsets and moves past the block's last byte, padding and entries included |
| TrailerMemory.WalkReadsBack | src/swift/classtrailers.rs:220-423 | over memory that holds the blocks a flag word shows, end to end, a walk in any order records each of them, with the details in its bytes, at its own address |
| TrailerMemory.SegmentMaps | src/swift/mod.rs:372-376 | bytes on disk in a segment of a well-formed table are memory at its addresses |
| TrailerLaws.TruncationLosesSuffix | src/swift/classtrailers.rs:49-52 | on a truncated file the blocks recorded are a prefix of the full file's |
| TrailerWalk.TruncatedFields | src/swift/classtrailers.rs:229-345 | on a truncated file every field of the body is unset or equal to the full file's |
| TrailerLaws.ValueWalkRefinesClassWalk | src/swift/classtrailers.rs:220-423 | with the class-only bits clear both walkers record the same blocks at the same addresses on every memory, failing reads included |
| TrailerWalk.DecodeClassTrailers | src/swift/classtrailers.rs:220-346 | the eleven-step walk over one cursor leaves the body with exactly the recorded blocks' fields |
| TrailerWalk.DecodeClassTables | src/swift/classtrailers.rs:267-345 | the same for its steps from the vtable on |
| TrailerWalk.DecodeValueTypeTrailers | src/swift/classtrailers.rs:352-423 | the same for the six-step walk |
| ClassIter.OrderedAddresses | src/objc/class.rs:444-465 | the constructor's loops keep every non-null address of both lists at its first occurrence |
| ClassIter.ClassIter.constructor | src/objc/class.rs:443-471 | a fresh iterator has all rows of those addresses to yield |
| ClassIter.ClassIter.Next | src/objc/class.rs:475-503 | yields the next pending row and leaves the others, across failed decodes and queued metaclasses |
| ClassIter.Collect | src/objc/class.rs:475-503 | a run to the first None collects exactly the specified rows |
| ClassIter.SlotsAreListed | src/objc/class.rs:449-457 | the slots visited are the whole pointers of the class list and then of the non-lazy list, at eight bytes apiece from each section's address |
| ClassIter.RunLaws | src/objc/class.rs:431-503 | in a complete run instance addresses are listed, never repeat and come in the order of their first slots, every metaclass row directly follows the instance whose `isa` it is, and every non-null listed class that decodes is there with its metaclass when it has one |
| ClassIter.EverySlotRuns | src/objc/class.rs:449-503 | so any whole pointer of either list that resolves to a class that decodes has its rows in the run |
| ClassIter.TwoRowsEachIff | src/objc/class.rs:433-435 | a run yields two rows for each class it yields if and only if each has an `isa` that is not null, not itself and decodes |
| ClassIter.RootClassAlone | src/objc/class.rs:493-498 | a class that is its own `isa` comes alone |
| Attributes.ParseAttributes | src/objc/property.rs:192-246 | the nested loops yield the items between unquoted commas, each key the character whose code point is the item's first byte, and the first non-empty value under `T` |
| AttributeLaws.LosslessIff | src/objc/property.rs:192-246 | for every string, joining the items' keys and values with commas gives it back, up to one trailing comma, if and only if every item starts with an ASCII key or is just the character U+00C3 |
| AttributeLaws.AccentIsLost | src/objc/property.rs:199-226 | the string U+00E9 splits into the key U+00C3, and is lost |
| AttributeLaws.AsciiIsLossless | src/objc/property.rs:192-246 | for every ASCII string nothing is lost, and it says when the comma is there |
| AttributeLaws.JoinResplits | src/objc/property.rs:192-246 | splitting the join of any items whose commas are quoted and whose non-final quotes are balanced gives them back, each non-ASCII key cut to its first byte and without its value |
| AttributeLaws.JoinSplits | src/objc/property.rs:192-246 | so it gives exactly the items if and only if every key is ASCII, or U+00C3 without a value |
| AttributeLaws.JoinIsUtf8 | src/objc/property.rs:192-192 | the join of such items is a string, which the splitter takes |
| AttributeLaws.SplitIsStable | src/objc/property.rs:192-246 | for every string, splitting the join of its split changes nothing if and only if every item of the string starts with an ASCII byte or with 0xC3 |
| AttributeLaws.ExclamationIsUnstable | src/objc/property.rs:199-226 | the string U+00A1 splits into the key U+00C2, whose join splits into the key U+00C3 |
| AttributeLaws.TypeIsLeadingIff | src/objc/property.rs:78-79 | the type encoding is the leading item's, as documented, if and only if that has a value or no type item has one |
| AttributeLaws.LaterTypeTaken | src/objc/property.rs:228-230 | in `C,Tq` the type encoding is `q` |
| AttributeLaws.EndAsDocumentedIff | src/objc/property.rs:185-191 | an item ends where documented if and only if its first byte is no comma, and no quote before any comma |
| AttributeLaws.QuotedCommaSplits | src/objc/property.rs:199-219 | the string of a quoted comma, a comma and `R` splits at the quoted comma |
| Utf8Str.CutAtBoundary | src/objc/property.rs:226 | slicing a string where a character starts gives strings, as `str::get` does |
| Utf8Str.EncodedValue | src/objc/property.rs:200 | a key's encoding is one character and keeps its code point |

## Left out

- Container parsing, legacy bind opcodes, export tries, symbols and sections: done by a library that is not part of this model.
- The load-command and `__TEXT` lookups of `function_starts` (src/binary.rs:357-376): the stream and the base address are parameters.
- The segment and import-table iterators of chained fixups, with `decode_import_*` and the symbol pool (src/fixup.rs:380-520, src/fixup.rs:1116-1160): chained segments and imports come in as sequences.
- SHA digests, CMS payloads and XML property lists: foreign calls.
- UTF-8 validation and lossy conversion: parameters of the DER reader, of which only "valid text is left alone" is used. The requirement evaluator's texts keep the bytes.
- The wording of a requirement's leaf, hex and quoting included (src/codesign.rs:1627-1635, src/codesign.rs:1702-1727): one opaque token per leaf, determined by its opcode and decoded fields; bytes consumed are exact. Leaf text that itself looks like ` and ` or a parenthesis is therefore not modelled.
- Requirement.ReqCursor.GetCertSlot: returns the signed slot; the words `leaf` and `root` and the decimal text are wording, left to the opaque leaf token.
- Requirement.ReqCursor.GetMatch: returns the operator and its operand; the suffix text and its quoting are wording, left to the opaque leaf token.
- The dotted text of an OBJECT IDENTIFIER: kept as the list of its arcs.
- The iterators over parsed rebases, binds and property items (src/fixup.rs:675-705): plain vector iteration.
- The pointer resolver, the class decoder and class names (src/objc/class.rs:505-640): parameters of the class iterator.
- The fields of a generic header the walk does not use, the prespecialization iterator and flag accessors the walk does not consult (src/swift/classtrailers.rs:65-213): field reads only.
- Swift parent chains (src/swift/parent.rs:86-115): there is no cycle guard, so their termination is not a law.
- Update in place of Rust vectors: `RowList` and out-parameters stand for `&mut Vec`; the value-type walk's callbacks are methods that set the body's fields; the body's steps are one method per block, and the class walk is cut in two at the vtable.
- Lifetimes, borrowing and the memory of hash sets and maps: mathematical sets and sequences.
- DerLaws.EntitlementsRoundTrip: encodings of 2^32 bytes and more are outside it, because a four-octet length cannot express them.
