# Huffman archiver, modelled in Dafny

This project models the Huffman codec of `hw_02`: the `huffman` namespace of
`src/huffman.cpp` and `include/huffman.h`. It has four parts.

- **Tree building.** `get_min` and the `HuffTree` constructor turn a
  `std::map<char, int>` frequency map into a tree by greedy merging.
- **Code table.** `build_table` derives the code table from the tree.
- **Archiving.** `archive` and `zip` write the header and pack the code bits
  into bytes.
- **Extracting.** `unzip` and `decode` read the header, rebuild the tree and
  walk it bit by bit.

The model is split into modules that follow the code:

- `Base`: the signed `char` of the text (`Char`, -128..127), the unsigned byte
  of the archive (`Byte`), the 4-byte `int` of a header entry, and the outcome
  of reading a stream.
- `Tree`: the node datatype, with the two `TreeNode` constructors. It also
  holds the code table the walk from the root defines, and the bit-by-bit walk
  of `decode`.
- `FrequencyTable`: the key order of a `std::map<char, int>`, the map that
  `freq[ch] = tmp` rebuilds from entries, and the map that `freq[ch]++`
  counts.
- `TreeBuilder`: `get_min` (a method proved to return the first minimum), the
  swap-and-pop of the constructor loop, and the whole merge loop as functions.
  It also proves the properties of the tree the loop builds.
- `BitPacking`: the `tmp = 2 * tmp + bit` register of `zip`, the bytes it
  writes, and the bits `decode` reads back from them.
- `ArchiveHeader`: the count and the (char, 4-byte int) entries that
  `archive` writes and `unzip` reads.
- `Codec`: the whole archive as functions, `ZipSpec`, `DecodeSpec` and
  `UnzipSpec`, with the round-trip theorems.
- `Huffman`: the classes `HuffTree` and `HuffmanArchiver` and their methods,
  written imperatively with the code's own loops. Each method is proved to
  compute the matching function of `Codec`.

Streams are byte sequences. The input a method reads is a parameter, what it
writes is an out-parameter, and a stream position is an index. Reading past
the end of the input raises an exception in the program, because `main` turns
stream exceptions on; the model returns `Err(EndOfInput)` there. The tree is a
datatype, because every node has exactly one owner. A null root is `None`, and
a leaf is a node whose `left` is null. `zip` starts its register `tmp`
uninitialised. The model makes its first value a parameter of `Zip` and proves
that this value never reaches the archive.

Three facts about the code shape the model.

- **Count field.** `archive` stores the number of distinct characters as
  `uint8_t size = chars.size()` (huffman.cpp:75), and a `uint8_t` cannot hold
  256. A file that uses every byte value gets the count 0. Yet the every-char
  test (test.cpp:129-143) expects such a file to round-trip. So the
  `ArchiveHeader` functions take the count width as a parameter:
  - `Narrow` is the code's one byte;
  - `Wide` is a two-byte field that holds every count.

  The class methods use `Narrow`. "Findings" below has the details.
- **Entry order.** The `HuffTree` constructor and `archive` iterate a
  `std::map<char, int>` (huffman.cpp:21, 77). Its keys are signed `char`s, so
  the entries come in order from -128 up to 127. `Entries` uses that order.
- **Counts are not checked.** `unzip` stores each 4-byte count as read
  (huffman.cpp:147-150) and never checks whether it is negative. The model
  does not check either. The one place where this changes what the model does
  is named under "Left out".

## Model

| member | source | states |
|---|---|---|
| Base.CharToByte | vyguzov.artem/hw_02/src/huffman.cpp:78 | a character is written as its two's-complement byte: itself when non-negative, plus 256 when negative |
| Base.ByteToChar | vyguzov.artem/hw_02/src/huffman.cpp:147 | the byte read back into a `char` is the character that writing gives that byte |
| Base.CharByteRoundTrip | vyguzov.artem/hw_02/src/huffman.cpp:147 | writing a character and reading the byte back gives the character |
| Base.EncodeInt32 | vyguzov.artem/hw_02/src/huffman.cpp:79 | an `int` is written as 4 bytes, and every 32-bit value is read back unchanged |
| Base.DecodeInt32 | vyguzov.artem/hw_02/src/huffman.cpp:148 | 4 bytes read into an `int` always give a 32-bit value |
| Tree.Merge | vyguzov.artem/hw_02/include/huffman.h:16 | the merge node has `l` as left child, `r` as right child, weight `l.val + r.val`, and the leaves of both, and is well weighted when they are |
| Tree.WeightIsLeafSum | vyguzov.artem/hw_02/include/huffman.h:15-16 | in a tree built by the two constructors, a node's `val` is the sum of its leaves' counts |
| Tree.Codes | vyguzov.artem/hw_02/src/huffman.cpp:83-94 | the table built below a node has exactly that node's leaf characters as keys |
| Tree.CodesShift | vyguzov.artem/hw_02/src/huffman.cpp:88-92 | starting with a path `prefix` puts `prefix` in front of every code and changes nothing else |
| Tree.CodesPrefixFree | vyguzov.artem/hw_02/src/huffman.cpp:83-94 | no code in the table is a prefix of another character's code |
| Tree.CodeTableProperties | vyguzov.artem/hw_02/src/huffman.cpp:83-94 | the table from the root is prefix-free and its keys are the leaves; a lone leaf gets the empty code, and every code under an internal root is non-empty |
| Tree.CodeChild | vyguzov.artem/hw_02/src/huffman.cpp:88-92 | a code under an internal node is the branch bit (false left, true right) followed by the code inside that branch |
| Tree.DecodeBits | vyguzov.artem/hw_02/src/huffman.cpp:59-70 | a walk that completes emits exactly `cnt` characters, each of them a leaf of the tree |
| Tree.DecodeIgnoresTail | vyguzov.artem/hw_02/src/huffman.cpp:62 | once `cnt` characters are out, no further bit is read: appending bits does not change the result |
| Tree.WalkCode | vyguzov.artem/hw_02/src/huffman.cpp:62-68 | following the code of `c` from a node emits exactly `c` and returns the walk to the root |
| Tree.WalkBit | vyguzov.artem/hw_02/src/huffman.cpp:63-67 | one bit moves right on true and left on false, and reaching a leaf emits it and restarts at the root |
| Tree.PrependSnoc | vyguzov.artem/hw_02/src/huffman.cpp:65 | writing one more character puts it after those already written and before the rest of the output |
| Tree.EncodeBitsSnoc | vyguzov.artem/hw_02/src/huffman.cpp:117-119 | the bits of a text with one more character are the old bits followed by that character's code |
| Tree.EncodeBits | vyguzov.artem/hw_02/src/huffman.cpp:117-119 | the bits `zip` produces: the code of each character of the text in turn |
| Tree.Lookup | vyguzov.artem/hw_02/src/huffman.cpp:119 | `table[ch]`: the character's code, or the empty code for a character missing from the table, as `operator[]` gives |
| Tree.EncodeBitsAgree | vyguzov.artem/hw_02/src/huffman.cpp:119 | two tables that agree on the text's characters give the text the same bits |
| Tree.DecodeEncode | vyguzov.artem/hw_02/src/huffman.cpp:59-70 | walking the codes of a text over the tree's leaves, followed by any bits at all, gives back exactly that text |
| FrequencyTable.EntriesProperties | vyguzov.artem/hw_02/src/huffman.cpp:77 | the range-for over the map visits every (key, count) pair once, in strictly ascending signed key order |
| FrequencyTable.SortedEntriesUnique | vyguzov.artem/hw_02/src/huffman.cpp:77 | that order is the only strictly ascending listing of the map's pairs |
| FrequencyTable.Entries | vyguzov.artem/hw_02/src/huffman.cpp:77 | the entries in the order a range-for over the `std::map<char, int>` visits them: by signed key, from -128 up |
| FrequencyTable.Total | vyguzov.artem/hw_02/src/huffman.cpp:150 | `sum += tmp` over the entries read: the sum of their counts |
| FrequencyTable.ToMap | vyguzov.artem/hw_02/src/huffman.cpp:144-151 | the map `freq[ch] = tmp` builds has exactly the characters read as keys |
| FrequencyTable.ToMapSnoc | vyguzov.artem/hw_02/src/huffman.cpp:149 | `freq[ch] = tmp` for one more entry overwrites or adds the key `ch` and leaves the other keys |
| FrequencyTable.ToMapDistinct | vyguzov.artem/hw_02/src/huffman.cpp:149 | with distinct characters, each character maps to the count read with it |
| FrequencyTable.EntriesToMap | vyguzov.artem/hw_02/src/huffman.cpp:144-151 | rebuilding a map from its entries in key order gives the map back |
| FrequencyTable.Count | vyguzov.artem/hw_02/src/huffman.cpp:102-105 | the map after `freq[ch]++` for each character read, in order |
| FrequencyTable.CountIsMultiset | vyguzov.artem/hw_02/src/huffman.cpp:102-105 | the counted map has exactly the characters of the text as keys, each with its number of occurrences |
| FrequencyTable.CountTotal | vyguzov.artem/hw_02/src/huffman.cpp:102-105 | the counts add up to the length of the text |
| FrequencyTable.CountKeys | vyguzov.artem/hw_02/src/huffman.cpp:75 | the map `archive` measures has as many keys as the text has distinct characters |
| TreeBuilder.FirstMinUnique | vyguzov.artem/hw_02/src/huffman.cpp:7-15 | only one index is the first minimum |
| TreeBuilder.MinIndex | vyguzov.artem/hw_02/src/huffman.cpp:7-15 | the index is the first one holding the least weight |
| TreeBuilder.GetMin | vyguzov.artem/hw_02/src/huffman.cpp:7-15 | the scan returns the first index holding the least weight, and 0 for an empty vector |
| TreeBuilder.Swap | vyguzov.artem/hw_02/src/huffman.cpp:29 | `std::swap` exchanges two positions and leaves the rest |
| TreeBuilder.TakeMin | vyguzov.artem/hw_02/src/huffman.cpp:28-31 | the swap-and-pop removes the first minimum and shortens the vector by one |
| TreeBuilder.PopMin | vyguzov.artem/hw_02/src/huffman.cpp:28-31 | the in-place swap with the last node and the `pop_back` compute exactly that removal |
| TreeBuilder.Step | vyguzov.artem/hw_02/src/huffman.cpp:27-38 | one iteration removes two nodes and appends one, so the vector shrinks by one |
| TreeBuilder.Reduce | vyguzov.artem/hw_02/src/huffman.cpp:26-38 | the loop ends with at most one node, and with none only when it started with none |
| TreeBuilder.Leaves | vyguzov.artem/hw_02/src/huffman.cpp:21-24 | one leaf per entry, in entry order |
| TreeBuilder.StepPreserves | vyguzov.artem/hw_02/src/huffman.cpp:28-37 | an iteration keeps the multiset of leaves, the total weight and well-weightedness |
| TreeBuilder.ReducePreserves | vyguzov.artem/hw_02/src/huffman.cpp:26-38 | the whole loop keeps the multiset of leaves, the total weight and well-weightedness |
| TreeBuilder.BuildRoot | vyguzov.artem/hw_02/src/huffman.cpp:17-40 | the root the constructor leaves: the merge loop run over one leaf per entry in key order, and null for an empty map |
| TreeBuilder.LeavesBag | vyguzov.artem/hw_02/src/huffman.cpp:21-24 | the leaves hold exactly the entries, weigh their total, and are well weighted |
| TreeBuilder.BuildRootNone | vyguzov.artem/hw_02/src/huffman.cpp:40 | the root is null exactly when the map is empty |
| TreeBuilder.BuildRootSingle | vyguzov.artem/hw_02/src/huffman.cpp:40 | a one-entry map gives that entry's leaf as the root |
| TreeBuilder.BuildRootWeight | vyguzov.artem/hw_02/src/huffman.cpp:21-40 | the root is well weighted and weighs the sum of all counts |
| TreeBuilder.BuildRootBag | vyguzov.artem/hw_02/src/huffman.cpp:21-40 | the root's leaves are exactly the map's entries |
| TreeBuilder.BuildRootLeaves | vyguzov.artem/hw_02/src/huffman.cpp:21-40 | each (key, count) of the map is a leaf exactly once, nothing else is, and the leaf characters are the map's keys |
| TreeBuilder.ChainExample | vyguzov.artem/hw_02/test/test.cpp:42-58 | {a:1, b:2, c:4, d:8} gives root 15 with right leaf d, then node 7 with right leaf c, then node 3 with left leaf a and right leaf b |
| TreeBuilder.FirstStep | vyguzov.artem/hw_02/src/huffman.cpp:28-37 | on weights 1, 2, 4, 8 the first iteration merges the 1 (left) with the 2 (right) |
| TreeBuilder.SecondStep | vyguzov.artem/hw_02/src/huffman.cpp:28-37 | on weights 8, 4, 3 the second iteration merges the 3 (left) with the 4 (right) |
| TreeBuilder.LastStep | vyguzov.artem/hw_02/src/huffman.cpp:28-37 | on weights 8, 7 the last iteration merges the 7 (left) with the 8 (right) |
| TreeBuilder.SignedOrderExample | vyguzov.artem/hw_02/src/huffman.cpp:21-37 | for equal counts the character -1 (byte 0xFF) becomes the left child of 1, since `char` keys are signed |
| TreeBuilder.PairStep | vyguzov.artem/hw_02/src/huffman.cpp:28-37 | of two equal weights, the first in the vector becomes the left child |
| BitPacking.Bit | vyguzov.artem/hw_02/src/huffman.cpp:63 | bit `i` of the byte value, the bit `byte & (1 << i)` tests: the lowest bit after halving `i` times |
| BitPacking.BitsOf | vyguzov.artem/hw_02/src/huffman.cpp:62-63 | `decode` reads eight bits from a byte |
| BitPacking.BitsOfAt | vyguzov.artem/hw_02/src/huffman.cpp:62-63 | the bit read at loop index `i` is `byte & (1 << i)`, bit 7 first |
| BitPacking.BitsOfInjective | vyguzov.artem/hw_02/src/huffman.cpp:60-63 | a byte is determined by the eight bits `decode` reads from it |
| BitPacking.RegSnoc | vyguzov.artem/hw_02/src/huffman.cpp:121 | shifting in one bit is `tmp = 2 * tmp + bit`, modulo 256 for the `uint8_t` |
| BitPacking.Reg | vyguzov.artem/hw_02/src/huffman.cpp:121 | the register after `tmp = 2 * tmp + bit` for each bit in turn from a starting value, keeping the low eight bits of the `uint8_t` |
| BitPacking.RegBit | vyguzov.artem/hw_02/src/huffman.cpp:121 | bit `j` of the register is the bit shifted in `j` steps ago |
| BitPacking.RegBits | vyguzov.artem/hw_02/src/huffman.cpp:117-126 | after eight shifts, the byte written holds exactly those eight bits, most significant first |
| BitPacking.RegForgets | vyguzov.artem/hw_02/src/huffman.cpp:115 | after eight shifts the register's starting value is gone, so the uninitialised `tmp` never reaches the archive |
| BitPacking.Padding | vyguzov.artem/hw_02/src/huffman.cpp:129-134 | fewer than eight zero bits fill the last byte, and none when the bit count is a multiple of 8 |
| BitPacking.Pack | vyguzov.artem/hw_02/src/huffman.cpp:115-135 | the payload is ⌈bits/8⌉ bytes |
| BitPacking.Unpack | vyguzov.artem/hw_02/src/huffman.cpp:60-62 | `decode` sees eight bits per byte read |
| BitPacking.UnpackAppend | vyguzov.artem/hw_02/src/huffman.cpp:59-62 | the bits of consecutive bytes are the bits of each in turn |
| BitPacking.UnpackPack | vyguzov.artem/hw_02/src/huffman.cpp:115-135 | reading back the packed bytes gives the code bits followed by zero padding in the low bits of the last byte |
| BitPacking.PackUnpack | vyguzov.artem/hw_02/src/huffman.cpp:117-126 | packing the bits of whole bytes gives those bytes back |
| BitPacking.PackAppend | vyguzov.artem/hw_02/src/huffman.cpp:122-126 | bytes already written are not touched by the bits that follow |
| ArchiveHeader.EncodeCount | vyguzov.artem/hw_02/src/huffman.cpp:75-76 | the count takes one byte (the code's `uint8_t`) or two bytes (the corrected field) |
| ArchiveHeader.DecodeCount | vyguzov.artem/hw_02/src/huffman.cpp:140-141 | the count read back: one byte in the code's field, two little-endian bytes in the wide one |
| ArchiveHeader.CountRoundTrip | vyguzov.artem/hw_02/src/huffman.cpp:140-141 | a count the field can hold is read back as written |
| ArchiveHeader.EntryOf | vyguzov.artem/hw_02/src/huffman.cpp:78-79 | one entry is five bytes |
| ArchiveHeader.EntryBytes | vyguzov.artem/hw_02/src/huffman.cpp:77-80 | `n` entries are `5n` bytes |
| ArchiveHeader.Header | vyguzov.artem/hw_02/src/huffman.cpp:74-81 | the bytes `archive` writes: the count, then each entry's character byte and 4-byte count, in key order |
| ArchiveHeader.HeaderSize | vyguzov.artem/hw_02/src/huffman.cpp:74-81 | `archive` writes the count bytes plus 5 bytes per character (1 + 5N with the one-byte count) |
| ArchiveHeader.ParseEntries | vyguzov.artem/hw_02/src/huffman.cpp:144-151 | `n` entries are read from `5n` bytes |
| ArchiveHeader.EntryAt | vyguzov.artem/hw_02/src/huffman.cpp:147-148 | entry `k` is the character in the byte at `5k` and the 4-byte `int` after it |
| ArchiveHeader.ParseHeader | vyguzov.artem/hw_02/src/huffman.cpp:140-151 | a parsed header ends inside the archive, right after the count and its entries |
| ArchiveHeader.ParseBody | vyguzov.artem/hw_02/src/huffman.cpp:144-151 | reading `n` entries moves the position by `5n` and needs that many bytes |
| ArchiveHeader.EntryAtRoundTrip | vyguzov.artem/hw_02/src/huffman.cpp:147-148 | an entry with a 32-bit count is read back as written |
| ArchiveHeader.ParseEntryBytes | vyguzov.artem/hw_02/src/huffman.cpp:144-151 | written entries with 32-bit counts are read back in order, whatever follows them |
| ArchiveHeader.HeaderRoundTrip | vyguzov.artem/hw_02/src/huffman.cpp:74-81 | `unzip` reads back what `archive` wrote, the entries in key order, and stops where the header ends, provided the count fits the field |
| ArchiveHeader.EntriesRoundTrip | vyguzov.artem/hw_02/src/huffman.cpp:139-151 | a count followed by entries with 32-bit counts parses to those entries |
| ArchiveHeader.NarrowWraps | vyguzov.artem/hw_02/src/huffman.cpp:75 | with the one-byte count, a map of 256 characters is read back as empty, with a one-byte header |
| ArchiveHeader.ParseHeaderFails | vyguzov.artem/hw_02/src/huffman.cpp:141-148 | the header fails to parse exactly when the archive is too short for the count or for the entries it announces, and that failure is a read past the end |
| Codec.DecodeSpec | vyguzov.artem/hw_02/src/huffman.cpp:49-72 | a successful decode under a non-null root emits exactly `cnt` characters; an internal root with a negative count runs out of input |
| Codec.TableOf | vyguzov.artem/hw_02/src/huffman.cpp:111-114 | the table `zip` fills: `build_table` from the root, and nothing for a null root |
| Codec.ZipSpec | vyguzov.artem/hw_02/src/huffman.cpp:96-137 | what `zip` writes: the header of the counted map, then the codes of the characters, in order, packed into bytes |
| Codec.UnzipSpec | vyguzov.artem/hw_02/src/huffman.cpp:139-154 | what `unzip` produces: the header's read error, or the text decoded from the bytes after the header with the tree of its map and the sum of its counts, together with the header size |
| Codec.DecodeIgnoresTrailing | vyguzov.artem/hw_02/src/huffman.cpp:59-70 | bytes after those the decoder needs do not change what it emits |
| Codec.CountsAreInt32 | vyguzov.artem/hw_02/src/huffman.cpp:104 | for a text shorter than 2^31, every count fits an `int` |
| Codec.DecodeZipped | vyguzov.artem/hw_02/src/huffman.cpp:115-135 | decoding the packed payload with the text's tree and its length gives the text back |
| Codec.DecodeWithTree | vyguzov.artem/hw_02/src/huffman.cpp:53-70 | for a lone leaf and for an internal root, decoding the payload of a text over the tree's leaves gives the text |
| Codec.EmptyText | vyguzov.artem/hw_02/src/huffman.cpp:52 | a null root comes only from the empty text |
| Codec.TextInTree | vyguzov.artem/hw_02/src/huffman.cpp:104-106 | every character of the text is a leaf of its tree |
| Codec.RoundTrip | vyguzov.artem/hw_02/src/huffman.cpp:96-154 | `unzip(zip(s))` is `s`, and both report the same header size, for every text shorter than 2^31 whose distinct characters the count field can hold |
| Codec.EmptyArchive | vyguzov.artem/hw_02/src/huffman.cpp:96-137 | the empty file is archived as the count 0 alone: no entries and no payload byte |
| Codec.SingleSymbolNoPayload | vyguzov.artem/hw_02/src/huffman.cpp:114-135 | a file of one repeated character is archived as its header alone: the lone leaf's code is empty, so no bit is shifted in and no payload byte is written |
| Codec.EmptyCodes | vyguzov.artem/hw_02/src/huffman.cpp:117-127 | characters whose codes are all empty add no bits |
| Codec.DistinctBound | vyguzov.artem/hw_02/include/huffman.h:25 | a text has at most 256 distinct `char`s |
| Codec.WideRoundTrip | vyguzov.artem/hw_02/test/test.cpp:129-143 | with a two-byte count, every text shorter than 2^31 round-trips, including one with all 256 characters |
| Codec.FullAlphabetLoses | vyguzov.artem/hw_02/src/huffman.cpp:75 | with the code's one-byte count, a non-empty text using all 256 characters unzips to nothing with a one-byte header, although `zip` wrote 1 + 5·256 header bytes |
| Codec.EveryChar | vyguzov.artem/hw_02/test/test.cpp:129-131 | the 256 characters in a row, from -128 up |
| Codec.EveryCharText | vyguzov.artem/hw_02/test/test.cpp:129-143 | that text uses all 256 characters, so it is an input `FullAlphabetLoses` applies to |
| Huffman.CodeBuffer.constructor | vyguzov.artem/hw_02/src/huffman.cpp:112 | `cur_code` starts empty |
| Huffman.HuffTree.Empty | vyguzov.artem/hw_02/include/huffman.h:25-28 | a default tree has no characters and a null root |
| Huffman.HuffTree.constructor | vyguzov.artem/hw_02/src/huffman.cpp:17-47 | `chars` becomes `freq`, and `root` is the node the greedy merge loop leaves, or null for an empty map |
| Huffman.MakeLeaves | vyguzov.artem/hw_02/src/huffman.cpp:21-24 | the copy of `freq` equals `freq`, and there is one leaf per entry, in key order |
| Huffman.MergeAll | vyguzov.artem/hw_02/src/huffman.cpp:26-38 | the in-place merge loop leaves what `Reduce` specifies |
| Huffman.HuffTree.Archive | vyguzov.artem/hw_02/src/huffman.cpp:74-81 | the bytes written are the header of `chars`: a one-byte count, then the entries in key order |
| Huffman.HuffTree.Decode | vyguzov.artem/hw_02/src/huffman.cpp:49-72 | returns the start position, and emits what `DecodeSpec` gives for the bytes from there |
| Huffman.DecodeByte | vyguzov.artem/hw_02/src/huffman.cpp:60-69 | the walk over one byte's bits, stopping early when the count reaches zero, agrees with the bit-level walk whatever bits follow |
| Huffman.HuffmanArchiver.constructor | vyguzov.artem/hw_02/include/huffman.h:44-47 | a default archiver has a null tree and an empty table |
| Huffman.HuffmanArchiver.BuildTable | vyguzov.artem/hw_02/src/huffman.cpp:83-94 | adds the code of every leaf below `node`, with the current path in front, and leaves `cur_code` as it found it |
| Huffman.HuffmanArchiver.FillTable | vyguzov.artem/hw_02/src/huffman.cpp:111-114 | adds the code table of the root to `table`, or nothing for a null root |
| Huffman.HuffmanArchiver.Zip | vyguzov.artem/hw_02/src/huffman.cpp:96-137 | writes exactly `ZipSpec`, whatever `tmp` starts as; returns the header size; keeps the tree it built and adds its codes to `table` |
| Huffman.HuffmanArchiver.Unzip | vyguzov.artem/hw_02/src/huffman.cpp:139-154 | produces exactly `UnzipSpec`: the decoded text and the header size, or the read error; leaves `table` alone; stores a fresh tree with the header's map and its root when the header reads, and keeps the old tree when it does not |
| Huffman.CountChars | vyguzov.artem/hw_02/src/huffman.cpp:97-105 | `freq[ch]++` over the text gives its counted map |
| Huffman.PackCodes | vyguzov.artem/hw_02/src/huffman.cpp:115-135 | the bytes written are the packed codes of the text's characters in order, with the empty code for a character missing from the table |
| Huffman.PushCode | vyguzov.artem/hw_02/src/huffman.cpp:119-127 | shifting in one code keeps the register invariant and appends the code to the bits consumed |
| Huffman.PushBit | vyguzov.artem/hw_02/src/huffman.cpp:120-126 | shifting in one bit, and writing the register out when it holds eight, keeps the register invariant |
| Huffman.FlushPacking | vyguzov.artem/hw_02/src/huffman.cpp:122-126 | writing out a full register and clearing it restores the register invariant for the next byte |
| Huffman.WriteLast | vyguzov.artem/hw_02/src/huffman.cpp:129-135 | the padded last byte completes exactly the packed bits, and nothing is written when no bit is pending |
| Huffman.ShiftInZero | vyguzov.artem/hw_02/src/huffman.cpp:132 | doubling the byte register modulo 256 appends one zero bit to the bits it holds |
| Huffman.PadRegister | vyguzov.artem/hw_02/src/huffman.cpp:129-134 | `flag` is set exactly when bits are pending, and the register then holds them followed by zero bits |
| Huffman.ReadHeader | vyguzov.artem/hw_02/src/huffman.cpp:140-151 | reads the map, the sum of the counts and the end position of `ParseHeader`, or its read error |
| Huffman.ReadEntries | vyguzov.artem/hw_02/src/huffman.cpp:144-151 | the loop over `size` entries gives what the header parse summarises: a read past the end when the bytes run out first, otherwise the map `freq[ch] = tmp` builds, the sum of the counts and the position after the entries |
| Huffman.ReadEntry | vyguzov.artem/hw_02/src/huffman.cpp:145-150 | reading entry `i` appends it to the entries read, sets its character's count in `freq` and adds the count to `sum` |
| Huffman.HeaderTooShort | vyguzov.artem/hw_02/src/huffman.cpp:141-148 | an archive shorter than its count announces fails to parse with a read past the end |
| Huffman.HeaderBody | vyguzov.artem/hw_02/src/huffman.cpp:140-151 | after the count byte, the header is the entries that byte announces, and the bit stream starts after them |
| Huffman.FollowBit | vyguzov.artem/hw_02/src/huffman.cpp:63-67 | following one bit from an internal node, emitting and restarting at a leaf, leaves the rest of the bit-level walk's output unchanged |
| Huffman.LeafStep | vyguzov.artem/hw_02/src/huffman.cpp:21-24 | one entry extends the copied map and the leaf list |
| Huffman.EntryStep | vyguzov.artem/hw_02/src/huffman.cpp:77-80 | writing one entry extends the header by that entry's bytes |
| Huffman.Pad | vyguzov.artem/hw_02/src/huffman.cpp:129-135 | the padded register is the last packed byte |
| Huffman.ZipOutput | vyguzov.artem/hw_02/src/huffman.cpp:106-135 | the header and the packed codes, with the table built on top of any earlier entries, make up `ZipSpec` |
| Huffman.ZipTable | vyguzov.artem/hw_02/src/huffman.cpp:111-119 | earlier entries of `table` are overwritten for every character of the text, so they do not change its codes |

## Left out

- Stream mechanics (`seekg`, `tellg`, `tellp`, `read`, `write`). Streams are
  byte sequences and positions are indices. Output is returned whole, so the
  part an exception leaves in the output file is not modelled.
- The `bad_alloc` cleanup (huffman.cpp:41-46) and the destructors
  (huffman.h:17-20, 30-32, 48-50). Allocation failure and freeing memory are
  out of scope, and the tree is a value with a single owner.
- `get_root` (huffman.h:37-39). The model reads the `root` field directly.
- Native byte order of the 4-byte `int`. The header uses one fixed order:
  little-endian two's complement.
- Huffman.HuffmanArchiver.Zip: requires a text shorter than 2^31 characters,
  so that `number_of_chars` and every count fit an `int`; what the code does
  with a larger file is not modelled.
- Overflow of the other `int` arithmetic. The sum of the counts in `unzip` and
  the weights `l->val + r->val` are unbounded integers. They equal the code's
  values whenever no 32-bit overflow occurs.
- Huffman.HuffTree.Decode: a negative `cnt` can only come from a corrupt
  header. With a single-leaf root, the loop `while (cnt != 0) { ...; cnt--; }`
  then decrements `cnt` past the smallest `int`. That is signed overflow, which
  is undefined behaviour in C++. The model returns `Err(NegativeTotal)` there
  instead. With an internal root, every character written moves `cnt` further
  from 0, so the code reads until the input ends, and the model gives
  `Err(EndOfInput)`, as the program does. An input long enough to emit 2^31
  characters first would reach the same overflow; the model does not
  distinguish that case.
- `main.cpp` and `additional.h`: command-line parsing, file opening, and the
  printing of sizes and exit codes.
- `byte & (1 << i)` is modelled arithmetically, as bit `i` of the byte value.
  The 8-bit register is modelled as arithmetic modulo 256.

## Findings

| source | as written | input that shows it | evidently intended | confidence | as-written member | corrected member |
|---|---|---|---|---|---|---|
| vyguzov.artem/hw_02/src/huffman.cpp:75 | `uint8_t size = chars.size()` keeps only the low byte of the number of distinct characters | a file containing every one of the 256 byte values, as in the every-char test (test.cpp:129-143): the count is written as 0, so `unzip` reads no entries and outputs nothing | the count holds every possible number of distinct characters (0..256), for example in two bytes, so that every file round-trips | not executed | Codec.FullAlphabetLoses | Codec.WideRoundTrip |

The class methods keep the one-byte count, so they model the code as written.
The `Codec` functions and the round-trip theorem `Codec.RoundTrip` are stated
for both widths, and `Codec.WideRoundTrip` proves the corrected format for
every text.
