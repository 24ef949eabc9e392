# whisper.cpp examples: verified models

Dafny models of the parts of whisper.cpp's `examples/` directory whose correctness rests on more
than reading one function, with proofs about every input and every run.

**Grammar compiler** (`examples/grammar-parser.cpp`). `GrammarSyntax` gives two languages a meaning:
extended BNF as it is written, and flat rules as `include/whisper.h` documents their elements.
`GrammarSource` says which grammar a text spells, `GrammarLowering` when flat rules are a lowering of
a grammar, `GrammarCompiler` is the recursive-descent compiler itself: a class that mutates the symbol
table and the rules, proved to produce a lowering of what the text spells. `GrammarSpelling` lists the
spellings that a grammar has; a text is read as a grammar exactly when it is one of them.

**Vorbis decoder** (`examples/stb_vorbis.c`). `Codewords`, `Codebook` and `Huffman` build a codebook
from codeword lengths and decode with it; `OggPackets`, `PacketReader` and `WholePacket` are the Ogg
page, segment and packet state machine; `BitReader` is the bit accumulator between the two, and
`DecodeRuns` any run of operations on it, failed ones included. `FloorPoints`
and `FloorCurve` are floor type 1, `Windowing` the overlap of frames, `Checksum` the page CRC, `Arena` the
two-ended allocator.

**Edit distance** (`examples/common.cpp`) is `Similarity`; **the capture ring buffer**
(`examples/common-sdl.cpp`) is `AudioCapture`.

Shared notions: a Huffman codeword is the address of its subtree in a 32-bit tree (`Codewords`); what
a packet reader has ahead of it is a function of its position (`OggPackets.PacketAhead` for what is wholly
there, `OggPackets.Received` for what it gets in any case); a bit stream
is the accumulator's valid bits followed by the unread bytes, least significant bit first
(`BitReader.StreamBits`). `Bits` defines shifts, masks and reversal bit by bit. Sample values are a type
parameter and the operations on them (`*=`, mixing) are function parameters, so what is proved about
drawing, mixing and capturing does not depend on floating-point rounding.

Check everything with `dafny verify dfyconfig.toml`.

## What turned out not to hold as promised

- A character class with nothing in it (`[]`, `[^]`) compiles to no element at all, so the rule accepts
  the empty word while the class denotes nothing. A class keeps its meaning exactly when it lists
  something (`GrammarLowering.ClassKeptIffNonEmpty`, `GrammarCompiler.EmptyClassExample`); with every empty
  class read as nothing, compiling preserves the language of every text.
- A codeword that starts the bits is decoded exactly when it is no longer than what the accumulator
  holds after topping up, and its symbol is not hidden. Up to 25 bits always fit; 26 to 31 may not
  (`Huffman.LongCodewordMissed`). A symbol is hidden when the book is dense, the symbol's number is
  32767 or more, its codeword has at most 10 bits, and some other codeword has more
  (`Huffman.HiddenExample`). The exact condition is in `Huffman.Decode`.
- That the look-ahead scan finds a packet whole does not mean that the reader can read it, nor the other way
  round. Where the two differ is at empty pages, which the scan passes over while the reader takes as many bytes as
  the page before left at the front of the segment table, and at a continued first page, which the scan accepts
  before it is in step. What the reader can read, for any stream and position, is exactly
  `WholePacket.ReadsWhole` (`WholePacket.ReadableIff`): the scan's question with every empty page counted as one
  segment of that length. Without an empty page on the way the two agree but for the continued first page
  (`WholePacket.WholeIffReadable`); what each does at an empty page is `WholePacket.AtEmptyPage`. Streams for both
  directions are in `WholePacket.EmptyPageExample` and `WholePacket.EmptyPagePassed`.
- The test for the end of the packet behind the floor's values (`examples/stb_vorbis.c:3237`) does not see every end.
  A failed read of bits marks the accumulator, but decoding a symbol neither marks it nor leaves the mark: it is
  there exactly when some read failed and no symbol was decoded after it (`DecodeRuns.MarkTells`,
  `DecodeRuns.EndUnnoticed`, `DecodeRuns.EndUnnoticedExample`).
- The first two floor values are read with `ilog(range)-1` bits. Section 7.2.3 of the Vorbis I
  specification asks for the bits of `range-1`; the two differ for multiplier 3 only
  (`FloorPoints.InitialBits`).

## Model

| member | source | states |
|---|---|---|
| GrammarLowering.LoweringPreservesLanguage | examples/grammar-parser.cpp:132-248 | for every lowering, every name and every word: the flat rules derive the word from the name's symbol if and only if the extended BNF does, a class that lists nothing reading as nothing; when every class lists something that is the extended BNF itself |
| GrammarLowering.ItemShape | examples/grammar-parser.cpp:202-216 | the slice copied from the start of the last symbol never holds an alternate or end mark and never begins inside a class |
| GrammarLowering.SequenceShape | examples/grammar-parser.cpp:132-230 | the same for the elements of a whole sequence, with their exact number |
| GrammarLowering.LiteralLanguage | examples/grammar-parser.cpp:141-149 | the elements of a literal derive exactly its characters |
| GrammarLowering.ClassLanguage | examples/grammar-parser.cpp:150-172 | the elements of a non-empty class derive exactly the single characters the class has, ranges and negation included |
| GrammarLowering.RepeatUp | examples/grammar-parser.cpp:196-225 | whatever the rule synthesized for `*`, `+` or `?` derives is a concatenation of words of the operand, in a number the operator allows |
| GrammarLowering.RepeatDown | examples/grammar-parser.cpp:196-225 | conversely, every allowed number of operand words concatenated is derived by the synthesized rule |
| GrammarLowering.ItemUp | examples/grammar-parser.cpp:132-230 | what the elements of a symbol derive, the symbol denotes, at the same depth of rule references |
| GrammarLowering.ItemDown | examples/grammar-parser.cpp:132-230 | what a symbol denotes, its elements derive |
| GrammarLowering.RuleUp | examples/grammar-parser.cpp:232-248 | what a lowered rule derives, the alternates of its source denote |
| GrammarLowering.RuleDown | examples/grammar-parser.cpp:232-248 | what the alternates denote, the lowered rule derives |
| GrammarLowering.ClassKeptIffNonEmpty | examples/grammar-parser.cpp:150-172 | a class lowers to elements of the same meaning if and only if it lists something |
| GrammarLowering.AsCompiledLowered | examples/grammar-parser.cpp:150-172 | a lowering of a grammar is a lowering of the grammar in which empty classes read as nothing; the two are equal when no class is empty |
| GrammarCompiler.EmptyClassExample | examples/grammar-parser.cpp:150-172 | the text `root ::= []` is read as that grammar, and whatever tables it compiles to accept the empty word, which its grammar does not |
| GrammarText.ParseName | examples/grammar-parser.cpp:91-100 | the end of the longest run of word characters, an error if there is none |
| GrammarText.ParseSpace | examples/grammar-parser.cpp:76-89 | the position after blanks, comments and, where allowed, newlines |
| GrammarText.ParseHex | examples/grammar-parser.cpp:53-74 | the value of exactly `size` hexadecimal digits, an error if there are fewer |
| GrammarText.HexRoundTrip | examples/grammar-parser.cpp:53-74 | digits are read as a number if and only if they are the number's hexadecimal digits, small or capital |
| GrammarText.HexDigitsListed | examples/grammar-parser.cpp:53-74 | the hexadecimal digits are the listed ones |
| GrammarText.WordCharsListed | examples/grammar-parser.cpp:49-51 | word characters are letters, digits and the hyphen, and no others |
| GrammarText.DecodeUtf8 | examples/grammar-parser.cpp:12-25 | the code point at a position, stopping early at the end of the text, below 2^32 |
| GrammarText.Utf8RoundTrip | examples/grammar-parser.cpp:12-25 | decoding undoes UTF-8 encoding for every scalar value, wherever it stands and whatever follows |
| GrammarText.ParseChar | examples/grammar-parser.cpp:102-123 | the character or escape at a position, and where it ends |
| GrammarText.DecimalRoundTrip | examples/grammar-parser.cpp:33-37 | the decimal suffix of a generated name determines its number and holds no `_` |
| GrammarCompiler.GeneratedNamesDiffer | examples/grammar-parser.cpp:33-37 | generated names are equal only for equal base and number |
| GrammarCompiler.FreshGenerated | examples/grammar-parser.cpp:33-51 | a generated name is never an author's name and never already in the symbol table |
| GrammarCompiler.ParseLiteral | examples/grammar-parser.cpp:141-149 | appends the elements of the literal that the text spells, or fails as the text's reading does |
| GrammarCompiler.ParseClass | examples/grammar-parser.cpp:150-172 | appends the elements of the class that the text spells, the first one carrying the negation |
| GrammarCompiler.RepeatElements | examples/grammar-parser.cpp:202-217 | builds the rule of the rewrite: the operand and itself, the operand alone, or nothing, as the operator says |
| GrammarCompiler.ParseState.GetSymbolId | examples/grammar-parser.cpp:27-31 | keeps the symbol table a bijection onto 0..size-1, adding the name only if new |
| GrammarCompiler.ParseState.GenerateSymbolId | examples/grammar-parser.cpp:33-37 | adds a fresh name with the next number, keeping the bijection |
| GrammarCompiler.ParseState.AddRule | examples/grammar-parser.cpp:39-47 | sets one rule and no other, keeping every rule well-formed (END only last, references below size, range ends and class members after a character) |
| GrammarCompiler.ParseState.AddRepeatRule | examples/grammar-parser.cpp:201-222 | one new symbol whose rule lowers the repetition of the operand; no older rule changes |
| GrammarCompiler.ParseState.ParseSequence | examples/grammar-parser.cpp:132-230 | appends a lowering of the sequence that the text spells; older rules keep their contents, also when it fails |
| GrammarCompiler.ParseState.ParseAlternates | examples/grammar-parser.cpp:232-248 | the symbol's rule becomes a lowering of the alternates that the text spells |
| GrammarCompiler.ParseState.ParseRule | examples/grammar-parser.cpp:250-272 | the tables become a lowering of the grammar with this definition added or replaced |
| GrammarCompiler.LanguagesAgree | examples/grammar-parser.cpp:250-286 | every name of a lowered grammar has the same language in both forms, empty classes reading as nothing |
| GrammarCompiler.Parse | examples/grammar-parser.cpp:274-286 | terminates on every text; a text in error gives empty tables, any other gives a lowering of the grammar it spells with the same languages, empty classes reading as nothing |
| GrammarSpelling.ReadIffSpelled | examples/grammar-parser.cpp:12-286 | any sequence of characters, in UTF-8, is read as a grammar if and only if it spells rules that define that grammar, whatever way its characters are escaped, its blanks and comments chosen and its lines ended; everything else is an error |
| GrammarSpelling.SpelledIsRead | examples/grammar-parser.cpp:53-286 | a text that spells rules, in UTF-8 or not, is read as the grammar they define, a later rule replacing an earlier one of the same name |
| GrammarSpelling.ReadIsSpelled | examples/grammar-parser.cpp:12-286 | conversely, a UTF-8 text that is read spells rules that define what it is read as |
| GrammarSpelling.EncodedIsText | examples/grammar-parser.cpp:12-25 | in the encoding of any characters every byte that continues none begins one |
| GrammarSpelling.CharRead | examples/grammar-parser.cpp:102-123 | a character is read however it is spelled: as itself, by a sign behind a backslash as listed, or by two, four or eight small or capital digits |
| GrammarSpelling.CharSpelled | examples/grammar-parser.cpp:102-123 | and nothing else is read as that character |
| GrammarSpelling.SpaceRead | examples/grammar-parser.cpp:76-89 | blanks, tabs, comments and, where allowed, line ends are passed over as far as they go |
| GrammarSpelling.HyphenExample | examples/grammar-parser.cpp:158-171 | the class `[a-]` lists the two characters |
| GrammarSpelling.NextRulePulledIn | examples/grammar-parser.cpp:232-264 | an empty last alternate takes in the next rule, since line ends count as space after `::=` and the bar: its name becomes a reference, and its `::=` is an error |
| GrammarSpelling.AlternatesRead | examples/grammar-parser.cpp:132-248 | alternates, inside a group or not, are read whole wherever they stand in a text |
| GrammarSpelling.TurnRead | examples/grammar-parser.cpp:140-228 | an item, repeated or not, adds exactly that item to the sequence read so far |
| Bits.BitReverseReverses | examples/stb_vorbis.c:1010-1017 | the network of masks and shifts reverses the 32 bits of any word |
| Bits.ReverseInvolution | examples/stb_vorbis.c:1010-1017 | reversing twice gives the word back |
| Codewords.ComputeCodewords | examples/stb_vorbis.c:1086-1130 | succeeds if and only if the Kraft sum is at most one; then every symbol has the lowest unused codeword of its length, the code is prefix-free, the tables hold it reversed; at a sum of one every word starts with a codeword |
| Codewords.TakeLeaf | examples/stb_vorbis.c:1115-1127 | one symbol: codewords and free leaves stay a partition of the code space with at most one leaf per level, deeper leaves lower, and the codeword taken is the lowest unused |
| Codewords.DeepestIsLowest | examples/stb_vorbis.c:1108-1117 | the deepest free leaf at or above a level lies below every unused node of that level |
| Codewords.Overfull | examples/stb_vorbis.c:1115-1116 | when the search for a leaf fails, the Kraft sum of all lengths exceeds one |
| Codewords.FullCode | examples/stb_vorbis.c:1086-1130 | lengths whose Kraft sum is one leave no word without a codeword |
| Codewords.LowestIsPrefixFree | examples/stb_vorbis.c:1108-1117 | lowest unused codewords are never prefixes of each other |
| Codewords.LowestIsUnique | examples/stb_vorbis.c:1108-1117 | the specification's rule determines every codeword |
| Codewords.FindLeaf | examples/stb_vorbis.c:1115-1116 | the deepest non-empty level at or above the length, or 0 |
| Codewords.Propagate | examples/stb_vorbis.c:1121-1127 | the leaf is replaced by the siblings on the way down; every level written to was empty, as the assert says |
| Codewords.FirstAvailable | examples/stb_vorbis.c:1099-1101 | the leaves that the first codeword leaves free |
| Codebook.MatchIsInside | examples/stb_vorbis.c:1668-1680 | a word starts with a stored codeword if and only if its reversal lies in the codeword's subtree |
| Codebook.UniqueMatch | examples/stb_vorbis.c:1697-1709 | at most one codeword of a code matches a word |
| Codebook.ComputeAccelerated | examples/stb_vorbis.c:1134-1154 | an entry names a short codeword its index starts with, and is -1 only if there is none among the first 32767 |
| Codebook.Search | examples/stb_vorbis.c:1671-1681 | the last sorted codeword not above the argument |
| Codebook.ComputeSorted | examples/stb_vorbis.c:1179-1230 | codewords ascending, each with its symbol and length, exactly the symbols the search has to cover |
| Huffman.BuildCodebook | examples/stb_vorbis.c:3772-3844 | fails if and only if the lengths are overfull; otherwise all tables, sparse, dense or converted, represent the lowest assignment |
| Huffman.SearchFinds | examples/stb_vorbis.c:1667-1689 | binary search ends at the codeword the word starts with, if the search covers it |
| Huffman.FastOutcome | examples/stb_vorbis.c:1717-1726 | a hit in the fast table is right, and giving up for lack of bits is right too |
| Huffman.SearchOutcome | examples/stb_vorbis.c:1667-1694 | what binary search returns, for every held word: the starting symbol if and only if it is covered and its codeword is held whole |
| Huffman.ScanOutcome | examples/stb_vorbis.c:1696-1714 | the same for the linear scan, which also returns nothing that does not start the bits |
| Huffman.DecodeScalarRaw | examples/stb_vorbis.c:1656-1715 | the slow decoder, over both ways of looking and the empty book, and how many bits it leaves; a scan that finds nothing marks the stream invalid; after a failed read it finds nothing and wipes out the mark |
| Huffman.DecodeRaw | examples/stb_vorbis.c:1717-1729 | fast table, then slow decoder: the starting symbol if and only if it is held whole and not hidden, exactly its bits are consumed, and without a symbol all the bits held are lost; after a failed read nothing is found and the mark is gone unless the book is empty |
| Huffman.Decode | examples/stb_vorbis.c:1754-1756 | the same on symbols, sparse books included; for complete books of at most 32767 symbols and for books without a sorted table nothing else is ever returned |
| Huffman.DecodesLikePlainSearch | examples/stb_vorbis.c:1656-1756 | for books of at most 32767 symbols and 25-bit codewords, decoding agrees with a plain search through the codewords whenever that finds one, always for complete books |
| Huffman.StartsUnique | examples/stb_vorbis.c:1656-1756 | at most one codeword starts a bit stream |
| Huffman.MessageRoundTrip | examples/stb_vorbis.c:1656-1756 | any sequence of symbols written as codewords reads back as itself, whatever follows |
| DecodeRuns.ReadMessage | examples/stb_vorbis.c:1656-1756 | a packet that carries the codewords of any sequence of symbols, decoded symbol by symbol through the tables, gives the symbols and leaves the reader right behind them |
| Huffman.LongCodewordMissed | examples/stb_vorbis.c:1634-1647 | a codeword longer than the 25 to 30 bits still held is not decoded, though the stream has it |
| Huffman.HiddenExample | examples/stb_vorbis.c:1141-1143 | 32767 long codewords and one short one: the last symbol is never decoded |
| BitReader.Reader.GetBits | examples/stb_vorbis.c:1599-1628 | returns and drops the first `n` bits of the stream when it has them, the split above 24 bits included, and holds as many as whole bytes require; otherwise the reader becomes invalid and returns 0, or the first 24 bits when those are there |
| BitReader.Reader.PrepHuffman | examples/stb_vorbis.c:1634-1647 | the stream stays the same; afterwards more than 24 bits are held, or all there are; after a failed read nothing happens |
| BitReader.FilledLeast | examples/stb_vorbis.c:1612-1647 | a read takes in no more bytes than it needs, topping up none that do not fit |
| DecodeRuns.RunOps | examples/stb_vorbis.c:1599-1756 | any interleaving of bit reads, top-ups and symbols, failed ones included, takes the reader through states that the bits left and the number held determine; a run that the stream can serve gives the values a plain reading of the bits gives, and leaves the rest |
| DecodeRuns.RunServed | examples/stb_vorbis.c:1599-1756 | the plain reading, on the states alone |
| DecodeRuns.MarkTells | examples/stb_vorbis.c:1599-1737 | at the end of any run the accumulator is marked if and only if some read failed and no symbol was decoded from a non-empty book after it |
| DecodeRuns.EndUnnoticed | examples/stb_vorbis.c:3216-3237 | reads and then symbols, as a floor is read: after a symbol the mark that the test looks for is never there |
| DecodeRuns.EndUnnoticedExample | examples/stb_vorbis.c:3216-3237 | on an empty packet the read fails, the symbol is -1, and the mark is gone |
| DecodeRuns.RunOp | examples/stb_vorbis.c:1599-1756 | one operation: its value, the bits it leaves and how many of them are held |
| BitReader.TakeIn | examples/stb_vorbis.c:1618-1619 | taking a byte into the accumulator does not change the stream |
| BitReader.TakeOut | examples/stb_vorbis.c:1624-1626 | the low bits are the first of the stream; shifting them out leaves the rest |
| BitReader.TwoReads | examples/stb_vorbis.c:1605-1610 | 24 bits and then the others are one long read |
| OggPackets.ReadsAllPackets | examples/stb_vorbis.c:1444-1573 | from any position in a stream of non-empty pages, reading packet by packet yields exactly the packets of the lacing runs, across continued pages |
| OggPackets.StreamRoundTrip | examples/stb_vorbis.c:1444-1573 | the same from the start of an encoded stream |
| OggPackets.PacketOnPages | examples/stb_vorbis.c:1539-1573 | what is ahead inside a packet is the data of one lacing run, however many pages it spans |
| OggPackets.NoPacketOnPages | examples/stb_vorbis.c:1539-1573 | a run that no short lacing value ends is not a packet |
| PacketReader.Reader.StartPageNoCapturePattern | examples/stb_vorbis.c:1444-1495 | moves the reader onto the page of a complete header, or of one that the end of the data cuts off before its segment count, and fails otherwise; notes the segment that the granule position belongs to and where the first page lies; another version stops it after one byte |
| PacketReader.Reader.StartPage | examples/stb_vorbis.c:1497-1501 | the same with the capture pattern; nothing goes wrong if the header is complete, and otherwise something does |
| PacketReader.Reader.StartPacket | examples/stb_vorbis.c:1503-1516 | succeeds if and only if the reader is on a page or can start one that continues no packet; it then stands at that page's next segment |
| PacketReader.Reader.NextSegment | examples/stb_vorbis.c:1539-1558 | the next segment, opening a continued page where needed, on an empty page the length left over from the page before; 0 where there is none, and whether it stays that way |
| PacketReader.Reader.Get8PacketRaw | examples/stb_vorbis.c:1563-1573 | the first byte of what the reader receives, which then is without it; EOP exactly when nothing is received; nothing goes wrong if the packet is wholly there |
| PacketReader.Reader.ReadPacket | examples/stb_vorbis.c:1563-1573 | exactly the bytes that the reader receives, cut-off packets included; a packet that is wholly there comes out byte for byte and nothing goes wrong, otherwise something does; the two segment notes agree if and only if it is the last packet to end on a page with a granule position |
| OggPackets.WholeReceived | examples/stb_vorbis.c:1539-1573 | a packet that is wholly there is received as it is, and the reader stays at its end |
| OggPackets.ReceivedByByte | examples/stb_vorbis.c:1337-1350 | reading a byte, or a zero behind the end of the data, takes the first byte off what is received |
| OggPackets.ReceivedBySegment | examples/stb_vorbis.c:1539-1558 | going to the next segment changes nothing about what is received |
| PacketReader.NotesAgree | examples/stb_vorbis.c:1469-1483 | the segment just taken is the noted one if and only if no later segment of the page ends a packet and the page has a granule position |
| PacketReader.Reader.IsWholePacketPresent | examples/stb_vorbis.c:3519-3577 | true if and only if the pages ahead finish the packet; otherwise the error says that data is missing or invalid |
| PacketReader.ScanPage | examples/stb_vorbis.c:3544-3575 | one page of the scan: fails, finishes the packet, or leaves the question to the next page |
| PacketReader.SkipRun | examples/stb_vorbis.c:3532-3541 | the end of the first lacing run and of its data |
| WholePacket.ReadableIff | examples/stb_vorbis.c:1503-1573 | for any stream and any position: the next packet begins and ends within the data if and only if its pages say so, lacing value by lacing value, an empty page counting as one segment of the length left over from the page before |
| WholePacket.WholeIffReadable | examples/stb_vorbis.c:3519-3577 | as long as no empty page lies on the way, the reader can read the packet to its end if and only if the scan finds it whole and it does not begin on a continued page |
| WholePacket.ContinuedStart | examples/stb_vorbis.c:3553-3557 | on a page that continues an older packet the scan says "no" in step; out of step it says "whole" if and only if the rest of that older packet can be read |
| WholePacket.ScanAgrees | examples/stb_vorbis.c:3544-3575 | the same at a page boundary inside a packet |
| WholePacket.AtEmptyPage | examples/stb_vorbis.c:1544-1556 | at an empty page inside a packet: the scan goes on behind its header; the reader takes the left-over length, which ends the packet with those bytes if it is below 255 and leads to another page boundary if it is 255 |
| WholePacket.FinishIffAhead | examples/stb_vorbis.c:1539-1573 | at a page boundary inside a packet: the rest of it is there if and only if the pages, as the reader goes by them, end it within the data |
| WholePacket.EmptyPageExample | examples/stb_vorbis.c:1544-1556 | from the start of a concrete stream with an empty page the scan finds the packet whole and the reader begins it, but takes a stale segment length that runs off the data |
| WholePacket.EmptyPagePassed | examples/stb_vorbis.c:1544-1556 | a stream on which the reader gets a packet whole across an empty page whatever follows that page, while the scan finds it whole or not depending on what follows |
| WholePacket.ReadWhenPresent | examples/stb_vorbis.c:4466-4472 | a packet is taken if and only if the scan finds it whole; if its pages end it for the reader too it comes out byte for byte with nothing going wrong, otherwise something goes wrong; without an empty page or a continued first page the two are the same |
| WholePacket.ReadFirst | examples/stb_vorbis.c:1503-1573 | starting and reading packets in turn gives the packets of the stream in order |
| WholePacket.ReadAll | examples/stb_vorbis.c:4466-4472 | the same from any position between packets, without ever reaching the end of the data |
| WholePacket.ReadStream | examples/stb_vorbis.c:1444-1573 | run on any encoded stream of non-empty pages, reading while the scan finds a packet whole stops after exactly the packets of its lacing values |
| FloorPoints.IlogIsBitLength | examples/stb_vorbis.c:1027-1044 | the table look-ups give the number of bits of every non-negative number below 2^31, and 0 for negative ones |
| FloorPoints.InitialBits | examples/stb_vorbis.c:3209-3214 | `ilog(range)-1` is the specified number of bits if and only if the multiplier is not 3 |
| FloorPoints.InitialInRange | examples/stb_vorbis.c:3213-3214 | a value of that many bits is in the range |
| FloorPoints.Neighbors | examples/stb_vorbis.c:1303-1312 | the nearest earlier positions on either side, 0 where there is none |
| FloorPoints.SetUpFloor | examples/stb_vorbis.c:3988-4004 | refuses a floor if and only if a position repeats; otherwise the order sorts the positions and every later point has its true predecessor and successor |
| FloorPoints.UnwrapBijective | examples/stb_vorbis.c:3246-3268 | for every prediction in the range, unwrapping is a bijection of the range onto itself with the stated inverse |
| FloorPoints.UnwrapMeaning | examples/stb_vorbis.c:3246-3268 | what a coded value means: even and odd ones go up and down from the prediction in turns, larger ones on along the side with more room |
| FloorPoints.CodedFromLine | examples/stb_vorbis.c:3238-3270 | every point is coded from the rounded height, at its position, of the line through the nearest earlier points on its left and right; coded 0 it lies on that line |
| FloorPoints.UnwrappedInRange | examples/stb_vorbis.c:3239-3269 | every final value stays in the range |
| FloorPoints.ValuesRoundTrip | examples/stb_vorbis.c:3239-3269 | wrapping the final values gives the coded ones back |
| FloorPoints.FloorRoundTrip | examples/stb_vorbis.c:3239-3269 | every vector of values in the range is the result of exactly the coding that wrapping gives |
| FloorPoints.FinalDraws | examples/stb_vorbis.c:3239-3279 | -1 marks exactly the unused points, and every level fits the 256-entry table |
| FloorPoints.DrawnPoints | examples/stb_vorbis.c:3251-3279 | a point is drawn if and only if it is one of the first two, is coded with something, or is a nearest earlier point of one that is |
| FloorPoints.LevelInTable | examples/stb_vorbis.c:3209-3210 | the values in the range are exactly those that, times the multiplier, are at most 255 |
| FloorPoints.UnwrapFloor | examples/stb_vorbis.c:3238-3279 | the in-place loop computes the final values, stored in 16 bits, and marks the unused points, whatever the coded values are, touching nothing else |
| FloorCurve.PredictBetween | examples/stb_vorbis.c:1935-1943 | a predicted point lies between the ends of its line |
| FloorCurve.PredictEnds | examples/stb_vorbis.c:1935-1943 | the line passes through both ends |
| FloorCurve.PredictRounds | examples/stb_vorbis.c:1935-1943 | the prediction is the height of the line rounded to the side of its left end, and no other number is |
| FloorCurve.LineStep | examples/stb_vorbis.c:2073-2077 | one step of the incremental line keeps whole height and error in step with the exact line |
| FloorCurve.OnLineIsPredicted | examples/stb_vorbis.c:1935-1943 | a height whose error is below one step is the predicted height |
| FloorCurve.DrawLine | examples/stb_vorbis.c:2034-2081 | every entry from x0 to before min(x1, n) is updated once with the level of the predicted height, no other is touched |
| FloorCurve.CurveOnSegment | examples/stb_vorbis.c:3084-3099 | between neighbouring used points the curve is the line between them |
| FloorCurve.CurveThroughPoints | examples/stb_vorbis.c:3084-3099 | the curve passes through every used point |
| FloorCurve.CurveStaysLevel | examples/stb_vorbis.c:3100-3105 | behind the last point the curve stays at its height |
| FloorCurve.CurveInRange | examples/stb_vorbis.c:3084-3104 | the curve never leaves 0..255, so masking the index changes nothing |
| FloorCurve.UsedPointsExact | examples/stb_vorbis.c:3085-3093 | the points drawn are exactly the points in use |
| FloorCurve.DoFloor | examples/stb_vorbis.c:3072-3108 | every entry of [0, n2) is updated exactly once with the curve's level, wherever the last point lies, and no other entry is touched |
| Windowing.RegionsInOrder | examples/stb_vorbis.c:3161-3175 | the window regions of a frame are in order and inside its block |
| Windowing.OverlapsAgree | examples/stb_vorbis.c:3059-3065 | a frame's right overlap is as long as the next frame's left overlap, and there is a window of that length |
| Windowing.FrameSamples | examples/stb_vorbis.c:3161-3175 | a frame's samples are a quarter of the previous and of the current block, plus the change of the lead |
| Windowing.RunSamples | examples/stb_vorbis.c:3161-3175 | over any run the samples are those of section 4.3.8 of the Vorbis I specification up to the lead at the two ends, at most a quarter of the difference of the block sizes |
| Windowing.Mixer.FinishFrame | examples/stb_vorbis.c:3456-3507 | the overlap is mixed, the rest is saved, the count is returned, for every case of missing window, first frame and truncated frame |
| Windowing.PlayRun | examples/stb_vorbis.c:3456-3507 | over any consistent run of frames the output is each block overlapped with the one before, in order, and no window is ever missing |
| Windowing.LappedFades | examples/stb_vorbis.c:3467-3478 | over an overlap the frame before fades out and the new one fades in: where the half window is full and its mirror place empty the new sample comes out, the other way round the old one; behind the overlap the new one comes out as it is |
| Windowing.OutputCounted | examples/stb_vorbis.c:3456-3507 | that output has as many samples as the frames' regions say |
| Windowing.OutputOfChannel | examples/stb_vorbis.c:3472-3493 | with a value per channel in each sample, every channel of a run is played as if it were the only one |
| Checksum.InitTable | examples/stb_vorbis.c:992-1001 | entry `i` is the remainder of eight steps from byte `i` |
| Checksum.UpdateFeeds | examples/stb_vorbis.c:1003-1006 | one table look-up equals feeding eight bits to the division one by one |
| Checksum.CrcIsRemainder | examples/stb_vorbis.c:992-1006 | for every message the checksum is the remainder of long division of the message followed by 32 zeros |
| Checksum.FeedIsDivision | examples/stb_vorbis.c:992-1006 | the register form and long division agree for every start value |
| Checksum.CrcAppend | examples/stb_vorbis.c:1003-1006 | the checksum of a concatenation continues from that of its first part |
| Checksum.DetectsChangedBytes | examples/stb_vorbis.c:1003-1006 | changing up to four adjacent bytes always changes the checksum |
| Checksum.PolynomialIsOdd | examples/stb_vorbis.c:989 | the divisor is odd, so a single step loses nothing |
| Checksum.PolynomialExponents | examples/stb_vorbis.c:989 | the divisor has the exponents 0, 1, 2, 4, 5, 7, 8, 10, 11, 12, 16, 22, 23 and 26 below 32 |
| Checksum.CheckPage | examples/stb_vorbis.c:4586-4603 | a page is accepted if and only if its version is 0, its segment table is there when its lacing values add up to anything, and its checksum field equals the checksum of its bytes with bytes 22 to 25 zeroed |
| Arena.Arena.SetupMalloc | examples/stb_vorbis.c:950-961 | succeeds if and only if the rounded size fits between the two ends; the new block is the only change |
| Arena.Arena.SetupTempMalloc | examples/stb_vorbis.c:969-978 | the same from the top |
| Arena.Arena.SetupTempFree | examples/stb_vorbis.c:980-987 | gives back exactly the latest scratch block |
| Arena.Arena.BlocksApart | examples/stb_vorbis.c:950-987 | in every state all live blocks are pairwise disjoint, aligned to 8 and inside the buffer |
| Arena.ReadCodebook | examples/stb_vorbis.c:3739-3922 | every path that succeeds, sparse, dense, converted, with or without lookup, restores the scratch offset |
| Arena.ReadCodebooks | examples/stb_vorbis.c:4186-4187 | after any number of codebooks the scratch space is empty, as the assert says |
| Similarity.NoScriptIsCheaper | examples/common.cpp:648-670 | no edit script costs less than the recurrence of the table |
| Similarity.SomeScriptIsThatCheap | examples/common.cpp:648-670 | some edit script costs exactly that |
| Similarity.DistanceIsLeastCost | examples/common.cpp:648-670 | the recurrence is the least number of insertions, deletions and substitutions over all scripts |
| Similarity.DistanceSymmetric | examples/common.cpp:648-670 | the distance is symmetric, by turning scripts round |
| Similarity.TriangleInequality | examples/common.cpp:648-670 | the distance satisfies the triangle inequality |
| Similarity.ScoreProperties | examples/common.cpp:667-669 | the score is symmetric, between 0 and 1, 1 for equal strings only, and not a number for two empty strings only |
| Similarity.ScoreOfDistance | examples/common.cpp:667-669 | what the score falls short of 1, times the longer length, is the distance; it is 0 exactly when the distance is the longer length |
| Similarity.Similarity | examples/common.cpp:648-670 | the two swapped rows, the extra first pass included, end with the score of the least edit cost |
| AudioCapture.WriteKeeps | examples/common-sdl.cpp:144-167 | writing a burst, wrapped or longer than the ring, leaves the last samples of everything captured in the ring |
| AudioCapture.LatestSamples | examples/common-sdl.cpp:195-209 | the one or two pieces read back are the latest samples in order |
| AudioCapture.AudioAsync.Callback | examples/common-sdl.cpp:139-168 | appends the burst to what has been captured while running, nothing while paused |
| AudioCapture.AudioAsync.Get | examples/common-sdl.cpp:170-211 | the last min(requested, available) samples since the last clear |
| AudioCapture.AudioAsync.RequestedIs | examples/common-sdl.cpp:170-190 | as many samples as fit in the time asked for; without a time, the whole ring |
| AudioCapture.AudioAsync.Clear | examples/common-sdl.cpp:117-136 | forgets everything captured, only while running |
| AudioCapture.AudioAsync.Pause | examples/common-sdl.cpp:99-115 | stops capturing, unless there is no device or it is stopped |
| AudioCapture.AudioAsync.Resume | examples/common-sdl.cpp:81-97 | starts capturing, unless there is no device or it is running |
| AudioCapture.RunAndGet | examples/common-sdl.cpp:81-211 | after any interleaving of callbacks, clears, pauses and resumes, the latest samples captured while running since the last effective clear |
| AudioCapture.RunsSinceResumed | examples/common-sdl.cpp:81-116 | after any steps the device runs if and only if it has been resumed and not paused since |
| AudioCapture.CapturedSinceClear | examples/common-sdl.cpp:117-168 | what counts as captured is exactly the bursts since the last clear that found the device running |

## Left out

- IMDCT, window and twiddle tables, channel coupling, residue decoding, lookup multiplicands and sample conversion in `examples/stb_vorbis.c`: floating point.
- Seeking, `peek_decode_initial`, the search loop of `vorbis_find_page` around the page check, and the pushdata page search: probes and recovery heuristics.
- The position bookkeeping of `vorbis_decode_packet_rest` (deferred discard, granule correction, truncated last frame) beyond the note of which packet a granule position belongs to.
- `print_grammar` and `print_rule`: they do not escape, so they invert nothing.
- 32-bit wrap-around of symbol identifiers, arena sizes and sample counts: numbers are unbounded where the program would need more than 2^31 of something.
- SDL device setup, events and locking: each method of `AudioCapture.AudioAsync` is one atomic step, its bursts are whole samples, and a length that is not a multiple of four bytes is not modelled.
- The rest of the `examples/` programs, the bindings, the converters and the library itself: plumbing, easy members or code outside this model.
- GrammarSpelling.ReadIffSpelled: is about texts in UTF-8, as the program assumes; what other bytes are decoded to is in `GrammarText.DecodeUtf8`.
- Windowing.Mixer.FinishFrame: the samples of all channels lie side by side, not in one buffer per channel.
- DecodeRuns.RunOp: in an incomplete code, bits that no codeword starts may give some symbol; which one is not said.
- Huffman.DecodeScalarRaw: needs a valid accumulator or a packet that stays at its end, like `Huffman.Decode`.
- Huffman.DecodeRaw: the same.
- Huffman.Decode: after a failed read it needs a packet that stays at its end. If a page came that does not continue the packet, the program reads on in that page and shifts by a negative number. A sparse book without any codeword returns -1 where the program would read before a missing table.
- BitReader.Reader.PrepHuffman: the same as for `Huffman.Decode`.
- BitReader.Reader.GetBits: nothing is said of the bits of a packet that breaks off at a page which does not continue it, since the next read goes on with that page. 32 bits may not be asked for while 32 are held, since the program would shift a word by its own width; no caller does.
- DecodeRuns.RunOps: reads of up to 31 bits and books that decode everything (25-bit codewords, 32767 symbols); what happens outside that is in `Huffman.Decode` and `BitReader.Reader.GetBits`.
- OggPackets.ReadsAllPackets: every page has at least one segment; with an empty page the reader goes by the segment table of the page before.
- FloorPoints.FinalDraws: coded values are in the range, as an encoder makes them; for others the program's result is in `FloorPoints.UnwrapFloor`.
- FloorCurve.DoFloor: the first point is at 0 and in use and levels fit the table, which is what `FloorPoints.SetUpFloor` and `FloorPoints.FinalDraws` provide.
- Codewords.ComputeCodewords: lengths are 1 to 31 or absent, which the header reader has checked; the codeword tables it fills are values here, only the list of free leaves is updated in place.
- Codebook.ComputeSorted: the library's sort is an insertion sort on values here; that it sorts in place is not modelled.
- Arena.Arena.SetupTempFree: the block given back is the latest one, as the comment on it demands; the allocation mode without a buffer is not modelled.
- Similarity.Similarity: the score is exact, where the program rounds to single precision.
- Similarity.ScoreProperties: about the exact score.
