# Verified model of the LZ4 codec and the contour builder

The project models two components of the repository and proves what they promise.

**LZ4** (`lz4/lz4.c`, `lz4/lz4hc.c`): the block format, the decoder with its fast loop, two-stage shortcut,
overshooting copies, dictionaries and partial mode, the fast compressor with its three output disciplines and its
reusable table, the HC compressor with chains, pattern analysis, chain swapping, the lazy parser and the optimal
parser, and streaming on all three sides. The platform is fixed to 64-bit little-endian. Addresses are indices into
one flat memory; buffers that are written are arrays, input is a sequence of bytes.

**Contours** (`src/contours.cpp`): the marching-triangles routine driven by the 3x3x3 case table, and the chaining,
merging and condensing of its segments. Coordinates and heights are real numbers.

## How it is built

| file | what it holds |
|---|---|
| `Lz4Defs.dfy` | machine types and constants |
| `Lz4Format.dfy` | sequences, what they mean, their encoding, a byte-at-a-time reference decoder, the parsing restrictions, the round trip of the format |
| `Lz4Count.dfy`, `Lz4Copy.dfy` | word-at-a-time counting and overshooting or overlapping copies, against their bytewise meaning |
| `Lz4Safe.dfy` | what LZ4_decompress_safe accepts and yields, as a function; exactly when that is the reference decoder |
| `Lz4Decoder.dfy` | LZ4_decompress_generic, stage by stage, against that function |
| `Lz4Encode.dfy` | writing sequences; the invariant that the output says what the input holds; room |
| `Lz4FastTable.dfy`, `Lz4FastPlan.dfy`, `Lz4FastCompressor.dfy` | the hash table with what may be in it, the search; the sequences the compressor decides on, whatever the room; LZ4_compress_generic |
| `Lz4FastLimit.dfy` | blocks in which every probe misses, so that the search counter leaves the range of an int |
| `Lz4Stream.dfy`, `Lz4StreamDecode.dfy`, `Lz4StreamHistory.dfy`, `Lz4StreamRun.dfy` | contexts that survive calls, how much of the content each block of a run may refer to, and whole runs |
| `Lz4StreamPair.dfy` | for which runs both stretches of the decoder are the end of the content |
| `Lz4HcChain.dfy`, `Lz4HcPattern.dfy`, `Lz4HcMatch.dfy`, `Lz4HcSearch.dfy`, `Lz4HcSwap.dfy` | the HC compressor's chains, patterns and search, with an example of chain swapping |
| `Lz4HcEncode.dfy`, `Lz4HcPlan.dfy`, `Lz4HcLazy.dfy`, `Lz4HcOptimal.dfy` | writing a sequence, the sequences a parser decides on and what is written of them, the lazy and the optimal parser |
| `Lz4HcStream.dfy`, `Lz4HcRun.dfy` | contexts and runs of the HC compressor |
| `ContourMap.dfy`, `ContourVertex.dfy`, `ContourLines.dfy` | the triangles and their lines; ends at vertices that a level meets; the lines' chaining, merging and condensing |

That what is written can be decoded does not depend on which candidate a search finds: every candidate it may look at
lies in the window, and from that, from the four bytes that are compared and from counting, the round trip follows
whatever the tables hold. What is written is determined all the same. Each compressor decides on its sequences without
looking at the room there is; the blocks it writes are exactly those sequences, all of them or, filling a given size,
as many as fit, and limited output fails if and only if they do not fit. About the decisions themselves: a search that
takes no shortcut reports a match that no candidate of the attempts it is given can beat, a search that does not favour
decompression speed one that the newest candidate cannot beat, and a position that a parser leaves to literals is one
where nothing of the kind was there.

The decoder is compared at every stage with a function that says what it accepts and produces, so that overshooting
copies, wrong bytes behind the cursor included, never show; that function is compared with the reference decoder of
the format.

## What the proofs brought to light

- `read_variable_length` adds lengths in 32 bits (lz4/lz4.c:1628-1637), so a well-formed block with a match of more
  than 2^32 bytes can be accepted with a shorter one. `Lz4Safe.SizeLimitIsExact` says for exactly which input sizes
  this cannot happen: below 16843018 bytes, or 16843019 without history. Well-formed blocks that fit are decoded
  whatever their size (`Lz4Safe.WellFormedDecodes`); for partial decoding `Lz4Safe.TotalLimitIsExact` gives the exact
  limit on the content.
- A match may end in the last five bytes of the output if it is copied by the shortcut of the safe loop, but not
  otherwise (lz4/lz4.c:1863-1878, 2043); so whether a block that breaks the end-of-block rules is accepted depends on
  how its matches happen to be copied. `Lz4Safe.LateMatch` says exactly when; `Lz4Safe.LateBlockAccepted` is a block
  that is accepted if its match has an offset of at least 8.
- A full decode into an empty buffer accepts only the block of one zero byte, while in larger buffers every single
  byte below 16 decodes to nothing (lz4/lz4.c:1697-1701): `Lz4Safe.NoContent`, with `Lz4Safe.EmptyBufferIsStricter`
  for the byte 5.
- The search counter starts at the acceleration times 64 and counts probes in an int (lz4/lz4.c:896-905).
  `Lz4FastTable.CounterIsExact` says for exactly which accelerations and sizes it can overflow,
  `Lz4FastLimit.SearchOverflows` gives an input on which it does for each of them, and
  `Lz4FastTable.AccelerationLimit` the largest acceleration that suits every input, 0x1FFFFFE. The compressor is
  modelled for every acceleration that suits the size of its input.
- Filling a given size, the last literals are shortened to what a division by 255 of the room leaves
  (lz4/lz4.c:1144-1156, lz4/lz4hc.c:709-738), which can be too few. `Lz4Encode.FillingRun` says for exactly which room
  one more literal would fit; `Lz4Encode.RoomLeft` is an example, 268 literals into 271 bytes where 269 fit.
  `Lz4Stream.AlmostFull` bounds what is lost: about one byte for each 65025 of the target, rounded up.
- After an empty block decoded to another place the streaming decoder's external dictionary and prefix are the same
  bytes (lz4/lz4.c:2250-2257), so that together they need not be the end of the content. `Lz4StreamPair.PairIsExact`
  says for exactly which layouts of blocks they always are. No block can refer to them where they are not, and runs
  with empty blocks are restored.
- The comment on `LZ4_memcpy_using_offset` asks for 8 writable bytes behind the end (lz4/lz4.c:421-423). They are
  enough exactly at offsets 1, 2 and 4 and for matches of at least 8 bytes (`Lz4Copy.EightBytesSuffice`); a match of
  four bytes at offset 3 changes the twelfth byte behind its end (`Lz4Copy.OverwritesTwelve`). The fast loop leaves
  enough room.
- `LZ4HC_rotatePattern` turns patterns of four bytes the wrong way on a little-endian machine (lz4/lz4hc.c:161-167);
  `Lz4HcPattern.RotationContinues` says for exactly which patterns it is right. The search only confirms patterns of a
  single byte, so nothing goes wrong.
- With chain swapping the HC search may look at the last three bytes of an external dictionary, which
  `LZ4HC_protectDictEnd` keeps other paths from (lz4/lz4hc.c:226-229, 312-334). It then reads up to three bytes behind
  the dictionary: `Lz4HcSwap.Reach` is an example in which they are not in memory. `Lz4HcMatch.TryDict` shows that
  such a candidate is never reported, and `Lz4HcSearch.Next` that it cannot occur without chain swapping, at levels 1
  to 9.
- The test by which neighbouring vectors of a line are added up divides both by a component of the second
  (src/contours.cpp:638-665), so it does not compare slopes: `ContourLines.NotTheSlopes` has two vectors of different
  slope that are added up and two of equal slope that are not; `ContourLines.CondensableCompares` says what is compared.
- After joining two lines that start at the same point the merge does not go back (src/contours.cpp:456-513), so lines
  that meet can remain: `ContourLines.StillMeeting`, with `ContourLines.WhichStillMeet` for which lines those can be.
- The contour loops run `i` between the bounds of y and `j` between those of x (src/contours.cpp:107-108), so the
  visited cells are those of the raster only if both bounds agree: `ContourMap.OwnCellsVisited`, with
  `ContourMap.TwoCells` for a raster of two cells. The other statements speak of the visited rectangle.

## Model

| member | source | states |
|---|---|---|
| `Lz4Format.RoundTrip` | lz4/lz4.c:188-196 | for every list of valid sequences, every last literals and every history, decoding the encoded block with the byte-at-a-time reference decoder gives exactly what the sequences mean |
| `Lz4Format.DecodeEncoded` | lz4/lz4.c:1001-1074 | decoding the bytes of a run of sequences applies exactly these sequences to the history and goes on behind them |
| `Lz4Format.CopyMatchUnique` | lz4/lz4.c:2026-2053 | the bytes a match adds are determined: whatever extends the history with the offset as period is what copying one byte at a time gives, overlapping or not |
| `Lz4Format.CopyMatch` | lz4/lz4.c:1995-1998 | a match keeps the history, adds its length, and every added byte repeats the one `off` before it |
| `Lz4Format.ReadLengthInverts` | lz4/lz4.c:971-977 | reading a length field gives back the number that was written, and stops right behind it |
| `Lz4Format.EncodedConforms` | lz4/lz4.c:188-194 | an encoded block meets the parsing restrictions of the block format whenever its last sequence and last literals obey the end-of-block rules |
| `Lz4Format.RestPrepend` | lz4/lz4.c:2225-2262 | a longer history in front changes nothing for a block that already decodes |
| `Lz4Format.RestTrim` | lz4/lz4.c:1680 | conversely 65535 bytes of history are all a block can see: if it decodes with more it decodes the same with that much |
| `Lz4Format.RestExtends` | lz4/lz4.c:1653-2068 | reference decoding only appends to the history |
| `Lz4Count.Count` | lz4/lz4.c:536-559 | the result is exactly the length of the longest common prefix, bounded by the limit |
| `Lz4Count.CountWord` | lz4/lz4.c:548-553 | one 8-byte comparison tells exactly how many of the eight bytes agree from the start |
| `Lz4Count.CountTail` | lz4/lz4.c:555-558 | the 4, 2 and 1 byte steps finish the longest common prefix when at most seven bytes are left |
| `Lz4Count.NbCommonBytes` | lz4/lz4.c:463-483 | the multiplication and table lookup give the index of the lowest non-zero byte |
| `Lz4Count.DeBruijnIsLowestByte` | lz4/lz4.c:474-483 | for every non-zero word the De Bruijn lookup finds the lowest non-zero byte |
| `Lz4Count.ArchDifference` | lz4/lz4.c:540-553 | the XOR of two words is zero exactly if all eight bytes agree; otherwise its lowest non-zero byte is the first difference |
| `Lz4Copy.WildCopy8` | lz4/lz4.c:359-366 | at a distance of at least 8 all bytes up to the end repeat those before, and only the stated overshoot is written |
| `Lz4Copy.WildCopy32` | lz4/lz4.c:411-419 | the same in steps of twice 16 bytes, at a distance of at least 16 |
| `Lz4Copy.CopyFirst8` | lz4/lz4.c:2026-2039 | after the two tables have moved the source the first eight bytes are right and the rest of the match can be copied without overlap |
| `Lz4Copy.StretchedCopy` | lz4/lz4.c:368-369 | for every offset 1 to 7 eight bytes of the match and a continuation at the stretched distance make the whole match |
| `Lz4Copy.MemcpyUsingOffsetBase` | lz4/lz4.c:388-406 | every byte written, up to where the wild copy stops, continues the byte-at-a-time match, for every offset and length |
| `Lz4Copy.CopyPattern` | lz4/lz4.c:431-455 | for offsets 1, 2 and 4 so does every byte of the repeated 8-byte pattern |
| `Lz4Copy.MemcpyUsingOffset` | lz4/lz4.c:424-456 | for every offset below 16 all bytes up to the end of the last copy continue the byte-at-a-time match, and no others are written |
| `Lz4Copy.EightBytesSuffice` | lz4/lz4.c:421-423 | the last copy ends at most eight bytes behind the match, as the comment has it, exactly at offsets 1, 2 and 4 and for matches of at least eight bytes |
| `Lz4Copy.OverwritesTwelve` | lz4/lz4.c:388-406 | an example: a match of four bytes at offset 3 changes the twelfth byte behind its end |
| `Lz4Copy.Copy18` | lz4/lz4.c:1785-1794 | three fixed copies give every match of at most 18 bytes at a distance of at least 8 |
| `Lz4Copy.CopyMatchPartial` | lz4/lz4.c:2012-2024 | at the end of a partial decode exactly the part of the match that fits is written |
| `Lz4Copy.CopyMatchSafe` | lz4/lz4.c:2026-2054 | the safe loop copies exactly the byte-at-a-time match, or refuses one that reaches into the last five bytes; no write leaves the buffer |
| `Lz4Copy.CopyTail` | lz4/lz4.c:2041-2049 | close to the end the wild copy and the single bytes together finish the match within the buffer |
| `Lz4Safe.DecodeCases` | lz4/lz4.c:1843-2055 | a decode that does not fail ends with the last literals, where the code allows them, or copies a full sequence, or as much of its match as there is room for, and goes on behind it; or it meets an offset of zero |
| `Lz4Safe.LateMatch` | lz4/lz4.c:1850-1878 | a full decode accepts a sequence whose match ends in the last five bytes of the output, or behind them, if and only if the shortcut copies that match and the rest is accepted |
| `Lz4Safe.LateBlockAccepted` | lz4/lz4.c:2043 | an example: a block whose match fills an output of 32 bytes is accepted if and only if the offset is at least 8 |
| `Lz4Safe.NoContent` | lz4/lz4.c:1697-1701 | the inputs that decode to nothing: into an empty buffer only the zero byte, into any other every single byte below 16 |
| `Lz4Safe.EmptyBufferIsStricter` | lz4/lz4.c:1697-1701 | an example: the byte 5 is rejected with no room and decodes to nothing with any |
| `Lz4Safe.LitFieldSound` | lz4/lz4.c:1892-1898 | near enough to the end of the input a literal length read in 32 bits, cut short or not, is the one of the format, or its literals do not fit the input |
| `Lz4Safe.SafeIsReference` | lz4/lz4.c:1653-2068 | on inputs below the size limit the decoder, full or partial, reports only what the reference decoder says, or the beginning of it; it meets an offset of zero only where the reference does |
| `Lz4Safe.WellFormedDecodes` | lz4/lz4.c:1697-2068 | every well-formed block that fits is decoded to exactly its content, whatever its size; decoding partially, min(target, full size) bytes of it, if no length of it needs more than 32 bits |
| `Lz4Safe.SizeLimitIsExact` | lz4/lz4.c:1628-1645 | for each size up to INT_MAX: all inputs of that size that are accepted are decoded as the format means it, fully and partially, if and only if the size is below 16843018, or 16843019 without history; from there on there is a block of every size whose match loses 2^32 bytes |
| `Lz4Safe.TotalLimitIsExact` | lz4/lz4.c:1628-1645 | for each content size up to 2^32 + 2^30: every well-formed block of that content is decoded partially up to every target if and only if the content is smaller than 2^32 + 24 bytes, or 2^32 + 25 without history |
| `Lz4Decoder.ReadVariableLength` | lz4/lz4.c:1625-1645 | position, error kind and sum of a run of length bytes, the sum kept modulo 2^32, and where the run is cut short |
| `Lz4Decoder.SafeLiterals` | lz4/lz4.c:1900-1956 | literals are copied, or end the block, or are rejected, exactly where SafeDecode says so |
| `Lz4Decoder.CopyFromDict` | lz4/lz4.c:1985-2002 | a match that starts in the external dictionary, and may run on into the prefix, is the byte-at-a-time match over both |
| `Lz4Decoder.SafeMatch` | lz4/lz4.c:1977-2054 | the match copy of the safe loop, also where it fails, leads to what SafeDecode says |
| `Lz4Decoder.SafeToken` | lz4/lz4.c:1844-1889 | so does a token of the safe loop |
| `Lz4Decoder.Shortcut` | lz4/lz4.c:1850-1889 | both stages of the shortcut lead to what SafeDecode says: a quick match may end anywhere in the output, any other is decoded as usual |
| `Lz4Decoder.SafeLoop` | lz4/lz4.c:1843-2055 | from any stage the safe loop ends finished or failed with the result that the stage leads to, every write inside the output |
| `Lz4Decoder.FastLiterals` | lz4/lz4.c:1717-1757 | the first half of a fast-loop turn leads to the same result as the safe loop, or hands the literals over untouched |
| `Lz4Decoder.FastCopy` | lz4/lz4.c:1797-1838 | the general match copy of the fast loop is the byte-at-a-time match |
| `Lz4Decoder.FastMatch` | lz4/lz4.c:1759-1838 | the second half of a fast-loop turn leads to the same result as the safe loop, or hands the match over untouched |
| `Lz4Decoder.FastLoop` | lz4/lz4.c:1712-1839 | the fast loop leaves the decoder at a stage from which the safe loop reaches the same result |
| `Lz4Decoder.Decompress` | lz4/lz4.c:1653-2068 | for every input, full or partial, with or without dictionary, unless it holds an offset of zero: the call succeeds exactly if SafeDecode accepts the input, and then its output is exactly what SafeDecode yields; nothing outside [start, oend) changes |
| `Lz4Decoder.OutcomeIsReference` | lz4/lz4.c:1653-2068 | a call on an input below the size limit that succeeds has decoded what the reference decoder decodes, or decoding partially the beginning of it |
| `Lz4StreamDecode.DecompressSafe` | lz4/lz4.c:2074-2079 | one-shot decoding succeeds exactly if SafeDecode accepts the input, with exactly its output |
| `Lz4StreamDecode.DecompressSafePartial` | lz4/lz4.c:2082-2088 | partial decoding to min(target, capacity) bytes does exactly what SafeDecode says |
| `Lz4Encode.WriteExtBy4` | lz4/lz4.c:1061-1072 | the length extension written four bytes at a time is the one of the format; up to three bytes too many are touched |
| `Lz4Encode.WriteLiterals` | lz4/lz4.c:971-981 | token, length and literals stand where they belong; the wild copy overshoots by at most eight bytes |
| `Lz4Encode.SequenceAdded` | lz4/lz4.c:960-1078 | an output with one more sequence written says what the input holds up to the end of that match |
| `Lz4Encode.BlockDone` | lz4/lz4.c:1142-1168 | the finished block decodes to exactly the input it covers, meets the end-of-block rules, and is a zero byte when it covers nothing |
| `Lz4Encode.LeanStep` | lz4/lz4.h:171 | at every sequence boundary the output has at most consumed + consumed/255 bytes |
| `Lz4Encode.LeanLast` | lz4/lz4.h:171 | behind any boundary the last literals still fit into LZ4_COMPRESSBOUND of the input |
| `Lz4Encode.FittingRunFits` | lz4/lz4.c:1144-1156 | the shortened last run fits the output and is shortened only if it must be |
| `Lz4Encode.FillingRun` | lz4/lz4.c:1144-1156 | for every room too small for the last literals: how many bytes the shortened run leaves free, and that one more literal would fit if and only if the quotient of room + 240 by 255 exceeds the remainder by at least two |
| `Lz4Encode.RoomLeft` | lz4/lz4.c:1144-1156 | an example: of any 270 or more literals 268 are written into 271 bytes, in 270 of them, though 269 literals take exactly 271 |
| `Lz4FastTable.PutNewest` | lz4/lz4.c:669-698 | storing the newest position keeps every entry below the next position to be probed |
| `Lz4FastTable.StoredIndexFits` | lz4/lz4.c:566 | below the 64 KB limit every index a 16-bit table is given fits its cell, so no store truncates |
| `Lz4FastTable.AcceptedIsInWindow` | lz4/lz4.c:939-945 | an entry that passes the tests of the search lies in the window, at a distance of 1 to 65535, also for the 16-bit table that is not tested for distance |
| `Lz4FastTable.ProbeAt` | lz4/lz4.c:898-950 | a probe reads the entry below the current index, replaces it and nothing else, and reports it if and only if it is in reach and its four bytes agree |
| `Lz4FastTable.FindMatch` | lz4/lz4.c:892-952 | the search ends with the first candidate in the window whose four bytes agree among the positions it samples, or close to the end of the block if there is none; the table is left as these probes leave it and in order; the number of probes says where it ended, and in a Miss that there was no room for another; the counter stays an int where the acceleration suits the size |
| `Lz4FastTable.SearchCounterFits` | lz4/lz4.c:896-905 | where the acceleration suits the size of the input every probe that the search has room for finds the counter below INT_MAX |
| `Lz4FastTable.CounterIsExact` | lz4/lz4.c:896-905 | for each acceleration and supported size: some probe of a search in which all miss takes the counter beyond INT_MAX if and only if the acceleration does not suit the size |
| `Lz4FastTable.AccelerationLimit` | lz4/lz4.c:896-905 | an acceleration suits every supported size if and only if it is at most 0x1FFFFFE |
| `Lz4FastTable.CounterOverflows` | lz4/lz4.c:896-905 | on the largest input a search in which all probes miss takes the counter beyond INT_MAX with its 64th probe, and not before, at 0x1FFFFFF; above that the counter starts beyond it |
| `Lz4FastLimit.ProbeMisses` | lz4/lz4.c:892-952 | in the block given for a pair of acceleration and size no probe of the first search has a candidate that agrees in four bytes |
| `Lz4FastLimit.SearchOverflows` | lz4/lz4.c:892-952 | so for every acceleration that does not suit a size there is an input of that size on which the first search takes the counter beyond INT_MAX |
| `Lz4FastTable.CatchUp` | lz4/lz4.c:955-957 | the match is extended backwards by exactly the bytes that agree before both positions, not before the anchor and not out of its segment |
| `Lz4FastTable.MatchCode` | lz4/lz4.c:1013-1033 | the counted length is a real match, across the end of an external dictionary too, as long as the bytes agree, ending at least five bytes before the block does |
| `Lz4FastPlan.FittingCodeFits` | lz4/lz4.c:1035-1042 | the shortened match code fills the output exactly up to the room for the last literals and leaves an end of block that is allowed |
| `Lz4FastPlan.PlanSame` | lz4/lz4.c:859-1176 | which sequences the compressor decides on, and what it leaves in the table, does not depend on the room or on whether output is limited |
| `Lz4FastPlan.PlanMatchSize` | lz4/lz4.c:962-984 | wherever a match is about to be written, the whole block takes at least what has been written, its literals, its match, one more token and five literals |
| `Lz4FastPlan.PlanBounded` | lz4/lz4.h:171 | the sequences decided on never take more than LZ4_COMPRESSBOUND of the input |
| `Lz4FastPlan.MatchFills` | lz4/lz4.c:1035-1055 | if a match is shortened to the room, or left out, what fits of the whole plan ends there |
| `Lz4FastPlan.RunOfOneByte` | lz4/lz4.c:892-1033 | 13 or more equal bytes without dictionary are one literal, one match at distance 1 and five literals, in 10 + (n + 230) / 255 bytes, whatever was in the table before |
| `Lz4FastCompressor.PutLiterals` | lz4/lz4.c:959-984 | literals are written and the room invariant kept; limited output gives up only if the literals, the shortest match, one more token and five literals do not fit; filled output stops exactly if there is no room for an offset, a token and eight literals behind them |
| `Lz4FastCompressor.ClearPositions` | lz4/lz4.c:1043-1055 | after a match has been shortened no entry is at or behind the new position |
| `Lz4FastCompressor.PutMatch` | lz4/lz4.c:986-1078 | one match is written in the state of the invariant, the next of the sequences decided on; limited output gives up only if all of them together do not fit; filled output stops, rewound before the token, only where as many as fit are written |
| `Lz4FastCompressor.NextPosition` | lz4/lz4.c:1083-1135 | the positions two before the end of a match and at its end are stored, and what stood in the table for the latter is reported if and only if it is in reach and its four bytes agree |
| `Lz4FastCompressor.LastRun` | lz4/lz4.c:1144-1156 | the last literals fit the output and meet the end-of-block rules; limited output fails exactly if they do not fit; filled output is cut to the run that the division leaves |
| `Lz4FastCompressor.CompressBlock` | lz4/lz4.c:859-1176 | a non-zero result decodes to exactly the consumed input behind the dictionary, meets the format's restrictions and the output limit, and stays within LZ4_COMPRESSBOUND; it is exactly the bytes of the sequences decided on from memory and table alone, or filling a given size of as many of them as fit; zero is returned if and only if output is limited and those bytes do not fit; the table is left as the search leaves it and fit for the next block |
| `Lz4FastCompressor.MatchFollows` | lz4/lz4.c:959-1078 | once a match has been written in full the rest of the plan goes on behind it; once its code has been shortened to the room nothing of the plan is left to be written |
| `Lz4FastCompressor.LimitedAgrees` | lz4/lz4.c:959-984 | on the same memory and table limited output fails if and only if the unlimited result is longer than the limit; otherwise it writes the same bytes, of the same input, and leaves the same table |
| `Lz4FastCompressor.FillsUp` | lz4/lz4.c:1144-1168 | filling a given size, if input is left over: exactly how many bytes stay free, and if and only if which rest of the division one more literal would have fit |
| `Lz4Stream.Stream.PrepareTable` | lz4/lz4.c:738-785 | afterwards no entry of an earlier use can be accepted: it is out of reach, or lies below the block; the table is reused only if it is of the same type, the input is small and its indices suffice, and cleared otherwise |
| `Lz4Stream.Stream.ResetFast` | lz4/lz4.c:1375-1377 | whatever the context was used for, streaming may start anew: no history, no 16-bit table, and no earlier entry within reach |
| `Lz4Stream.Stream.CompressGeneric` | lz4/lz4.c:836-857 | unsupported sizes leave everything as it was; otherwise the context advances by the block, and the result is zero exactly if limited output is too short for the sequences decided on, and else their bytes |
| `Lz4Stream.Stream.CompressFastExtState` | lz4/lz4.c:1180-1200 | what is written decodes without history to exactly the input and fits; failure if and only if the size is bad or the sequences that the search decides on, starting from an empty table, take more than the room there is; the bytes are those sequences |
| `Lz4Stream.Stream.CompressFastReset` | lz4/lz4.c:1211-1246 | the same with the table of any earlier use |
| `Lz4Stream.Stream.CompressDestSize` | lz4/lz4.c:1292-1306 | the output has at most the target size and decodes to exactly the consumed prefix of the input; all of it if the target reaches LZ4_COMPRESSBOUND; otherwise it is as many of the sequences decided on as fit, and if input is left over all but about one byte in 65025 of the target is used; zero exactly for bad sizes |
| `Lz4Stream.PlanWritten` | lz4/lz4.c:1190-1199 | with room up to LZ4_COMPRESSBOUND and limited output, or with more room and no limit: a result of zero means exactly that the sequences take more than the room, any other is exactly their bytes |
| `Lz4Stream.AlmostFull` | lz4/lz4.c:1144-1156 | if input is left over no more than one byte for each 65025 of the target, rounded up, stays free |
| `Lz4Stream.Stream.RenormDict` | lz4/lz4.c:1465-1482 | exactly if the indices of the next block would pass 2 GB, entries are rebased or dropped and the dictionary is cut to its last 64 KB, keeping its end, so that the block fits; nothing changes otherwise |
| `Lz4Stream.RebaseKeepsCandidates` | lz4/lz4.c:1465-1482 | for every later position rebasing changes neither which entries are accepted nor their distance |
| `Lz4Stream.Stream.DropTinyDict` | lz4/lz4.c:1500-1507 | dictionaries of one to three bytes are dropped unless the block follows them directly |
| `Lz4Stream.Stream.TrimOverlappedDict` | lz4/lz4.c:1509-1517 | a dictionary that the block runs into is cut to exactly the part behind the block, at most 64 KB of it, or dropped if shorter than four bytes; any other is left alone |
| `Lz4Stream.Stream.CompressFastContinue` | lz4/lz4.c:1485-1557 | a block may refer to exactly the stated length of the earlier dictionary's end, and when it succeeds decodes behind it; for contiguous blocks the new dictionary is that part and the block, otherwise the block; failure if and only if the context is dirty or the sequences that the search decides on, with the table and that part of the dictionary, take more than the room |
| `Lz4Stream.KeptWhole` | lz4/lz4.c:1485-1517 | if indices need no rebasing, the block does not run into the dictionary, and the dictionary has at least four bytes or stands directly in front, the whole of it may be referred to |
| `Lz4Stream.ContinueReady` | lz4/lz4.c:1519-1551 | whichever way a block reaches its history, the table of the stream suits it |
| `Lz4StreamDecode.StreamDecoder.SetStreamDecode` | lz4/lz4.c:2188-2196 | the given stretch becomes the prefix, and there is no external dictionary |
| `Lz4StreamDecode.StreamDecoder.DecompressSafeContinue` | lz4/lz4.c:2225-2262 | the call has the outcome of the job that prefix and external dictionary determine; afterwards they are the ones of the rolled or new segment, and when nothing was decoded the external dictionary may still have changed |
| `Lz4StreamDecode.OutcomeRestores` | lz4/lz4.c:2074-2088 | whatever a decoder sees in front of the history a block was made with, and provided it sees enough of it, it restores the block's content, or decoding partially as much of it as was asked for |
| `Lz4StreamDecode.RoundTripOneShot` | lz4/lz4.c:859-2068 | for every input up to LZ4_MAX_INPUT_SIZE, every acceleration that suits its size and all buffers large enough: compressing and decompressing gives back the input |
| `Lz4StreamHistory.AdjoiningKeeps` | lz4/lz4.c:1485-1525 | a block directly behind the dictionary may refer to all of it, or after rebasing to its last 64 KB at least |
| `Lz4StreamHistory.SegmentKept` | lz4/lz4.c:1519-1556 | for every run: after blocks that directly follow one another the dictionary ends with the last of them and holds all of them, or 64 KB of them at least |
| `Lz4StreamHistory.BlockReach` | lz4/lz4.c:1519-1556 | for every run: a block that follows such a segment directly, or stands elsewhere without running into it, may refer to all of it, or to 64 KB of it at least |
| `Lz4StreamRun.EncStep` | lz4/lz4.c:1519-1556 | after a block the encoder's dictionary is a suffix of everything compressed so far, ends with the block, and lies in earlier inputs |
| `Lz4StreamRun.DecStep` | lz4/lz4.c:2230-2259 | after a block, empty or not, the decoder's prefix is a suffix of everything decoded so far, whether the segment rolls on or a new one starts, and both its stretches hold decoded bytes |
| `Lz4StreamRun.PairStep` | lz4/lz4.c:2230-2259 | external dictionary and prefix together are a suffix of everything decoded so far after every block that is not empty, and after one decoded where the prefix ends if they were before |
| `Lz4StreamRun.DestsApart` | lz4/lz4.c:2225-2262 | what the decoder refers to is never overwritten by the block being decoded |
| `Lz4StreamRun.StillEnough` | lz4/lz4.c:2225-2262 | after every block, empty or not, the decoder's prefix covers what the encoder may refer to |
| `Lz4StreamRun.Step` | lz4/lz4.c:1485-1557 | one more block of a run is restored, and all earlier ones stay restored; its bytes are exactly the sequences that the search decides on with the table and the dictionary that the earlier blocks left, and it fails exactly if they do not fit |
| `Lz4StreamRun.Run` | lz4/lz4.c:2225-2262 | over any number of blocks, empty ones included, placed anywhere without overlap, the decoder starting new segments only where the encoder does: every compressed block is restored, each is exactly what the search decides on with the history that the earlier ones left, and the run stops early only at a block for which that does not fit |
| `Lz4StreamRun.RunAgain` | lz4/lz4.c:1375-1377 | the same with a context left by any earlier use, once it has been reset |
| `Lz4StreamPair.PairIsExact` | lz4/lz4.c:2230-2259 | for each layout of blocks and each number of them: external dictionary and prefix together are a suffix of what was decoded, whatever it is, if and only if the last block that left a segment with something in it was not empty |
| `Lz4StreamPair.EmptyBlockElsewhere` | lz4/lz4.c:2250-2257 | an example of two blocks after which they need not be |
| `Lz4StreamPair.PairOfRun` | lz4/lz4.c:2225-2262 | in a run of compressing and decompressing they are a suffix of the content under the same condition |
| `Lz4HcChain.ChainTables.ClearTables` | lz4/lz4hc.c:93-97 | all heads are zero and all links 65535 |
| `Lz4HcChain.ChainTables.Insert` | lz4/lz4hc.c:117-135 | every index before the target enters its chain, and the tables stay exact |
| `Lz4HcChain.LinksStep` | lz4/lz4hc.c:127-131 | a clamped 16-bit link written to a reused slot keeps every link that is still owned exact |
| `Lz4HcChain.WalkIsExact` | lz4/lz4hc.c:117-135 | walking from a head visits, strictly downwards, exactly the earlier indices within reach that have this hash |
| `Lz4HcPattern.CountBack` | lz4/lz4hc.c:139-152 | the negated number of common bytes directly before both positions, as many as both lower bounds allow |
| `Lz4HcPattern.CountPattern` | lz4/lz4hc.c:171-199 | exactly how far the bytes repeat a four-byte pattern, up to the limit |
| `Lz4HcPattern.ReverseCountPattern` | lz4/lz4hc.c:204-219 | exactly how far the bytes before a position repeat the pattern backwards, down to the lower bound |
| `Lz4HcPattern.RepetitiveIsUniform` | lz4/lz4hc.c:341-342 | the two comparisons accept exactly the words of one repeated byte |
| `Lz4HcPattern.RotationContinues` | lz4/lz4hc.c:161-167 | rotation continues a pattern for every length exactly if the pattern repeats one or two bytes; for patterns of four bytes it turns the wrong way on a little-endian machine |
| `Lz4HcPattern.RotationOfByte` | lz4/lz4hc.c:356-365 | for the patterns of one byte that reach it, rotation changes nothing |
| `Lz4HcMatch.BeatenForward` | lz4/lz4hc.c:280-287 | for a search that does not look back, a candidate is beaten if and only if no longer stretch of it agrees with what stands at the position |
| `Lz4HcMatch.BothWays` | lz4/lz4hc.c:287-292 | no match that goes through both positions is longer than the furthest agreement backwards and forwards together |
| `Lz4HcMatch.ShorterThan` | lz4/lz4hc.c:284-285 | two different bytes at the end of the longest match so far mean that this candidate, with the bytes before the position included, is not longer |
| `Lz4HcMatch.TryPrefix` | lz4/lz4hc.c:279-293 | a reported match really agrees, forwards and backwards, inside both limits; afterwards no match with this candidate, at or around the position, is longer than the longest so far |
| `Lz4HcMatch.Gate` | lz4/lz4hc.c:284-285 | the two bytes compared first reject only candidates that cannot beat the longest match so far |
| `Lz4HcMatch.TryDict` | lz4/lz4hc.c:294-310 | a reported match really agrees, also where the dictionary ends and the prefix goes on, and afterwards none with this candidate, at or around the position, is longer; only with chain swapping can the candidate be one of the last three bytes of a dictionary, and then nothing is reported |
| `Lz4HcMatch.DictForward` | lz4/lz4hc.c:299-303 | the length with a dictionary candidate is the longest in dictionary and prefix together; it is four in the last three bytes |
| `Lz4HcMatch.ChainedReadsInside` | lz4/lz4hc.c:295-296 | the four bytes compared at an index that is in a chain lie in its segment |
| `Lz4HcSearch.ProtectedIsChained` | lz4/lz4hc.c:226-229 | the unsigned comparison rejects exactly the last three indices of the dictionary |
| `Lz4HcSearch.DictRun` | lz4/lz4hc.c:354-359 | a run counted in the dictionary and on into the prefix consists of one byte throughout |
| `Lz4HcSearch.BackRun` | lz4/lz4hc.c:360-366 | so does a run counted backwards, through the start of the prefix into the dictionary |
| `Lz4HcSearch.PatternJump` | lz4/lz4hc.c:352-403 | the match that pattern analysis reports without comparing bytes really agrees, and the index it jumps to may be tried |
| `Lz4HcSearch.SwapChain` | lz4/lz4hc.c:312-334 | the position chosen and its distance are those that sampling at growing steps finds; the position lies inside the match, and the distance is at least the link of the match's own index |
| `Lz4HcSwap.SwapLeads` | lz4/lz4hc.c:312-334 | an example: whatever tables are exact for it, swapping follows a link from inside the match to the start of the prefix |
| `Lz4HcSwap.Reach` | lz4/lz4hc.c:312-334 | in that example the tables are made by inserting the prefix, the head of the chain gives a match of five bytes, and swapping leads to the last byte of the dictionary, where the four bytes compared are not all in memory |
| `Lz4HcSearch.FollowLink` | lz4/lz4hc.c:407-408 | the next index of a chain is out of reach, or has the same hash and its four bytes inside one segment |
| `Lz4HcSearch.Next` | lz4/lz4hc.c:312-408 | whichever of swapping, analysis and chain decides, the next index may be tried or the walk ends; without chain swapping it is one that is in a chain, so that its four bytes lie in one segment; without the shortcuts it is the next of the chain |
| `Lz4HcSearch.LaterOne` | lz4/lz4hc.c:273-275 | from one index of a chain to the next the number of newer indices with that hash grows by exactly one |
| `Lz4HcSearch.NewestSeen` | lz4/lz4hc.c:273-411 | a walk that has followed the chain for its attempts, or out of reach, has beaten that many of the newest indices in the window with that hash, counted over the window and not along the chain |
| `Lz4HcSearch.FirstSeen` | lz4/lz4hc.c:273-411 | to have beaten the newest index it is enough to have tried the head of the chain, if it is within reach |
| `Lz4HcSearch.AllSeen` | lz4/lz4hc.c:273-411 | if there are no more indices with that hash in the window than attempts, no index in reach, whatever its hash, gives a longer match |
| `Lz4HcSearch.InsertAndGetWiderMatch` | lz4/lz4hc.c:234-442 | a length beyond the one given is a real match: start between the lower limit and the position, end within the upper limit and at least four bytes behind the position, distance 1 to 65535, all bytes equal; without shortcuts none of the newest maxNbAttempts indices of the chain gives a longer one, at or around the position; in every mode that does not favour decompression speed the newest gives none |
| `Lz4HcSearch.InsertAndFindBestMatch` | lz4/lz4hc.c:444-457 | from four bytes on a real match at the position; none of the newest maxNbAttempts indices in the window that have its hash gives a longer one, or with pattern analysis the newest |
| `Lz4HcEncode.EncodeSequence` | lz4/lz4hc.c:462-530 | it succeeds exactly if the two checks leave room; the output then says what the input holds up to the end of the match, with just this sequence added, in exactly the bytes the format needs; when it fails what was written before still stands |
| `Lz4HcEncode.WriteExtBy2` | lz4/lz4hc.c:515-520 | the length extension written two bytes at a time is the one of the format |
| `Lz4HcEncode.PutLast` | lz4/lz4hc.c:709-738 | the block is completed within the limit, with all literals that are left or the run that the division leaves: it decodes to exactly the consumed input, which is all of it unless the output is filled; it fails exactly if limited output has no room for them |
| `Lz4HcPlan.StuckEnds` | lz4/lz4hc.c:476-512 | where a sequence that a parser decided on does not fit the whole block does not fit; filling a given size, what is written is then exactly as many of the sequences as fit |
| `Lz4HcPlan.LimitedAgrees` | lz4/lz4hc.c:462-530 | on the same memory and tables limited output fails if and only if the unlimited result is longer than the limit; otherwise it writes the same bytes |
| `Lz4HcPlan.FillsUp` | lz4/lz4hc.c:709-738 | filling a given size, if input is left over: exactly how many bytes stay free, and if and only if which rest of the division one more literal would have fit |
| `Lz4HcPlan.SizeBounded` | lz4/lz4.h:171 | the sequences a parser decides on never take more than LZ4_COMPRESSBOUND of the input |
| `Lz4HcLazy.CorrectedIsGood` | lz4/lz4hc.c:610-621 | cutting the second match at _Search3 keeps it a match of at least four bytes with the same end, at least four bytes behind the first |
| `Lz4HcLazy.CutIsGood` | lz4/lz4hc.c:681-695 | so does the cut before the first of three matches is written, and it leaves the first at least four bytes |
| `Lz4HcLazy.WeighIsOk` | lz4/lz4hc.c:593-604 | restoring or dropping the first match leads to a state of the parser whose matches still tile the input, further right |
| `Lz4HcLazy.MoveUpIsOk` | lz4/lz4hc.c:644-706 | so do all ways of moving the second and third match up |
| `Lz4HcLazy.SearchBehind` | lz4/lz4hc.c:579-585 | a match found behind another is longer, starts inside it and ends at least one byte further right; none is reported only near the end of the block or if the newest indices give none that is longer |
| `Lz4HcLazy.Step2` | lz4/lz4hc.c:578-604 | one pass through _Search2 writes the first match or moves the newest match's end strictly to the right, and gets where the parser gets that knows no room, or stops where the next sequence does not fit |
| `Lz4HcLazy.Step3` | lz4/lz4hc.c:606-706 | one pass through _Search3 writes valid sequences in order and moves the newest match's end strictly to the right, or returns to the main loop; likewise where the parser gets that knows no room |
| `Lz4HcLazy.Parse` | lz4/lz4hc.c:575-707 | every run of the two search states ends, having written matches that tile the input from the anchor on: those that the parser without room decides on, or its first ones if the next does not fit |
| `Lz4HcLazy.CompressHashChain` | lz4/lz4hc.c:532-746 | a non-zero result decodes to exactly the consumed input behind the window's history and keeps the limits; it is exactly the bytes of the sequences decided on, or as many as fit; zero is returned if and only if output is limited and they do not fit; unless a given size is filled, every position that no stretch from a found match to the end of a written one contains had no match with any of the newest attempts candidates, or above 128 attempts with the newest; the tables stay exact |
| `Lz4HcLazy.RegionPassed` | lz4/lz4hc.c:569-707 | a stretch from a found match to the end of a written one can be added to those passed over |
| `Lz4HcLazy.RunOfOneByte` | lz4/lz4hc.c:532-746 | 13 or more equal bytes without history are, for every number of attempts, one literal, one match at distance 1 and five literals, in 10 + (n + 230) / 255 bytes |
| `Lz4HcOptimal.PriceIsSize` | lz4/lz4hc.c:1224-1247 | literals and sequences cost exactly the bytes they take in the block |
| `Lz4HcOptimal.FindLongerMatch` | lz4/lz4hc.c:1255-1275 | a reported match, shortened for fast decoding or not, is a real one; unless decompression speed is favoured, none is reported only if the newest index with that hash gives none that is longer |
| `Lz4HcOptimal.SetFirst` | lz4/lz4hc.c:1328-1362 | the cells of a region's start hold the prices of literals, of every length of the first match, and of three literals behind it |
| `Lz4HcOptimal.SetLiterals` | lz4/lz4hc.c:1400-1413 | the three cells behind a position are replaced by literals exactly where that is cheaper; no other cell changes |
| `Lz4HcOptimal.SetMatches` | lz4/lz4hc.c:1415-1449 | each length of a new match replaces its cell exactly where it is beyond what has been priced or costs no more; the last position moves only for the full length |
| `Lz4HcOptimal.SetTrailing` | lz4/lz4hc.c:1450-1458 | three literal cells follow the last match; nothing before changes |
| `Lz4HcOptimal.Fill` | lz4/lz4hc.c:1364-1464 | every cell stays a literal or a verified match that ends there, and the step returned starts at a priced position; cells, step and tables are those of pricing position by position with a search at each that the source does not skip |
| `Lz4HcOptimal.PricedKeeps` | lz4/lz4hc.c:1364-1464 | whatever the searches find, pricing never gives up the shortest step over a region's first match, and the last step chosen is a match or starts at least four bytes behind the region's start |
| `Lz4HcOptimal.WayHasMatch` | lz4/lz4hc.c:1470-1484 | so every way to a position at least four bytes behind a region's start has a match in it |
| `Lz4HcOptimal.Reverse` | lz4/lz4hc.c:1470-1484 | after the reversal in place the cells, read forwards from 0, give exactly the steps that they gave backwards, covering everything up to the last position |
| `Lz4HcOptimal.EncodePath` | lz4/lz4hc.c:1486-1498 | the path is written in order, in exactly the bytes that the prices of its sequences add up to, or its first sequences if the next does not fit |
| `Lz4HcOptimal.CompressOptimal` | lz4/lz4hc.c:1278-1537 | a non-zero result decodes to exactly the consumed input behind the window's history and keeps the limits; it is exactly the bytes of the sequences decided on, or as many as fit; zero is returned if and only if output is limited and they do not fit; unless decompression speed is favoured or a given size is filled, every position outside the stretches that start with a match found, and in each of which a match written ends, had none with the newest index of its hash |
| `Lz4HcStream.HcStream.SetCompressionLevel` | lz4/lz4hc.c:1012-1018 | levels from 1 to 12 are kept, lower ones become 9, higher ones 12 |
| `Lz4HcStream.HcStream.ResetStreamFast` | lz4/lz4hc.c:998-1009 | the context is ready for a new start with its tables kept, or cleared if it was dirty |
| `Lz4HcStream.HcStream.InitInternal` | lz4/lz4hc.c:99-113 | the window is empty, all indices used before are out of it, and the tables are exact for it |
| `Lz4HcStream.CompressWith` | lz4/lz4hc.c:773-817 | at every level the result is a block of the input, under the promises of its parser |
| `Lz4HcStream.HcStream.CompressGeneric` | lz4/lz4hc.c:758-818 | unsupported sizes change nothing; otherwise history grows by the block, the output decodes behind the history there was, and is what the level's parser decides on, or zero exactly if limited output is too short for it |
| `Lz4HcStream.HcStream.CompressFastReset` | lz4/lz4hc.c:896-911 | what is written decodes without history to exactly the input and fits, whatever the context was used for; failure if and only if the size is bad or the sequences that the level's parser decides on take more than the room there is; the bytes are those sequences |
| `Lz4HcStream.HcStream.CompressExtState` | lz4/lz4hc.c:913-918 | the same with a fresh context |
| `Lz4HcStream.HcStream.CompressDestSize` | lz4/lz4hc.c:936-944 | the output has at most the target size and decodes to exactly the consumed prefix of the input; all of it if the target reaches LZ4_COMPRESSBOUND; it is as many of the sequences decided on as fit, and if input is left over all but about one byte in 65025 of the target is used; zero only for bad sizes |
| `Lz4HcStream.HcStream.LoadDict` | lz4/lz4hc.c:1027-1046 | at most the last 64 KB given become the history |
| `Lz4HcStream.HcStream.SetExternalDict` | lz4/lz4hc.c:1054-1070 | the prefix, wherever it ends, becomes the whole history, in front of a block that stands elsewhere, and the tables stay exact; three bytes can be read behind it exactly if they could be read behind the prefix |
| `Lz4HcStream.SwitchedIsExact` | lz4/lz4hc.c:1054-1070 | once all but its last three positions are inserted, tables that were exact for the prefix are exact for it as a dictionary |
| `Lz4HcStream.HcStream.TrimOverlap` | lz4/lz4hc.c:1094-1104 | a dictionary that the block overlaps is cut to exactly the part behind the block, or dropped if shorter than four bytes; what is left is a suffix of the history and does not overlap the block |
| `Lz4HcStream.HcStream.Reload` | lz4/lz4hc.c:1083-1087 | exactly if indices have passed 2 GB the last 64 KB of the prefix, or all of it, are loaded anew; what is left is a suffix of the history |
| `Lz4HcStream.HcStream.CompressContinue` | lz4/lz4hc.c:1072-1115 | a successful block decodes behind the end of the earlier history of exactly the stated length, and its bytes are what the level's parser decides on with that history; the new history is that part and the block; failure if and only if those bytes do not fit |
| `Lz4HcStream.KeptAll` | lz4/lz4hc.c:1072-1104 | a block directly behind the prefix may refer to the whole history, as long as indices have not passed 2 GB and it does not overlap the dictionary |
| `Lz4HcStream.KeptBounds` | lz4/lz4hc.c:1072-1104 | a block placed elsewhere may refer to no more than the prefix, one directly behind it keeps no more of the prefix than there was, and what was empty stays empty |
| `Lz4HcStream.EffortGrows` | lz4/lz4hc.c:775-789 | from level 2 on higher levels with the same parser try more candidates, the optimal parser is never given up for the lazy one, target lengths do not shrink, and chains are swapped exactly from level 10 on |
| `Lz4HcRun.RoundTripHc` | lz4/lz4hc.c:896-934 | for every input up to LZ4_MAX_INPUT_SIZE, every level and all buffers large enough: compressing and decompressing gives back the input |
| `Lz4HcRun.SeesEnough` | lz4/lz4hc.c:1072-1115 | wherever the HC encoder goes on the decoder sees as much of the content as the block refers to |
| `Lz4HcRun.StillRemembers` | lz4/lz4hc.c:1072-1115 | and after the block, empty or not, it remembers the encoder's new window |
| `Lz4HcRun.HcStep` | lz4/lz4hc.c:1109-1115 | one more block of a run is restored, and all earlier ones stay restored; its bytes are what the level's parser decides on with as much history as the layout of the blocks leaves it |
| `Lz4HcRun.HcRun` | lz4/lz4hc.c:1109-1115 | over any number of blocks, empty ones included, placed anywhere without overlap, at any level: every compressed block is restored by the streaming decoder, each may refer to exactly the history that the layout leaves it and is what the level's parser decides on with it, and the run stops early only at a block for which that does not fit; only levels that swap chains need three readable bytes behind each block |
| `ContourMap.LineFromHeights` | src/contours.cpp:94-106 | for every three heights: a vertex on the level opposite a cut side gives the line from that vertex to the crossing, two vertices on the level give the side between them, three the side of the box; a line is drawn if and only if a side is cut or two vertices are on the level |
| `ContourMap.LineOnLevel` | src/contours.cpp:178-265 | for every level, also one that meets vertices, both ends of a drawn line lie on sides of the triangle at points where linear interpolation gives the level |
| `ContourMap.LineJoinsCuts` | src/contours.cpp:94-106 | if the level meets no vertex a line is drawn exactly if a side is cut; then exactly two sides are and the line joins their crossings |
| `ContourMap.CrossIsBetween` | src/contours.h:27-28 | xsect and ysect divide a cut side in proportion to the heights |
| `ContourMap.CrossSymmetric` | src/contours.h:27-28 | both triangles at a side compute the same crossing |
| `ContourMap.TwoTrianglesAtASide` | src/contours.cpp:155-177 | every side belongs to exactly two triangles of the plane |
| `ContourMap.EveryLineJoinsCrossings` | src/contours.cpp:107-278 | at a level that meets no vertex every emitted segment joins the crossings of two different cut sides of one visited triangle |
| `ContourMap.CrossingOfOneSide` | src/contours.h:27-28 | two different sides are never crossed at the same point |
| `ContourMap.TriangleEnds` | src/contours.cpp:155-265 | at every level the line of a visited triangle has exactly one end at the crossing of each of its cut sides, and none at that of any other side |
| `ContourMap.Watertight` | src/contours.cpp:107-278 | for increasing levels and every one of them, vertices on the level or not: at the crossing of every cut side the list of the level holds exactly one segment end for each visited triangle at the side |
| `ContourMap.EndsAreCrossings` | src/contours.cpp:107-278 | at a level that meets no vertex segments of the list end nowhere else than at crossings of sides of visited triangles |
| `ContourMap.LinesEndOnBorder` | src/contours.cpp:107-278 | at a level that meets no vertex, wherever segments of the list end there are exactly two ends inside the visited rectangle and exactly one on its border |
| `ContourVertex.TriangleEndsAtNode` | src/contours.cpp:178-265 | a triangle's line ends in one of its vertices if and only if that vertex is on the level and the other two are not on one side of it; of three vertices on the level only in the two corners of the cell |
| `ContourVertex.EndsAtCentre` | src/contours.cpp:107-278 | at a cell's centre on the level the list holds one end for each side of the cell whose two corners are not equal in sign |
| `ContourVertex.EndsAtGrid` | src/contours.cpp:107-278 | at a raster point on the level it holds one end for each of the eight triangles around it that is visited and whose other two vertices are not on one side of the level |
| `ContourVertex.LinesPassVertex` | src/contours.cpp:107-278 | at a vertex on the level inside the visited rectangle, none of whose neighbours is on the level, an even number of segments ends |
| `ContourVertex.EveryEnd` | src/contours.cpp:107-278 | at every level segments of the list end nowhere else than at crossings of cut sides of visited triangles and in vertices of theirs that are on the level |
| `ContourMap.CutPasses` | src/contours.cpp:109-118 | no cell that a level cuts is skipped by the tests on minimum and maximum |
| `ContourMap.OwnCellsVisited` | src/contours.cpp:107-108 | the visited cells are the raster's own if and only if the bounds of x are those of y, or there are no cells |
| `ContourMap.TwoCells` | src/contours.cpp:107-108 | an example: of two cells side by side the second is not visited, but the one above the first is |
| `ContourMap.FillBox` | src/contours.cpp:119-139 | the four arrays hold coordinates, heights and signs of the four corners and of the centre |
| `ContourMap.DrawTriangle` | src/contours.cpp:172-265 | the switch draws the line that the case table asks for |
| `ContourMap.Contouring.constructor` | src/contours.cpp:280-291 | the levels run from the minimum to the maximum in equal steps, increasing if these differ |
| `ContourMap.Contouring.AddSegment` | src/contours.cpp:300-311 | the segment is appended to the list of its level, the other lists stay |
| `ContourMap.Contouring.Contour` | src/contours.cpp:34-278 | the list of each level grows by the lines of all visited cells, row by row |
| `ContourLines.Contour.AddVector` | src/contours.cpp:551-570 | the displacement is appended and the end moves, wherever it starts; if it starts where the line ends the vectors still lead from start to end |
| `ContourLines.Contour.Reverse` | src/contours.cpp:572-593 | start and end change places and the vectors are walked backwards; the line still leads from start to end |
| `ContourLines.Contour.Merge` | src/contours.cpp:595-600 | the other line's vectors follow, with its end; if it starts where this one ends the vectors still lead from start to end |
| `ContourLines.Contour.Condense` | src/contours.cpp:619-667 | neighbouring vectors are added up exactly where the test says; the line leads where it led |
| `ContourLines.CondensedTotal` | src/contours.cpp:638-665 | condensing never changes the sum of the vectors and never empties a line |
| `ContourLines.CondensedIsGreedy` | src/contours.cpp:638-665 | condensing in place is taking up vectors from left to right into a sum, and starting a new one where the test fails |
| `ContourLines.CondensableCompares` | src/contours.cpp:640-655 | the test compares the other components of two vectors, up to the difference given times the second one's component, not their slopes |
| `ContourLines.NotTheSlopes` | src/contours.cpp:640-655 | an example: two vectors of different slope that are added up, and two of equal slope that are not |
| `ContourLines.JoinedLeads` | src/contours.h:25-26 | lines of n and m segments whose vectors lead from start to end within n - 1 and m - 1 joins, each of less than 0.0005, make one that does within n + m - 1 |
| `ContourLines.FlippedBag` | src/contours.cpp:572-593 | a line walked backwards has the same vectors up to sign |
| `ContourLines.Sort` | src/contours.cpp:403 | the segments in some order of their keys: which one for equal keys is left open |
| `ContourLines.RearrangedBag` | src/contours.cpp:403 | any rearrangement of segments keeps their displacements |
| `ContourLines.ContourLevel.Chain` | src/contours.cpp:404-422 | the line takes up segments, each the first left that starts at its end, until none does; displacements are neither lost nor invented, and the line has one vector for each segment |
| `ContourLines.LostSame` | src/contours.cpp:404-425 | chaining and merging lose no vectors: lines have as many more segments than vectors as before |
| `ContourLines.ChainsWithin` | src/contours.cpp:424-430 | each line before condensing, and after, leads from start to end within fewer joins than it had vectors before condensing, plus the vectors that earlier lines had lost |
| `ContourLines.ContourLevel.TryJoin` | src/contours.cpp:456-513 | two lines are joined exactly if some end of one equals some end of the other, in the way of the first of the four cases that holds; the others stay, and the vectors of all lines, up to sign, are the same |
| `ContourLines.ContourLevel.Merge` | src/contours.cpp:435-518 | lines are joined pair by pair in the order of the source; none is joined if and only if no two lines meet on entry; the vectors of all lines, up to sign, and the number of segments they are made from stay the same, the count returned is the number of lines that disappeared, and each line still leads from start to end within fewer joins than its segments |
| `ContourLines.MergesIffMeet` | src/contours.cpp:435-518 | merging leaves as many lines as there were if and only if no two of them meet, and then leaves them as they are |
| `ContourLines.WhichStillMeet` | src/contours.cpp:435-518 | of the lines that remain two can meet only if the later one had been passed over when the earlier was last joined at its start; if no two were joined at their starts no two meet |
| `ContourLines.DifferentStartsMerge` | src/contours.cpp:435-518 | if no two lines start at the same point, after merging no two meet |
| `ContourLines.StillMeeting` | src/contours.cpp:456-475 | an example: of three lines two are joined at their starts and the joined one still meets the third |
| `ContourLines.ContourLevel.Consolidate` | src/contours.cpp:396-433 | in whatever order equal keys are sorted: before condensing the lines are those that chaining the sorted segments and merging them with the earlier lines gives, and hold exactly their displacements, up to sign; no two were merged if and only if none met, and which of them may still meet is as for merging; each line leads from start to end within 0.0005 for every vector but one that it had before condensing (and for every vector that earlier lines had lost); the count returned is the number of lines gained |

## Left out

- LZ4_decompress_fast and the other decoders that do not know the size of their input, and deprecated wrappers.
- usingDictCtx, usingDictCtxHc, attached dictionaries, LZ4_loadDict, LZ4_saveDict, LZ4_saveDictHC, ring buffers and
  LZ4_compress_HC_continue_destSize.
- Compiler and processor variants: 32-bit and big-endian branches, intrinsics for counting zero bits (the portable
  lookup is modelled), tables of addresses, unaligned access, alignment checks, allocation, debug output.
- Blocks with an offset of zero: the format forbids them and the copy paths treat them differently, so that decoding
  them is only shown to stay in bounds.
- Addresses are positive where the code takes address 0 for NULL; reusing memory is not modelled, all inputs of a
  stream stay unchanged.
- Both 32-bit and 16-bit hash cells live in one table of 8192 numbers, of which 32-bit use takes the first 4096;
  `Lz4FastTable.StoredIndexFits` shows that no store would be truncated. A context filled by destSize is not reused.
- Lz4Decoder.Decompress: partial decoding is modelled without dictionaries, as the library instantiates it; nothing is
  said about the value of a negative result but its range, nor about what follows an offset of zero.
- Lz4Stream.Stream.CompressFastContinue: a block may not start inside its own dictionary, or exactly at the start of a
  non-empty one that does not end there; the test `lowLimit==dictionary` would take the block for the dictionary. The
  block has at most LZ4_MAX_INPUT_SIZE bytes, and a 16-bit table left by a one-shot call must have been reset.
- Lz4Stream.Stream.CompressFastExtState: accelerations with which the search counter could leave the range of an int
  on an input of that size, which is undefined in C.
- Lz4Stream.Stream.CompressFastReset: the same accelerations.
- Lz4StreamDecode.RoundTripOneShot: the same accelerations.
- Lz4StreamDecode.StreamDecoder.DecompressSafeContinue: the output may not overlap the stretch used as dictionary.
- Lz4StreamRun.Run: every destination has room for its block, blocks do not start inside earlier inputs and are
  decoded apart from earlier outputs; nothing is said about decoding after an error.
- Lz4HcRun.HcRun: as for `Lz4StreamRun.Run`, and at levels that swap chains three more bytes are readable behind every
  block, because the search may read them once the block has become a dictionary.
- Lz4HcOptimal.FindLongerMatch: at levels that swap chains the same three bytes behind a dictionary are readable.
- Lz4HcStream.HcStream.CompressContinue: the same.
- Lz4HcSearch.SwapChain: positions are sampled at growing steps, so nothing is claimed about links it skips.
- Lz4HcSearch.InsertAndGetWiderMatch: pattern analysis and chain swapping leave out candidates on purpose, so that with
  them only the newest is claimed to be beaten, and with favoured decompression speed, where candidates less than eight
  bytes away are not looked at, none; the last three bytes of a dictionary are in no chain.
- Lz4HcOptimal.Fill: prices are not claimed to be those of the best path, or of the whole path; cells of literals keep
  a price computed when they were set, while cells before them may still change.
- Lz4HcOptimal.CompressOptimal: the table on the stack starts with arbitrary cells in C, with zeros in the model.
- Lz4HcStream.HcStream.InitStream: `base == NULL` is a flag, since addresses count from 0.
- ContourLines.Sort: std::sort is a sort by insertion here; its callers know only that the result is ordered and
  rearranges the segments.
- ContourMap.Contouring.constructor: a single level divides by zero and is excluded.
- Rounding of doubles, dump(), the stand-alone program, and everything else in the repository.
