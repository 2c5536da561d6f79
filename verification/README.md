# Proofs about the battle export and load path

The replay viewer records battles in a database, derives views of it, and exports a battle as a tar
archive in an `.xz` stream; it loads the same format. This project models that path and proves what
its parts promise each other:

- **The LZMA decoder** (`RangeCoder`, `Lzma*.dfy`). One symbol is a walk through an automaton of bit
  decisions. A value-level `Run` says what a stream decodes to; the class `Decoder` keeps the fields of
  `CLzmaDec`, and each of its methods is tied to `Run`. The central results: the look-ahead finds what
  the decoder will find, a symbol never reads more than 20 bytes, any division of the input and of the
  output space gives the same bytes and the same state, and the circular buffer holds the history.
- **What an LZMA stream means** (`RangeEnc`, `LzmaNames`, `LzmaCoins`, `LzmaPackets`, `LzmaRoundTrip`, `LzmaCodec`,
  `LzmaFormat`). Packets are literals, matches with lengths 2..273 and distances from 1, and repeats; what
  they stand for is defined on the history alone. The encoder's tables and trees turn them into bits, its
  range coder with the delayed carry turns the bits into bytes, and the decoder makes of the bytes what the
  packets stand for. `LzmaFormat` spells the bits out in numbers.
- **LZMA2 framing** (`Lzma2Model`, `Lzma2Run`, `Lzma2Reset`, `Lzma2Witness`, `Lzma2Dec`, `Lzma2Enc`, `Lzma2Stream`,
  `Lzma2Layout`): the chunk state machine, its independence of splitting with the exact exception, the reset
  discipline, and the round trip from packets through the encoder's framing to the data.
- **The match finder** (`Match*.dfy`): the binary trees over suffixes, first as trees, then as the cyclic
  array `son`, then as the class `Bt4` with hash tables, a sliding window and renormalization. The tables are
  sound, and complete: no position passed is missing (`MatchComplete`), so that what is found can be said
  of the input alone (`MatchNearest`).
- **The branch filters and the delta filter** (`Bra86`, `Bra86Targets`, `BraRisc`, `BraThumb`, `BraIA64`, `Delta`):
  encoding puts the target of a call in the place of its distance, so that two calls to one target become
  the same bytes; and each direction undoes the other, with the exact condition where the source does not
  always do so.
- **The checks** (`Crc32`, `Crc64`, `Sha256`): table-driven CRCs at any alignment and byte order against the
  polynomial division, and the streaming SHA-256 against FIPS 180-4 and its example (`Sha256Example`).
- **The container** (`XzFormat`, `XzEnc`, `XzLayout`): what the writer puts out is read back after The .xz File Format.
- **The viewer's own state** (`BattleViews`, `Roster`, `Tar`, `TarLayout`): cached derived views, the roster brought from
  tick to tick, and the ustar archive written in C and read in JavaScript.

Methods follow the sources' loops and fields; the functions they are proved against are the
specification, and the lemmas about those functions state what the sources promise. Where a format fixes
numbers, lemmas give them as numbers.

## Model

| member | source | states |
|---|---|---|
| RangeCoder.Normalize | lzma-sdk/LzmaDec.c:20-24 | one shift always brings the range back to at least 2^24, and keeps the registers consistent |
| RangeCoder.Adapted | lzma-sdk/LzmaDec.c:27-28 | adaptation never takes a probability out of [31, 2017] |
| LzmaSymbolFacts.LookAheadAgrees | lzma-sdk/LzmaDec.c:660-850 | no symbol meets a probability twice, so decoding it without updating any gives the same symbol, the same shortage of input and the same input left |
| LzmaSymbolFacts.TwentyBytesSuffice | lzma-sdk/LzmaDec.c:942-967 | with 20 bytes ahead every symbol is decoded whatever the probabilities are |
| LzmaSymbolFacts.AtMostTwentyBytes | lzma-sdk/LzmaDec.h:48-51 | no symbol consumes more than 20 bytes, which makes bufLimit = src + inSize - 20 safe |
| LzmaSymbolFacts.StarvedReadsOn | lzma-sdk/LzmaDec.c:974-1012 | a symbol that ran short of input on a prefix reads beyond that prefix, so carried bytes are always used up |
| LzmaSymbolFacts.RankGrows | lzma-sdk/LzmaDec.c:218-585 | the probabilities met by one symbol are met in a strictly increasing order |
| LzmaModel.WalkEndsAs | lzma-sdk/LzmaDec.c:218-585 | every walk ends in a symbol of the class that its first bits announced |
| LzmaModel.FirstSymbol | lzma-sdk/LzmaDec.c:616-640 | the check of the first code is exact: a fresh stream starts with a repeated match if and only if it fails that check |
| LzmaModel.RepeatRepeats | lzma-sdk/LzmaDec.c:526-565 | a copied match repeats the byte at its distance, also where it overlaps itself |
| LzmaRun.RunSplit | lzma-sdk/LzmaDec.c:875-1060 | a run over two pieces of input, and up to a later output limit, is the first run continued: no division of either is observable |
| LzmaRun.RunExtends | lzma-sdk/LzmaDec.c:875-1060 | a run only appends to the history, never passes its limit, and leaves a suffix of its input |
| LzmaRun.PausedBelow | lzma-sdk/LzmaDec.c:1014-1020 | a run that pauses below its output limit cannot go on without more input, whatever limit it is given |
| LzmaRun.PieceOfRun | lzma-sdk/LzmaDec.c:1022-1060 | the runs to nearer limits, with LZMA_FINISH_ANY, put together are the whole run |
| LzmaDictionary.HoldsAppend | lzma-sdk/LzmaDec.c:303-335 | a byte written at dicPos extends the history and overwrites nothing that a distance can still reach |
| LzmaDictionary.CopyMatch | lzma-sdk/LzmaDec.c:526-565 | the overlapping fast copy and the wrapping copy both append exactly the bytes at distance rep0 |
| LzmaReader.ReadDistance | lzma-sdk/LzmaDec.c:444-517 | the unrolled distance decoding, with its three kinds of bits, ends where the walk of the automaton ends |
| LzmaLookAhead.PeekDistance | lzma-sdk/LzmaDec.c:804-847 | the look-ahead's own loops over the distance end where the automaton without adaptation ends |
| LzmaDec.Decoder.constructor | lzma-sdk/LzmaDec.c:1130-1160 | a new decoder is consistent, with an empty history and a buffer of the size that LzmaDec_Allocate computes |
| LzmaDec.Decoder.InitDicAndState | lzma-sdk/LzmaDec.c:853-866 | resets what was asked for, and nothing of the history unless the dictionary was |
| LzmaDec.Decoder.TryDummy | lzma-sdk/LzmaDec.c:660-850 | without writing anything, reports exactly the class of the next symbol, or that the input is too short for it |
| LzmaDec.Decoder.DecodeReal3 | lzma-sdk/LzmaDec.c:218-585 | the symbol loop is a part of the run: what it decoded and what is left make up the same run; a failure is a failure of the run |
| LzmaDec.Decoder.DecodeReal2 | lzma-sdk/LzmaDec.c:624-650 | the same across the moment when the dictionary fills up, where checkDicSize is set |
| LzmaDec.Decoder.WriteRem | lzma-sdk/LzmaDec.c:588-614 | copies the part of a match that an earlier limit cut off, and no more |
| LzmaDec.Decoder.DecodeToDic | lzma-sdk/LzmaDec.c:875-1019 | returns what the run over the carried bytes and src gives, with its status; the carry never overflows, SZ_ERROR_FAIL is never returned, and even on a data error bytes were only appended |
| LzmaDec.Decoder.DecodeToBuf | lzma-sdk/LzmaDec.c:1022-1060 | the same for a caller's buffer: the loop over the wrapping dictionary equals one run, and dest receives exactly the bytes appended |
| LzmaDec.Decoder.UpdateWithUncompressed | lzma-sdk/Lzma2Dec.c:163-170 | bytes that bypass the coder join the history, and the dictionary keeps holding it |
| RangeEnc.RangeEncoder.ShiftLow | lzma-sdk/LzmaEnc.c:572-602 | with the delayed byte and the run of 0xFF bytes, a shift multiplies the exact low end of the interval by 256: no carry is lost |
| RangeEnc.RangeEncoder.EncodeBit | lzma-sdk/LzmaEnc.c:611-650 | a bit narrows the interval to its share, and leaves the probability that the decoder will have |
| RangeEnc.RangeEncoder.FlushData | lzma-sdk/LzmaEnc.c:604-609 | what has been put out then is the low end of the interval, in as many bytes as there were shifts and five more |
| RangeEnc.ShiftFollows | lzma-sdk/LzmaEnc.c:611 | on every input inside the interval a shift of the encoder is a shift of the decoder, which has the byte for it |
| RangeEnc.NarrowFollows | lzma-sdk/LzmaEnc.c:613-650 | and the decoder finds the bit that was encoded |
| LzmaNames.PlacesDiffer | lzma-sdk/LzmaDec.c:103-167 | no two probabilities share a place in the one array of the decoder |
| LzmaCoins.LengthLeads | lzma-sdk/LzmaEnc.c:815-848 | the bits of a length lead through the three trees of the decoder to that length |
| LzmaCoins.DistanceLeads | lzma-sdk/LzmaEnc.c:2276-2340 | the bits of a distance, with its slot, its direct bits and its reverse tree, lead to that distance |
| LzmaPackets.LiteralOffset | lzma-sdk/LzmaEnc.c:1054-1055 | the encoder, which masks and shifts, and the decoder, which divides, choose the same table for a literal |
| LzmaRoundTrip.PacketLeads | lzma-sdk/LzmaEnc.c:2148-2345 | the bits of a packet lead the decoder to the symbol of the packet, a match of a length to that length less two |
| LzmaRoundTrip.AppliedMoves | lzma-sdk/LzmaDec.c:218-565 | what a symbol does to state, distances and history is what its packet means: a match of a length appends as many bytes, each equal to the one at the distance before it |
| LzmaRoundTrip.PacketsEnd | lzma-sdk/LzmaEnc.c:2095-2374 | whatever packets are chosen, the decoder makes of their bytes what the packets stand for, uses every byte, and ends with code 0 |
| LzmaRoundTrip.MarkedDecode | lzma-sdk/LzmaEnc.c:1846-1904 | with an end mark it stops there, below any limit and whatever follows |
| LzmaCodec.EncodePackets | lzma-sdk/LzmaEnc.c:2095-2374 | the loop over packets and their bits, through the range coder, writes these bytes |
| LzmaCodec.CodeAndDecode | lzma-sdk/LzmaDec.c:1022-1060 | a whole stream: DecodeToBuf of a new decoder puts into dest what the packets stand for, and reports the end as it is |
| LzmaFormat.LengthBits | lzma-sdk/LzmaEnc.c:815-848 | lengths 2..9, 10..17 and 18..273 take the prefixes 0, 10 and 11, then three, three or eight bits |
| LzmaFormat.DistanceBits | lzma-sdk/LzmaEnc.c:2276-2340 | a distance takes six bits for its slot, and behind them its lower bits in the order of the format |
| LzmaFormat.PacketPrefixes | lzma-sdk/LzmaEnc.c:2148-2260 | how each kind of packet begins, and the eight bits of a literal |
| LzmaFormat.StateTables | lzma-sdk/LzmaEnc.c:507-510 | what the decoder makes of the twelve states is what the tables of the encoder say, number by number |
| LzmaFormat.LiteralContext | lzma-sdk/LzmaEnc.c:1054-1055 | which probabilities code a literal: low bits of the position, high bits of the byte before, and after a match the byte at the last distance |
| LzmaFormat.CoderNumbers | lzma-sdk/LzmaDec.c:11-28 | eleven bits of probability, adaptation by a thirty-second, and a byte whenever the range is below 2^24 |
| Lzma2Reset.ResetDiscipline | lzma-sdk/Lzma2Dec.c:96-161 | in every run of a new decoder, wherever it is in an LZMA chunk, the control bytes read so far contain a dictionary reset, and new properties after the last dictionary reset by a copy chunk |
| Lzma2Reset.ReachesAccepted | lzma-sdk/Lzma2Dec.c:175-301 | the control bytes that a run has read by any state it comes through are an accepted sequence, and the level of the state is the one that they leave |
| Lzma2Reset.NextControl | lzma-sdk/Lzma2Dec.c:100-123 | between chunks the next control byte is refused, and ends the run, exactly when it makes the sequence unacceptable |
| Lzma2Run.ChunksSplit | lzma-sdk/Lzma2Dec.c:175-301 | decoding in two calls equals decoding in one if and only if the first call does not stop with a chunk that has produced all its output but not used its input |
| Lzma2Witness.OverfullHappens | lzma-sdk/Lzma2Dec.c:248-296 | that exception happens to a new decoder: twelve bytes of input and room for one byte |
| Lzma2Witness.SplitShows | lzma-sdk/Lzma2Dec.c:248-296 | after them, whatever the second call brings, it answers otherwise than a single call |
| Lzma2Dec.Lzma2Decoder.UpdateState | lzma-sdk/Lzma2Dec.c:96-161 | one byte of a chunk header takes the fields to the state that the chunk automaton gives, or to the error state exactly when that does |
| Lzma2Dec.Lzma2Decoder.DecodeToDic | lzma-sdk/Lzma2Dec.c:175-301 | returns what the chunk run gives on the carried bytes and src, for copy chunks and LZMA chunks alike |
| Lzma2Enc.CopiesRead | lzma-sdk/Lzma2Enc.c:163-195 | data written as copy chunks of at most 64 KB is decoded to itself, from any accepting state |
| Lzma2Enc.LzmaChunkRead | lzma-sdk/Lzma2Enc.c:197-225 | the control byte and the sizes of an LZMA chunk are accepted and give back the same sizes, and the chunk decodes to the data the block coder stood for |
| Lzma2Enc.EncodeDecode | lzma-sdk/Lzma2Enc.c:106-226 | any sequence of blocks and subblocks whose LZMA chunks are right is decoded to the data, up to the end mark, with nothing left over; Lzma2Stream.StreamDecodes shows that the chunks are right |
| Lzma2Enc.CopiesFaithful | lzma-sdk/Lzma2Enc.c:163-195 | data sent in copy chunks only needs no assumption about the block coder |
| Lzma2Enc.Writer.EncodeSubblock | lzma-sdk/Lzma2Enc.c:129-226 | writes exactly those bytes, updates the needInit flags and srcPos accordingly, reports a full buffer exactly when the chunk does not fit, and returns any other error of the block coder with nothing written |
| Lzma2Stream.ChoicesFaithful | lzma-sdk/Lzma2Enc.c:106-226 | LZMA chunks coded from packets are right, also where subblocks are copied in between and the coder goes back to where it was before |
| Lzma2Stream.StreamDecodes | lzma-sdk/Lzma2Enc.c:106-226 | whatever packets are chosen, and whichever subblocks are copied, the stream is accepted by a new decoder and decodes to the data, without an assumption about the block coder |
| Lzma2Stream.PropsRead | lzma-sdk/LzmaEnc.c:2701-2726 | the properties byte that is written gives back lc, lp and pb |
| Lzma2Layout.LzmaLayout | lzma-sdk/Lzma2Enc.c:197-225 | the bytes of an LZMA chunk: control byte with three kinds of reset, 21 bits of size, 16 bits of packed size, properties |
| Lzma2Layout.CopyLayout | lzma-sdk/Lzma2Enc.c:163-195 | the bytes of a copy chunk |
| Lzma2Layout.ControlsTaken | lzma-sdk/Lzma2Dec.c:100-123 | which control bytes are accepted at first, after a dictionary reset, and with the coder set up |
| Lzma2Layout.SizesRead | lzma-sdk/Lzma2Dec.c:17-30 | how five header bytes give the two sizes of a chunk, and when a properties byte follows |
| Lzma2Layout.ResetsOf | lzma-sdk/Lzma2Dec.c:17-30 | which control bytes reset the dictionary, and which the coder |
| MatchTree.InsertOrdered | lzma-sdk/LzFind.c:413-466 | the two parts that re-rooting leaves are search trees over places of the old tree, with children older than parents |
| MatchTree.RootedOrdered | lzma-sdk/LzFind.c:413-466 | with the new position as root they form a search tree again |
| MatchTree.InsertGenuine | lzma-sdk/LzFind.c:431-449 | every match reported is a true one, as long as it can be, and lengths and distances strictly increase |
| MatchTree.InsertLongest | lzma-sdk/LzFind.c:413-466 | unless cutValue ends the walk, no live node of the tree has more bytes in common than the last match, up to lenLimit |
| MatchTree.InsertCovers | lzma-sdk/LzFind.c:413-466 | nor is any node nearer than every match at least as long: the matches reported leave out nothing that is longer or nearer |
| MatchTree.InsertKeeps | lzma-sdk/LzFind.c:413-466 | and no place is lost but one that the new position stands for, having the same bytes up to lenLimit |
| MatchTree.GivenUpDeep | lzma-sdk/LzFind.c:420-427 | cutValue ends only walks down trees with more places than that |
| MatchTree.OrderedShorter | lzma-sdk/LzFind.c:271-298 | a smaller lenLimit near the end of the input keeps the trees ordered, though no longer strictly |
| MatchWalk.WalkInserts | lzma-sdk/LzFind.c:413-466 | threading the array through ptr0 and ptr1 builds just the two trees of the value-level insertion, and touches only cells of the old tree and of the new position |
| MatchWalk.RootInserted | lzma-sdk/LzFind.c:413-466 | afterwards the array holds, at the new position, that position over the two trees |
| MatchSearch.BetweenCommon | lzma-sdk/LzFind.c:431-437 | the bytes that both neighbours share with the current position need not be compared again |
| MatchSearch.GetMatchesSpec1 | lzma-sdk/LzFind.c:413-466 | leaves the array of the value-level walk and reports the matches of the value-level insertion |
| MatchSearch.SkipMatchesSpec | lzma-sdk/LzFind.c:468-516 | leaves the same array as GetMatchesSpec1 |
| MatchHash.Hash2Genuine | lzma-sdk/LzHash.h:22-27 | equal 2-byte hash and equal first byte force the second byte to be equal |
| MatchHash.Hash3Genuine | lzma-sdk/LzHash.h:22-27 | equal 3-byte hash and equal first byte force the next two bytes to be equal |
| MatchHash.HashesAre | lzma-sdk/LzHash.h:22-27 | the three hash values in numbers |
| MatchTables.TablesEnter | lzma-sdk/LzFind.c:610-663 | entering a position in the three tables and in its tree keeps every other tree, and the window may then move on by one position |
| MatchTables.TreeMovesOn | lzma-sdk/LzFind.c:518-521 | when the window moves on, a tree loses exactly the place that leaves the window |
| MatchTables.TablesShift | lzma-sdk/LzFind.c:98-104 | moving the bytes of the window to the front of the block keeps all tables |
| MatchTables.TablesMore | lzma-sdk/LzFind.c:58-96 | so does reading more bytes behind the window |
| MatchTables.TreeNormal | lzma-sdk/LzFind.c:345-369 | renormalization cannot be seen in a tree: references in the window keep their distance, all others stay outside |
| MatchTables.TablesNormal | lzma-sdk/LzFind.c:345-369 | so it keeps all tables, over the same places |
| MatchComplete.CompleteEnter | lzma-sdk/LzFind.c:610-663 | entering a position leaves no position of the window out of the tables: at its three hash values there is nothing older than it, and unless a walk was given up it, or a later place with the same bytes, is in its tree |
| MatchComplete.CompletePass | lzma-sdk/LzFind.c:527-533 | nor does passing one of the last three bytes |
| MatchComplete.CompleteMore | lzma-sdk/LzFind.c:58-96 | reading more leaves none out if it is read before the last three bytes are passed |
| MatchComplete.CompleteShift | lzma-sdk/LzFind.c:98-104 | moving the block leaves none out |
| MatchComplete.CompleteNormal | lzma-sdk/LzFind.c:345-369 | renormalization leaves none out |
| MatchNearest.FoundByBoth | lzma-sdk/LzFind.c:610-663 | what follows from complete tables for the matches of one position, said of the text alone |
| MatchNearest.TreeReached | lzma-sdk/LzFind.c:413-466 | if no walk was given up, every place of the window with at least four bytes in common has a match at least as long and no further back |
| MatchNearest.NeverGivenUp | lzma-sdk/LzFind.c:420-427 | with cutValue not below the history size no walk is ever given up |
| MatchFinder.ShortMatches | lzma-sdk/LzFind.c:630-657 | the matches of the 2-byte and 3-byte hashes: which of them are reported, that they are true, and that the last one goes as far as it can |
| MatchFinder.Normalize3 | lzma-sdk/LzFind.c:350-362 | rewrites every reference of an array in place |
| MatchFinder.Bt4.Normalize | lzma-sdk/LzFind.c:345-369 | renormalization keeps the match finder consistent and makes room below the largest position |
| MatchFinder.Bt4.MoveBlock | lzma-sdk/LzFind.c:98-104 | after the move the buffer is still a slice of the input, and the tables describe it |
| MatchFinder.Bt4.ReadBlock | lzma-sdk/LzFind.c:58-96 | for any sizes that the stream delivers, reads on until there is enough or the input ends, and takes the end for reached only when nothing is left |
| MatchFinder.Bt4.SetLimits | lzma-sdk/LzFind.c:271-298 | establishes that until posLimit neither the window, nor the look-ahead, nor the position counter runs over |
| MatchFinder.Bt4.CheckLimits | lzma-sdk/LzFind.c:371-380 | renormalizing, moving, reading and wrapping together keep the match finder consistent and change no position in the input |
| MatchFinder.Bt4.Init | lzma-sdk/LzFind.c:301-342 | starts consistent on any input, with as much look-ahead as the input has |
| MatchFinder.Bt4.Enter | lzma-sdk/LzFind.c:933-949 | one step of Skip leaves the hash tables and the array that Find leaves |
| MatchFinder.Bt4.Find | lzma-sdk/LzFind.c:610-663 | the same tables, true matches of increasing length in the window, and none in the tree longer unless cutValue ended the walk; and of the positions before, all that GetMatches states |
| MatchFinder.Bt4.GetMatches | lzma-sdk/LzFind.c:610-663 | at every position of any input, and said of the input: the last position with the same 3-byte hash, if its first byte is the same, is reported with all that it has in common; so is the last one with the same 2-byte hash, or with two bytes if the other one is reported too; for the last one with the same 4-byte hash there is a match at least as long and no further back; and if no walk was given up, for every position of the window with four bytes in common. All matches are true, of increasing length, and the next position is ready |
| MatchFinder.Bt4.Skip | lzma-sdk/LzFind.c:933-949 | passes num positions, and leaves none of them out of the tables |
| Bra86.AddressBack | lzma-sdk/Bra86.c:40-75 | the address rewrite with its correction step is undone by the other direction, and the guarded byte never looks like a sign byte |
| Bra86.SignBytesStay | lzma-sdk/Bra86.c:10-82 | a byte that the mask automaton still watches keeps looking, or not looking, like a sign byte |
| Bra86.RunBack | lzma-sdk/Bra86.c:10-82 | for any buffer, ip and state, the two directions undo each other, visit the same positions and end with the same state |
| Bra86.RunPieces | lzma-sdk/Bra86.c:10-82 | a buffer converted in pieces with the carried state is converted as a whole |
| Bra86.X86Convert | lzma-sdk/Bra86.c:10-82 | the in-place loop does this conversion |
| Bra86Targets.ConvertsMeans | lzma-sdk/Bra86.c:40-75 | encoding adds the address behind the call to its displacement, modulo 2^25, and decoding subtracts it, wherever nothing is marked before the call |
| Bra86Targets.SameTarget | lzma-sdk/Bra86.c:40-75 | so two calls to the same target are encoded as the same four bytes |
| Bra86Targets.FirstCall | lzma-sdk/Bra86.c:16-40 | the first E8 or E9 of a buffer is converted if its last byte is a sign, and nothing before it changes |
| Bra86Targets.MoveTable | lzma-sdk/Bra86.c:16-82 | which of the masks let a call through, and how the mask moves on, number by number |
| BraRisc.TargetBack | lzma-sdk/Bra.c:9-61 | an instruction is restored if and only if its address is a multiple of four |
| BraRisc.FilteredBack | lzma-sdk/Bra.c:9-230 | ARM, PPC and SPARC: converting back restores a buffer if and only if ip is a multiple of four or the buffer has no branch |
| BraRisc.Convert | lzma-sdk/Bra.c:151-230 | the in-place loops do this conversion and report the length |
| BraRisc.ArmMeans | lzma-sdk/Bra.c:26-61 | ARM: in a BL the number of words to the target becomes the target, 24 bits, and nothing else changes |
| BraRisc.PpcMeans | lzma-sdk/Bra.c:151-182 | PPC: in a bl the distance becomes the target, 26 bits |
| BraRisc.SparcMeans | lzma-sdk/Bra.c:185-230 | SPARC: in a call with a 22-bit sign the number of words becomes that of the target |
| BraThumb.FilteredBack | lzma-sdk/Bra.c:64-148 | Thumb: for any code and any ip, and the scan goes equally far both ways |
| BraThumb.ARMTConvert | lzma-sdk/Bra.c:64-148 | the in-place loop does this conversion and reports how far it went |
| BraThumb.CallMeans | lzma-sdk/Bra.c:64-148 | in a BL pair the number of half-words to the target becomes the target, 22 bits in two half-words |
| BraIA64.WindowBack | lzma-sdk/BraIA64.c:22-46 | one instruction of a bundle is restored if and only if it is no call or the address is a multiple of 16 |
| BraIA64.FirstIs | lzma-sdk/BraIA64.c:17 | the template constant says which instructions of a bundle are looked at |
| BraIA64.FilteredBack | lzma-sdk/BraIA64.c:9-53 | converting back restores a buffer if and only if ip is a multiple of 16 or there is no call |
| BraIA64.IA64Convert | lzma-sdk/BraIA64.c:9-53 | the in-place loops over bundles and instructions do this conversion |
| BraIA64.CallMeans | lzma-sdk/BraIA64.c:22-46 | in a call the number of bundles to the target becomes the target, 21 bits, and nothing else changes |
| Delta.DecodedAnySplit | lzma-sdk/Delta.c:22-64 | decoding restores the data even if the two passes are cut into calls independently of each other |
| Delta.EncodedAt | lzma-sdk/Delta.c:22-43 | each byte becomes its difference to the byte that many places before it |
| Delta.Encode | lzma-sdk/Delta.c:22-43 | in place, with the rotated buffer carried in the state |
| Delta.Decode | lzma-sdk/Delta.c:45-64 | in place, with the rotated buffer carried in the state |
| Crc32.CrcAppend | lzma-sdk/7zCrc.c:35-38 | updates compose over concatenation |
| Crc32.ZeroSplit | lzma-sdk/7zCrc.c:45 | dividing out a byte needs a table of its low byte only |
| Crc32.GenerateTable | lzma-sdk/7zCrc.c:56-71 | the tables hold the effect of one to eight zero bytes |
| Crc32.CrcUpdateT1 | lzma-sdk/7zCrc.c:47-54 | equals the bitwise division |
| Crc32.CrcUpdateT4 | lzma-sdk/7zCrcOpt.c:12-29 | equals it four bytes at a time, for any length, address and start value |
| Crc32.CrcUpdateT8 | lzma-sdk/7zCrcOpt.c:31-55 | equals it eight bytes at a time |
| Crc32.CrcUpdateT1BeT4 | lzma-sdk/7zCrcOpt.c:66-85 | equals it with swapped tables on a big-endian machine |
| Crc32.CrcUpdateT1BeT8 | lzma-sdk/7zCrcOpt.c:87-113 | equals it with swapped tables, eight bytes at a time |
| Crc32.KnownAnswer | lzma-sdk/7zCrc.c:40-43 | the CRC32 of 123456789 is CBF43926 |
| Crc64.CrcAppend | lzma-sdk/XzCrc64.c:37-40 | updates compose over concatenation |
| Crc64.GenerateTable | lzma-sdk/XzCrc64.c:47-62 | the tables hold the effect of one to four zero bytes |
| Crc64.Crc64UpdateT4 | lzma-sdk/XzCrc64Opt.c:12-29 | equals the bitwise division for any length, address and start value |
| Crc64.Crc64UpdateT1BeT4 | lzma-sdk/XzCrc64Opt.c:48-67 | equals it with swapped tables on a big-endian machine |
| Crc64.KnownAnswer | lzma-sdk/XzCrc64.c:42-45 | the CRC64 of 123456789 is 995DC9BBDF1939FA |
| Sha256.MajIsMajority | lzma-sdk/Sha256.c:43 | the source's form of Maj is that of the standard |
| Sha256.RingNext | lzma-sdk/Sha256.c:39-40 | a ring of 16 words, updated in place, holds the words of the 64-word schedule |
| Sha256.ViewNext | lzma-sdk/Sha256.c:66-82 | renaming eight registers instead of moving them is a round of section 6.2.2 of FIPS 180-4 |
| Sha256.RunRounds | lzma-sdk/Sha256.c:145-152 | the loops over the ring and the registers compute the 64 rounds |
| Sha256.Hasher.WriteByteBlock | lzma-sdk/Sha256.c:112-171 | adds one block to the hash value |
| Sha256.Hasher.Update | lzma-sdk/Sha256.c:178-213 | after any sequence of updates state, count and buffer stand for the whole message |
| Sha256.Hasher.Final | lzma-sdk/Sha256.c:215-248 | returns the digest of the message, padded after section 5.1.1, and starts over |
| Sha256.LengthValue | lzma-sdk/Sha256.c:215-248 | the last eight bytes of the padding are the number of bits modulo 2^64, the highest byte first |
| Sha256Example.DigestOfAbc | lzma-sdk/Sha256.c:93-171 | the digest of abc is that of the example in FIPS 180-4, by way of its 64 words and 64 rounds |
| XzFormat.VarIntRead | lzma-sdk/Xz.c:14-25 | a number is read back after section 1.2 of The .xz File Format if and only if it has at most 63 bits |
| XzEnc.WriteVarInt | lzma-sdk/Xz.c:14-25 | the loop writes the encoding of the number and nothing else |
| XzEnc.CheckSizes | lzma-sdk/Xz.c:41-45 | the sizes of all 16 kinds of check are those that section 2.1.1.2 of the format lists |
| XzEnc.BlockHeaderRead | lzma-sdk/XzEnc.c:69-96 | a block header is read back with its sizes, its filters and its own length, except for a packed size of 0, which the format refuses |
| XzEnc.XzEncIndex.AddIndexRecord | lzma-sdk/XzEnc.c:174-191 | appends a record, and the grown buffer is always large enough |
| XzEnc.XzEncIndex.WriteFooter | lzma-sdk/XzEnc.c:194-224 | writes the index and the footer of the records added |
| XzEnc.IndexRead | lzma-sdk/XzEnc.c:194-214 | the index is read back after section 4, padding and CRC included |
| XzEnc.FooterRead | lzma-sdk/XzEnc.c:216-223 | flags and backward size are read back if and only if no reserved flag is set and the size of the index fits its 32 bits |
| XzEnc.BlocksCut | lzma-sdk/XzEnc.c:857-901 | the padded sizes of the records add up to the bytes of the blocks, and cut them apart |
| XzEnc.BlockRead | lzma-sdk/XzEnc.c:857-901 | with its record a block is read back after section 3: header, packed bytes and check, with the padding between them |
| XzEnc.CompressBlock | lzma-sdk/XzEnc.c:785-901 | the sizes that are reported are those of the block, whether its header is written first or last |
| XzEnc.Encode | lzma-sdk/XzEnc.c:1246-1298 | puts header, blocks, index and footer together |
| XzEnc.StreamRead | lzma-sdk/XzEnc.c:1246-1298 | read from its end, the stream gives back flags, records and blocks with nothing left over |
| XzEnc.EncodedRead | lzma-sdk/XzEnc.c:1246-1298 | so for every chunk the unpacked size, the packed bytes and the check are recovered, from the record, the header of the block and the kind of check in the stream flags |
| XzLayout.HeaderLayout | lzma-sdk/XzEnc.c:56-66 | the twelve bytes of the stream header |
| XzLayout.FooterLayout | lzma-sdk/XzEnc.c:216-223 | the twelve bytes of the footer; the backward size is a quarter of the index with its CRC, less one |
| XzLayout.VarIntDigits | lzma-sdk/Xz.c:14-25 | seven bits in each byte, the lowest first, and no last byte of zero but the only one |
| XzLayout.SizedHeader | lzma-sdk/XzEnc.c:69-96 | the twelve bytes of a block header with both sizes and an LZMA2 filter |
| XzLayout.IndexLayout | lzma-sdk/XzEnc.c:194-214 | the bytes of the index: a zero byte, the number of records, the records, zero bytes up to a multiple of four, and the CRC32 of all that |
| XzLayout.StreamLayout | lzma-sdk/XzEnc.c:1246-1298 | the order of header, blocks, index and footer, and of the parts of a block |
| BattleViews.Views.BcCompute | replay_export.c:604-621 | a cache slot that is marked valid holds the default derivation for its own battle, and the active battle is put back |
| BattleViews.Views.Prewarm | replay_export.c:649-671 | background work reports 1 exactly when the slot is current already, or is allowed to be filled and the calls of SQL succeed; and then it is current |
| BattleViews.Views.EnsureView | replay_export.c:1068-1098 | when a view is built, from what the calls of SQL do: with a key that does not match, exactly if all calls that are needed succeed; b then holds the active script's derivation from the present data for the active battle, and it is not rebuilt exactly when the key matches |
| BattleViews.Views.RunScript | replay_export.c:1103-1117 | an edited script always rebuilds, and it is reported as there exactly if that succeeds |
| BattleViews.Views.ResetScript | replay_export.c:1121-1128 | going back to the built-in script always rebuilds too, with the same condition, and b is then its derivation |
| BattleViews.Views.Revert | sql_terminal.c:188-204 | a roll-back of main, b and the slots behind the counter's back leaves no slot and no view marked as current |
| BattleViews.Views.RowChanged | replay_worker.c:1633-1665 | a row write makes everything derived before it stale |
| Roster.BetweenSplits | replay_worker.c:708-733 | with event ids in the order of ticks, the events of two adjoining ranges follow each other |
| Roster.BetweenPicks | replay_worker.c:679-706 | the events of a range are all events with such ticks, each as often as it occurs, in their order |
| Roster.SpawnFills | replay_worker.c:688-696 | a spawn fills the slot of its agent and changes nothing else |
| Roster.KillLeaves | replay_worker.c:697-703 | a kill leaves a corpse of the team of the one who died, and the roster as it is |
| Roster.AtIs | replay_worker.c:713-733 | the events of a battle count from the tick before its first one |
| Roster.OrderMatters | replay_worker.c:1729-1738 | without that order two steps can leave another roster than one step: of two spawns of an agent a different one stays |
| Roster.AtLater | replay_worker.c:708-733 | going on inside a battle adds just the events in between |
| Roster.Cursor.ApplyDelta | replay_worker.c:679-706 | one pass over the rows is the fold of their events |
| Roster.Cursor.ResyncTo | replay_worker.c:713-733 | from whatever tick it comes, the roster and the corpses are the fold of all events of the target's battle up to the target |
| Roster.Cursor.Reverted | replay_worker.c:1489-1499 | after a roll-back of the events the roster counts as synced to no tick, so that the next resync starts from the rows as they are now |
| Roster.Cursor.AddCorpse | replay_worker.c:202-214 | appends a corpse, growing the array without losing one |
| Tar.OctalReadExactly | replay_export.c:1197-1204 | a number is read back from an octal field if and only if it has no more digits than the field |
| Tar.ChecksumReads | replay_export.c:1222-1228 | the checksum is the sum of the header with spaces in its place, and always fits six octal digits |
| TarLayout.HeaderLayout | replay_export.c:1210-1228 | all 512 bytes of a header, field by field |
| TarLayout.ArchiveLayout | replay_export.c:1230-1252 | header, data and zero bytes of each entry, and 1024 zero bytes at the end |
| TarLayout.NumberRead | main.js:7-11 | the number read from a field: white space, a plus sign, and octal digits; an empty field is 0 |
| Tar.TarBuilder.AddEntry | replay_export.c:1206-1245 | appends header, data and padding of an entry, or refuses a name of more than 100 bytes |
| Tar.ArchiveBlocks | replay_export.c:1247-1252 | an archive is a whole number of 512-byte blocks |
| Tar.ParseTar | main.js:12-31 | the reader's loop computes the entries of the value-level parse |
| Tar.TarBuilder.Build | replay_export.c:1380-1393 | adding the entries one after another and finishing makes the archive of them all, unless a name is too long |
| Tar.ArchiveRead | main.js:12-31 | what the C writer wrote, the JavaScript reader returns: names, sizes, magicOk and data |
| Tar.ArchiveReadExactly | main.js:12-31 | and it does so if and only if every size fits eleven octal digits |
| Tar.ExportAndLoad | replay_export.c:1380-1393 | what the reader finds in the bytes that the builder holds are the entries that were added |
| Tar.ExportRead | replay_export.c:1383-1387 | the three files of an exported battle are never refused, and are read back if and only if each is smaller than 8 GB |

## Where the sources and their comments differ

- `lzma-sdk/LzmaDec.h:48-51` and the comments beside it count at most 22 modelled bits in a symbol. A
  distance with a position slot below 14 can use 23; the bound of 20 bytes holds all the same, and is
  proved from the code.
- With LZMA2, splitting a decode into two calls is not always unobservable: a call that fills its output
  space before it has used up the input of an LZMA chunk asks for more input, and the next call then stops
  at once for want of room, where a single call would have gone on to the end of the chunk.
  `Lzma2Run.ChunksSplit` gives the exact condition, which a caller sees in what is returned, and
  `Lzma2Witness.SplitShows` an input of twelve bytes.
- The converters for ARM, PPC, SPARC and IA-64 undo themselves only for an aligned start address
  (`BraRisc.FilteredBack`, `BraIA64.FilteredBack`).

## Left out

- Loops that the sources unroll, and loops written twice for encoding and decoding, are written once;
  the first comparison of GetMatchesSpec1 before its inner loop is a turn of that loop.
- Locals of LzmaDec_DecodeReal_3 (range, code, buf and the distances) are kept in the fields of the class.
- `& lpMask` is a difference of remainders, `|` of disjoint bits is a sum, and XOR is complement arithmetic in
  Bra86, BraRisc and BraIA64; masks of the form 2^n - 1 are remainders in MatchHash.
- LzmaDec.Decoder.DecodeToDic: on a data error the bytes written before the error are shown to be appended to
  the history, but not which bytes they are.
- Lzma2Enc.EncodeDecode: takes what the block coder of `lzma-sdk/LzmaEnc.c` puts out for right; Lzma2Stream.StreamDecodes
  proves it right for coded packets.
- LzmaCodec.EncodePackets: the packets are given: GetOptimum, prices and the fast mode choose them in the source,
  from the matches of the match finder. The 64 KB buffer of the range encoder is a sequence, and its stream takes
  all bytes.
- Lzma2Enc.Writer.EncodeSubblock: the output stream takes all bytes that it is given; SZ_ERROR_WRITE is not modelled.
- Lzma2Dec_Parse, Lzma2Dec_DecodeToBuf and the extra mode of the decoder. Lzma2Enc_EncodeMt1 and the
  multithreaded branches of the encoders.
- MatchFinder.Bt4.GetMatches: direct input, read errors and the other kinds of match finder (Bt2, Bt3, Hc3, Hc4 and
  their skips) are not modelled; streamPos is not reduced modulo 2^32, of which only differences are used;
  the size of the main hash table is given, not computed from the history size.
- Bt4's distances are shown to increase within the tree, not from the short hashes to the tree.
- MatchFinder.Bt4.GetMatches: "the last position with the same three bytes is reported" is false of the source: a later
  position with the same 3-byte hash and another first byte hides it, which is why the statement is about the last
  position with the same hash value. With four bytes in common nothing is hidden.
- Sha256.Hasher.Update: the byte count is unbounded; the length that is padded is the one modulo 2^64.
- XzEnc.Encode: the CRC32 is any function with 32-bit results (Crc32 has the real one); the LZMA2 encoder's output
  is given; block sizes, preallocation and write errors are not modelled.
- BattleViews.Views.EnsureView: a script stands for its SHA-256 hash; SQL is a function of the script, the data and the
  battle; copying all tables of a slot is copying its content; the counter does not wrap; loading another file
  and the view r are left out; writes that no update hook reports count only as reverts; in the source attached is
  cleared only on failure, which nothing observes.
- BattleViews.Views.Prewarm: which slot is evicted is given.
- Roster.Cursor.ResyncTo: the target is below the largest 64-bit number, which the source uses as "never"; rows change
  only by a revert; coordinates are opaque, so rounding to float is not modelled; running out of memory, where
  the source drops a corpse, is not either.
- Tar.ParseTar: names stay bytes instead of decoded text, and a size with a minus sign counts as no number; after
  a size that is no number the source's loop ends as the model does.
- Tar.ArchiveRead: names are compared as bytes; TextDecoder is not modelled.
- Allocation failure, SQL text, the user interface and its workers, rendering and floating-point interpolation.
