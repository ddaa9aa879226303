# Verified model of a radio base station: lossless images, request engine, node protocol

The base station collects values from small radio nodes, drives them with requests, and serves camera
pictures as PNG files. This project models the parts of it that are hard to get right and proves what they
promise:

- the PNG pipeline of `lodepng.c` in both directions: bit streams, canonical Huffman codes and their decoding
  table, package-merge code lengths, LZ77 over hash chains, run-length coded code lengths, DEFLATE and zlib,
  Adler-32, scanline filters, padding, Adam7, and the automatic choice of a colour mode;
- the request and retry engine of the base station, with the delta-encoded timer queue and the doubly linked
  list under it, and the hashed dictionary;
- the sleep protocol of a node under arbitrary interrupts, the XTEA ciphering of messages, the configuration
  parser and its printer, and the buffering of SHA-1 and MD5.

Where encoder and decoder share a table or a bit order, being inverse to each other says nothing about it. So the
tables of DEFLATE are compared with their formulas, the rounds of XTEA and the sums of Adler-32 with known values,
and streams, images and texts of a few bytes are decoded to their known content.

Code that changes things step by step is modelled by methods over arrays and classes with the same loops,
branches and error numbers; each is proved against a function of the old state, and the theorems are about
those functions. A decoder takes the structure that it is expected to find (tokens, trees, blocks) as a ghost
argument: its contract says what it returns for every input in which that structure stands.

`dafny verify dfyconfig.toml` checks everything.

| file | source | content |
|---|---|---|
| Bits, BitStream | lodepng.c | numbers as bits, the bit pointers of encoder and decoder |
| Canonical, Huffman | lodepng.c | canonical codes, the decoding table |
| CoinRows, Optimal, PackageMerge | lodepng.c | length-limited code lengths, complete and optimal |
| Tokens, Lz77, CodeLengths, Format | lodepng.c | tokens, the encoder's search, run lengths, the bits of a stream |
| Deflate, Inflate, Zlib | lodepng.c | encoder, decoder, checksum |
| KnownStream | lodepng.c | a dynamic block, byte by byte |
| Buffers, PngFilter, PngBits, Adam7, Interlace, Scanlines | lodepng.c | filters, padding, interlacing, in place |
| ColorTree, BitGroups, ColourChoice, Png | lodepng.c | colour choice and conversion, the whole chain |
| LinkedList, Timer, Dict | bano_list.c, bano_timer.c, bano_dict.c, bano_nodl.c | lists, timers and dictionaries of the base station |
| Requests, Machine, Engine, Scenarios | bano_base.c | the request engine: its objects, the machine that it is proved to be, its methods, two complete runs |
| NodeSleep | bano_node.c | the wait loop of a node |
| Cipher, Parser, Digest | bano_cipher.c, bano_parser.c, mongoose.c | messages, configuration, digests |

## Model

| member | source | states |
|---|---|---|
| Canonical.PrefixFree | src/base/third/lodepng/lodepng.c:587-624 | of two present symbols neither code starts with the other, for all lengths with Kraft sum at most one |
| Canonical.ExampleCodes | src/base/third/lodepng/lodepng.c:587-624 | the codes of the lengths 3, 3, 3, 3, 3, 2, 4, 4 are those listed in section 3.2.2 of RFC 1951 |
| Canonical.FewInternalNodes | src/base/third/lodepng/lodepng.c:523-580 | a complete code over n symbols has at most n - 1 inner nodes, so the decoding table has room for them all |
| Canonical.FlatRoomy | src/base/third/lodepng/lodepng.c:523-580 | so has an incomplete code of symbols of one bit, such as the one that RFC 1951 asks for a single distance |
| Huffman.HuffmanTree.MakeFromLengths2 | src/base/third/lodepng/lodepng.c:587-624 | codes whose low bits are the canonical ones although absent symbols are counted too, a finished table, and an error if and only if the code has no fewer inner nodes than symbols |
| Huffman.HuffmanTree.Make2DTree | src/base/third/lodepng/lodepng.c:523-580 | the table realises the code: every present symbol is reached along its bits; error 55 if and only if the inner nodes of the code are no fewer than its symbols |
| Huffman.HuffmanTree.DecodeSymbol | src/base/third/lodepng/lodepng.c:902-920 | if the code of a symbol stands at the bit pointer, that symbol is returned and the pointer moves by exactly its length |
| BitStream.BitWriter.AddBits | src/base/third/lodepng/lodepng.c:407-411 | appends the low bits of a value, lowest first, and changes no earlier bit |
| BitStream.ReadBits | src/base/third/lodepng/lodepng.c:431-440 | reads back the number whose bits stand at the pointer, and moves on by their count |
| CoinRows.Nested | src/base/third/lodepng/lodepng.c:783-811 | a symbol chosen inside a package is chosen on its own in the same row as well |
| CoinRows.ChosenComplete | src/base/third/lodepng/lodepng.c:814-822 | the lengths counted in the lightest n - 1 packages have Kraft sum one and are positive for exactly the symbols that occur |
| Optimal.FirstAreLightest | src/base/third/lodepng/lodepng.c:692-697 | the first coins of a sorted row weigh no more than any other selection of as many |
| Optimal.CheapRound | src/base/third/lodepng/lodepng.c:783-811 | one round keeps, against every rival code, that the coins it would have to buy weigh at least the first ones of the row |
| Optimal.BoughtAll | src/base/third/lodepng/lodepng.c:783-822 | every prefix-free code for n symbols has to buy at least n - 1 coins of the last row, whatever odd coins are dropped |
| PackageMerge.CodeLengths | src/base/third/lodepng/lodepng.c:714-831 | the lengths form a complete code, every occurring symbol has one, none exceeds the limit, and no prefix-free code within the limit needs fewer bits for these frequencies |
| Tokens.AddLengthDistance | src/base/third/lodepng/lodepng.c:1314-1328 | the four numbers appended stand for exactly this length and distance in the tables of RFC 1951 |
| Tokens.LengthTableIs | src/base/third/lodepng/lodepng.c:457-464 | the tables of lengths and their extra bits are those of RFC 1951, by formula: four codes for every number of extra bits, and 258 on its own |
| Tokens.DistanceTableIs | src/base/third/lodepng/lodepng.c:467-474 | the tables of distances: two codes for every number of extra bits |
| Lz77.EncodeLZ77 | src/base/third/lodepng/lodepng.c:1431-1596 | the tokens expand to the input from inpos on, every copy reaches back less than the window and is 3 to 258 bytes long, the hash table is left ready for the next block; errors 60 and 90 for bad windows |
| Lz77.FindMatch | src/base/third/lodepng/lodepng.c:1476-1530 | every match found is a real one, also where the run of zeros lets the comparison skip bytes |
| CodeLengths.CompressLengths | src/base/third/lodepng/lodepng.c:1774-1817 | the repeat codes 16, 17 and 18 stand for exactly the list of lengths, across the border of the two alphabets |
| Format.ClFields | src/base/third/lodepng/lodepng.c:478-479 | field i of the code length code belongs to symbol 16, 17, 18 or 0 for i < 4, then in turn to 8, 9, ... and 7, 6, ... |
| Deflate.TrimmedClLengths | src/base/third/lodepng/lodepng.c:1824-1845 | the lengths are listed in that order, at least four of them, and what is dropped is zero |
| Format.FixedCodes | src/base/third/lodepng/lodepng.c:863-879 | every code of the fixed literal alphabet, as section 3.2.6 of RFC 1951 lists them |
| Format.FixedDistanceCodes | src/base/third/lodepng/lodepng.c:882-899 | the fixed code of every distance symbol is its number in five bits |
| Inflate.ReadCodeLengths | src/base/third/lodepng/lodepng.c:987-1064 | reads run-length coded lengths back into the two arrays |
| Deflate.MakeFromFrequencies | src/base/third/lodepng/lodepng.c:834-849 | trailing symbols that do not occur are dropped, and the tree realises an optimal complete code |
| Deflate.WriteLZ77data | src/base/third/lodepng/lodepng.c:1642-1668 | the bits written are those of the tokens under the two codes |
| Deflate.CopyPlain | src/base/third/lodepng/lodepng.c:1730-1731 | without LZ77 every write of a block stays inside its vector if and only if the block starts at 0 or is empty |
| Deflate.OnlyFirstWithin | src/base/third/lodepng/lodepng.c:1973-1993 | of all blocks of an input exactly the first one meets that condition |
| Deflate.DeflateDynamic | src/base/third/lodepng/lodepng.c:1671-1914 | writes exactly the bits of one block that stands for the given part of the input |
| Deflate.DeflateNoCompression | src/base/third/lodepng/lodepng.c:1600-1636 | non-empty input becomes a stream of stored blocks that stands for it, empty input becomes nothing |
| Deflate.DeflateV | src/base/third/lodepng/lodepng.c:1964-2001 | behaviour is defined if and only if the stated condition on input and settings holds; then the error number is known and the output is a stream that stands for the input |
| Deflate.RoundTrip | src/base/third/lodepng/lodepng.c:1964-2001 | inflating what deflate wrote gives back the input with no error, for all block types, block counts and accepted settings; error 52 for nothing stored |
| Inflate.InflateNoCompression | src/base/third/lodepng/lodepng.c:1186-1214 | a stored block is copied out; errors 52, 21 and 23 exactly at their conditions |
| Inflate.InflateHuffmanBlock | src/base/third/lodepng/lodepng.c:1086-1184 | a fixed or dynamic block that stands at the pointer is decoded to what its tokens expand to, copies that overlap themselves included |
| Inflate.InflateV | src/base/third/lodepng/lodepng.c:1216-1248 | every DEFLATE stream whose codes fit into the decoding tables is decoded without error to its data, whatever follows it and whatever the buffer held; the one exception, with error 52, is a stream that ends with an empty stored block and has nothing behind it |
| Deflate.EmptyBlock | src/base/third/lodepng/lodepng.c:1194 | the shortest such stream |
| KnownStream.KnownIsStream | src/base/third/lodepng/lodepng.c:937-1064 | twenty bytes of a dynamic block stand for the text abcdab three times over, through code length order, repeat codes 16, 17 and 18, canonical codes, extra bits and a copy that overlaps itself |
| KnownStream.InflateKnown | src/base/third/lodepng/lodepng.c:1216-1248 | the decoder turns these twenty bytes into that text |
| Zlib.NoOverflow | src/base/third/lodepng/lodepng.c:2036-2058 | 5550 additions from reduced sums stay below 2^32 |
| Zlib.UpdateAdler32 | src/base/third/lodepng/lodepng.c:2036-2058 | the delayed reduction gives the sums of RFC 1950, which are reduced after every byte |
| Zlib.AdlerFormula | src/base/third/lodepng/lodepng.c:2036-2064 | the checksum of any data in one formula: 1 plus all bytes, and that sum over all beginnings, modulo 65521, the second one in the high half |
| Zlib.KnownChecksum | src/base/third/lodepng/lodepng.c:2036-2064 | 300 bytes of 255 have the checksum B90F2AE4 |
| Zlib.ZlibDecompress | src/base/third/lodepng/lodepng.c:2071-2112 | errors 53, 24, 25 and 26 exactly at their conditions on the header; behind a good header the data of the stream, with error 58 exactly where the last four bytes, most significant first, are not the checksum of the data and that is not to be ignored |
| Zlib.ZlibCompress | src/base/third/lodepng/lodepng.c:2133-2172 | header 78 01, a stream for the data, and the checksum in four bytes, most significant first |
| Zlib.UnzipKnown | src/base/third/lodepng/lodepng.c:319-342 | the bytes 78 01 01 01 00 fe ff 00 00 01 00 01 decompress to one zero byte |
| Zlib.RoundTrip | src/base/third/lodepng/lodepng.c:2133-2172 | decompressing what was compressed gives back the data; the error number for every setting |
| PngFilter.PaethPredictor | src/base/third/lodepng/lodepng.c:3883-3892 | picks the neighbour as the PNG definition does, ties included |
| PngFilter.PaethIsNearest | src/base/third/lodepng/lodepng.c:3883-3892 | the neighbour nearest to left plus above minus corner; of equally near ones left, then above |
| PngFilter.AverageRoundsDown | src/base/third/lodepng/lodepng.c:4044-4050 | twice the predicted byte is the sum of left and above, or one less |
| PngFilter.ImageInverse | src/base/third/lodepng/lodepng.c:4008-4111 | unfiltering a filtered image gives it back, for any filter types 0 to 4 per row |
| PngFilter.Filter | src/base/third/lodepng/lodepng.c:5231-5260 | the rows written are the filtered rows of the image, each behind its type: added to nothing, the left byte, the byte above, their average rounded down, or the nearest neighbour, each byte gives that of the image; the rest of the buffer is unchanged; behaviour is undefined if and only if the image has width 0 and a row of type 1, 3 or 4 |
| PngFilter.Unfilter | src/base/third/lodepng/lodepng.c:4082-4111 | the output is the unfiltered image also when input and output are one buffer, each byte the sum of the filtered one and the neighbours that its type names; error 36 if and only if a type is above 4; with width 0 behaviour is undefined if and only if a row of type 1, 3 or 4 is reached |
| PngFilter.TwoRows | src/base/third/lodepng/lodepng.c:4041-4054 | the rows 00 01 and 03 05 unfilter to the pixels 1 and 5 |
| PngBits.RemovePaddingBits | src/base/third/lodepng/lodepng.c:4174-4199 | drops the padding of every row, also in place: no bit is overwritten before it is read |
| PngBits.PaddingInverse | src/base/third/lodepng/lodepng.c:5451-5482 | removing what padding added gives back the rows |
| Adam7.PassPixel | src/base/third/lodepng/lodepng.c:3916-3942 | every place of a pass is a pixel of the image, of that pass only |
| Adam7.PixelCovered | src/base/third/lodepng/lodepng.c:3916-3942 | every pixel of the image is in the pass that the pattern tells |
| Adam7.StandardPattern | src/base/third/lodepng/lodepng.c:3896-3899 | the pass of every pixel, as the eight by eight table of the PNG standard |
| Adam7.PassSizes | src/base/third/lodepng/lodepng.c:3916-3942 | the seven passes together have w * h pixels |
| Adam7.StartsOrdered | src/base/third/lodepng/lodepng.c:3930-3941 | in all three tables a pass ends before the next one starts, and never lies behind its place in the table before |
| Adam7.Adam7GetPassValues | src/base/third/lodepng/lodepng.c:3916-3942 | sizes and starts are those of the counted pixels |
| Interlace.InterlacedOnce | src/base/third/lodepng/lodepng.c:4124-4172 | one buffer goes with only one image, so deinterlacing undoes interlacing |
| Interlace.InterlaceBits | src/base/third/lodepng/lodepng.c:5510-5530 | pixels smaller than a byte end up at the places of their passes |
| Interlace.DeinterlaceBits | src/base/third/lodepng/lodepng.c:4150-4171 | and come back from there into a zeroed image |
| Scanlines.PostProcessPlain | src/base/third/lodepng/lodepng.c:4204-4226 | unfiltering and dropping padding within the input buffer gives the pixels that the scanlines stand for |
| Scanlines.ReadPass | src/base/third/lodepng/lodepng.c:4227-4246 | the same for one Adam7 pass, with all passes in one buffer: the passes before and behind are not touched |
| Scanlines.PlainRoundTrip | src/base/third/lodepng/lodepng.c:5535-5626 | the pixels of an image come back from its scanlines |
| Scanlines.InterlacedRoundTrip | src/base/third/lodepng/lodepng.c:5535-5626 | the same with Adam7 |
| ColorTree.ColorTree.Get | src/base/third/lodepng/lodepng.c:2943-2953 | finds the index that was added last for a colour, or -1 |
| ColorTree.ColorTree.Add | src/base/third/lodepng/lodepng.c:2964-2979 | one colour gets the index, all others keep theirs |
| BitGroups.AddColorBits | src/base/third/lodepng/lodepng.c:2897-2905 | a group of bits is put behind those already in its byte |
| ColourChoice.SampleIs | src/base/third/lodepng/lodepng.c:2319-2335 | of the pixels in one byte the first has the highest bits |
| ColourChoice.GreyMeaning | src/base/third/lodepng/lodepng.c:3240-3246 | grey samples of 1, 2 and 4 bits mean 255, 85 and 17 times their number |
| ColourChoice.GetColorProfile | src/base/third/lodepng/lodepng.c:3553-3744 | whether all pixels are grey, the least grey depth, and the colours, each once in the order in which they come, or that they are more than 256; although the loop may stop early |
| ColourChoice.AutoChooseColor | src/base/third/lodepng/lodepng.c:3757-3853 | the mode: a palette if it is worth its overhead and needs fewer bits than grey, grey if all pixels are, RGB else, in the least bit depth that the settings allow; it holds every pixel exactly |
| ColourChoice.OneChoice | src/base/third/lodepng/lodepng.c:3806-3848 | these conditions leave exactly one mode |
| ColourChoice.ConvertFromRGB8 | src/base/third/lodepng/lodepng.c:3393-3462 | the buffer holds the pixels in the mode, or error 82 if and only if a colour is not in the palette |
| ColourChoice.AutoConvertRoundTrip | src/base/third/lodepng/lodepng.c:3757-3853 | converting to the chosen mode and back gives the image |
| Png.Encode | src/base/third/lodepng/lodepng.c:5661-5760 | the compressed stream stands for the filtered scanlines of the pixels in a lossless mode |
| Png.Decode | src/base/third/lodepng/lodepng.c:4562-4735 | the image data of any image in one of the modes, interlaced or not, becomes the colours that its samples mean; error 58 exactly for a wrong checksum, 46 or 47 exactly for an index beyond the palette, unless they are to be ignored |
| Png.RoundTrip | src/base/third/lodepng/lodepng.c:5661-5760 | every 8-bit RGB image comes back from the whole chain with no error |
| LinkedList.List.AddBefore | src/base/bano_list.c:105-120 | the forward chain gets the item at its place, which has no back link unless it is the head; the source follows a null pointer if and only if the item at that place has no back link |
| LinkedList.List.Del | src/base/bano_list.c:122-133 | an item with its back link disappears alone, one without takes all items before it along |
| LinkedList.LosesEarlierItems | src/base/bano_list.c:105-133 | inserting 2 between 1 and 3 and deleting it again leaves only 3 |
| Timer.InsertRefines | src/base/bano_timer.c:30-93 | insertion into the deltas is stable insertion into the sorted deadlines: no deadline moves, the new one comes behind equal ones |
| Timer.DeleteMoves | src/base/bano_timer.c:95-109 | deleting moves the later deadlines forward by exactly the deleted delta |
| Timer.DeleteHarmless | src/base/bano_timer.c:95-109 | so it moves none if and only if that delta is 0 or no timer is behind |
| Timer.UpdateShifts | src/base/bano_timer.c:124-132 | a new delta of the head moves all deadlines together |
| Timer.Queue.Add | src/base/bano_timer.c:30-93 | the linked queue holds the new timer at its place with the deltas of that insertion, unless the timer at that place has no back link, where the source follows a null pointer |
| Timer.Queue.Del | src/base/bano_timer.c:95-109 | the timer disappears, and with a missing back link all timers before it |
| Timer.LatestGoesLast | src/base/bano_timer.c:39-67 | a timer that is due no earlier than all others goes to the end, where no back link is missing |
| Timer.LosesDeadline | src/base/bano_timer.c:95-109 | a timer set between two others and deleted again takes the first one with it and lets the last one expire two seconds early |
| Timer.NullPointer | src/base/bano_list.c:105-120 | timers of 1000, 3000, 2000 and 1500 ms, set one after the other, make the source follow a null pointer |
| Engine.Base.AddTimer | src/base/bano_timer.c:30-93 | owner, delta and back link of every timer after an insertion; the item inserted before has its back link |
| Engine.Room | src/base/bano_timer.c:30-93 | however the engine adds and deletes its timers, and with any loop timer, a new one goes to the end or before a timer that has its back link |
| Engine.Base.DelTimer | src/base/bano_timer.c:95-109 | what is left after a deletion, with and without the back link |
| Engine.Base.SendFirst | src/base/bano_base.c:1817-1872 | the first posted IO is sent once more and becomes pending with a timer, at the end of the queue if the loop timer is no slower than 1700 ms, or is done |
| Engine.Base.WriteNode | src/base/bano_base.c:1874-1898 | everything that is posted for a node is sent once, in order |
| Engine.Base.FindPendingIo | src/base/bano_base.c:1103-1125 | the first pending IO that the message answers, and nothing else, is taken off the list |
| Engine.Base.HandleReply | src/base/bano_base.c:1173-1198 | the first pending IO that the message answers is completed once, with success and the value of the message or with a failure, and no other IO changes; which timers are left |
| Engine.Base.HandleSetMsg | src/base/bano_base.c:1127-1198 | the value of a SET message is kept under its key unless it reports an error or the key is not the node's; with the reply flag the first pending IO that it answers is done |
| Engine.Base.HandleMsg | src/base/bano_base.c:1237-1290 | what a message does to nodes, values, IOs and timers: a SET message is handled for the first node of its address, and an unknown address makes a node if that is allowed |
| Engine.Base.ExpireIo | src/base/bano_base.c:2016-2057 | an expired IO is posted again with one retry less, or completed with a timeout when none is left |
| Engine.HandleEvent | src/base/bano_base.c:1942-2080 | each event changes the state as the machine says, in every field of every IO, node and timer |
| Engine.Run | src/base/bano_base.c:1942-2080 | over any sequence of events the engine goes through the states of the machine, the invariant holds after each, and no IO's measure grows, if the loop timer is no slower than 1700 ms |
| Engine.Conserved | src/base/bano_base.c:1942-2080 | in every such state each IO is in exactly one of three places, completed at most once, sent at most once more than its retries, and owns a timer if and only if it is pending |
| Machine.WhyDone | src/base/bano_base.c:1103-1198 | in every run, an IO that asked for a reply and is done was pending when either a SET reply with its key came from its node, whose value and error its completion function was given, or its timer expired after it had been sent four times |
| Machine.DoneForGood | src/base/bano_base.c:1173-1198 | in every run, an IO that is done never changes again |
| Machine.AnsweredInTime | src/base/bano_base.c:1103-1198 | from every state of a run: a posted request whose node becomes writable and then answers is done, with the value and error of the message, sent and completed exactly once more, and the value is kept for its node |
| Scenarios.AskedRun | src/base/bano_base.c:1942-2080 | the whole engine from its start: a value that is asked for, and told by the node, completes the request with success and that value, and is kept under its key |
| Scenarios.SilentRun | src/base/bano_base.c:2016-2057 | a request that is never answered is sent four times, 1700 ms apart; it is given up with a timeout 1700 ms after the last time, and not before |
| Engine.LosesTimer | src/base/bano_base.c:1963-1972 | for every slower loop timer a run after which an IO is pending with no timer that would send it again or complete it |
| Dict.Dictionary.SetOrAdd | src/base/bano_dict.c:173-183 | the dictionary as a map gets the value; keys stay unique |
| Dict.Dictionary.Del | src/base/bano_dict.c:210-221 | the key goes and all others stay; -1 if and only if it is not there |
| Dict.VisitedOnce | src/base/bano_dict.c:197-208 | visiting all lists meets no key twice |
| Dict.FindKey | src/base/bano_nodl.c:32-48 | the scan of all lists finds what the hashed lookup finds, also with duplicate keys |
| NodeSleep.NeverSleepsThroughEvent | src/node/bano_node.c:397-489 | under any interleaving of interrupts, an event that the sleeping node waits for has an interrupt pending that wakes it |
| NodeSleep.EventReturned | src/node/bano_node.c:397-519 | in every run, once something has happened that the node waits for, the wait is over within seventeen steps of the node, whatever interrupts come in between, unless the timer only drives the polling |
| NodeSleep.NeverStuck | src/node/bano_node.c:397-519 | and until then there is always a step to make, if need be by an interrupt that wakes the node |
| NodeSleep.SleepsThroughEvent | src/node/bano_node.c:482-487 | if an interrupt could come between sei and sleep, a run in which the node sleeps through its timer |
| Cipher.BlockInverse | src/base/bano_cipher.c:10-49 | 32 rounds of decryption undo 32 rounds of encryption, for every key and block |
| Cipher.RoundWords | src/base/bano_cipher.c:18-23 | which word of the key each of the 64 half rounds takes, for every key |
| Cipher.KnownAnswer | src/base/bano_cipher.c:10-46 | under the key 00010203 04050607 08090a0b 0c0d0e0f the words 41424344 45464748 become 497df3d0 72612cb5, and back |
| Cipher.BanoCipher.Enc | src/base/bano_cipher.c:63-81 | 16 bytes are enciphered in place and nothing else changes; -1 for an unsupported algorithm |
| Cipher.SendReceive | src/base/bano_base.c:1823-1830 | the payload of a sent message as it arrives, and its first byte |
| Cipher.KeptExactly | src/base/bano_base.c:1237-1241 | every payload arrives as it was under every key if and only if the message is ciphered, or does not carry the cipher flag, or the algorithm is not XTEA |
| Cipher.ZerosChange | src/base/bano_cipher.c:29-46 | under the key of zeros XTEA deciphers sixteen zero bytes to something else |
| Parser.ParseBuf | src/base/bano_parser.c:472-492 | the structs of the grammar, a failure, the file to be included, or the unknown directive before which the loop stays for ever |
| Parser.SkipsToText | src/base/bano_parser.c:180-223 | what is skipped before a token is exactly white space and comments that end with their lines |
| Parser.CommentedText | src/base/bano_parser.c:472-492 | a text with two comments, one of them holding a brace, is the one struct that it should be |
| Parser.ParseRounds | src/base/bano_parser.c:472-492 | the state of the loop after any number of rounds |
| Parser.StuckStays | src/base/bano_parser.c:386-425 | before an unknown directive the state is the same after every further number of rounds |
| Parser.Ending | src/base/bano_parser.c:472-492 | the loop ends, and then within as many rounds as there are characters, if and only if it never stands before an unknown directive, which the grammar tells beforehand |
| Parser.NeverEnds | src/base/bano_parser.c:386-425 | on the text ".x" it never ends |
| Parser.RoundTrip | src/base/bano_parser.c:667-695 | parsing the printed form of any printable structs gives them back |
| Parser.PrintAndParse | src/base/bano_parser.c:667-695 | the same for the two programs |
| Digest.Sha1Ctx.Update | src/base/third/mongoose/mongoose.c:2445-2464 | after any update the context is that of the whole message, however it was cut into pieces; behaviour is defined if and only if the buffered bytes and the new piece are together shorter than 2^32 bytes |
| Digest.Sha1Final | src/base/third/mongoose/mongoose.c:2466-2486 | exactly the blocks of the message padded as in RFC 3174 have been compressed |
| Digest.PaddedSha1Is | src/base/third/mongoose/mongoose.c:2466-2486 | that padded message is the message, a one bit, zeros up to the next block and the number of bits modulo 2^64 as a big-endian number in the last eight bytes |
| Digest.Md5Ctx.Update | src/base/third/mongoose/mongoose.c:3508-3542 | the same for MD5, where every block passes through the buffer |
| Digest.Md5Final | src/base/third/mongoose/mongoose.c:3544-3572 | exactly the blocks of the message padded as in RFC 1321 have been compressed |
| Digest.PaddedMd5Is | src/base/third/mongoose/mongoose.c:3544-3572 | the same with a little-endian number |

## Findings

Inputs for which the code does not do what it is meant to do, each with the condition under which it does.

| what happens | source | proved by |
|---|---|---|
| An item inserted before another one gets no back link, and deleting it loses every item before it. It happens if and only if the item is not at the head when it is inserted and gets no link from a later deletion. | src/base/bano_list.c:105-133 | `LinkedList.List.Del`, `LinkedList.LosesEarlierItems` |
| With the timer queue on top, a deadline is lost and a later one comes early. | src/base/bano_timer.c:95-109 | `Timer.Queue.Del`, `Timer.LosesDeadline` |
| Inserting before an item that has no back link follows a null pointer: set timers of 1000, 3000, 2000 and 1500 ms. It happens if and only if the place of the new timer is that of a timer without its back link; adding and deleting its own timers the engine never gets there, whatever its loop timer. | src/base/bano_list.c:105-120 | `LinkedList.List.AddBefore`, `Timer.Queue.Add`, `Timer.NullPointer`, `Engine.Room` |
| In the engine a pending IO loses its timer, for every loop timer slower than 1700 ms: set the loop timer, send two requests to a node, and let the second one be answered first. The first IO stays pending with no timer left that would send it again or complete it; only a late answer still could. With a loop timer of at most 1700 ms it never happens; `main.c` asks for 1000 ms. | src/base/bano_base.c:1963-1972, src/base/main.c:352 | `Engine.LosesTimer` for every slower timer, `Engine.Run` for all others |
| Deleting a timer does not give its delta to the next one, so all later timers expire early by exactly that delta: no harm is done if and only if the delta is 0 or no timer is behind. | src/base/bano_timer.c:97-104 | `Timer.DeleteMoves`, `Timer.DeleteHarmless` |
| Block type 2 without LZ77 writes outside its vector in every block but the first, that is, for inputs longer than 65535 bytes and no others: with 65536 bytes the second block writes at index 65535 of a vector of length 1. | src/base/third/lodepng/lodepng.c:1730-1731 | `Deflate.CopyPlain`, `Deflate.OnlyFirstWithin`, `Deflate.DeflateV` |
| Block type 1 divides by zero for the empty input. | src/base/third/lodepng/lodepng.c:1974-1981 | `Deflate.DeflateV` |
| Block type 0 writes nothing at all for the empty input, which the decoder then rejects with error 52. | src/base/third/lodepng/lodepng.c:1605 | `Deflate.RoundTrip`, `Zlib.RoundTrip` |
| The decoder rejects, with error 52, a valid stream that ends with an empty stored block, such as 01 00 00 ff ff, if and only if nothing follows the stream. In a zlib container its checksum does. | src/base/third/lodepng/lodepng.c:1194 | `Inflate.InflateV`, `Deflate.EmptyBlock` |
| An unknown directive consumes no input, so the parser never ends on the text ".x". It ends, and then within as many rounds as there are characters, if and only if it never stands before a token that starts with a dot and is not `.include`. | src/base/bano_parser.c:386-425 | `Parser.Ending`, `Parser.StuckStays`, `Parser.NeverEnds` |
| A message in the clear that carries the cipher flag is deciphered on arrival, under XTEA and no other algorithm: all payloads arrive as they were if and only if the message is ciphered, or does not carry the flag, or the algorithm is not XTEA. The base builds no such message, since it sets the flags to 0 (bano_base.c:2113 and 2146); it has to come off the radio, or from a node handler that returns the bit (bano_node.c:548 and 560). | src/base/bano_base.c:1237-1241 | `Cipher.KeptExactly`, `Cipher.ZerosChange` |
| A piece of a message for SHA-1 that reaches 2^32 bytes together with the buffered ones is copied whole into a buffer of 64 bytes; shorter ones are not. | src/base/third/mongoose/mongoose.c:2445-2464 | `Digest.Sha1Ctx.Update` |
| Filter types 1, 3 and 4 write the first pixel of a row also where the image has width 0; types 0 and 2 write nothing. | src/base/third/lodepng/lodepng.c:4008-4080, src/base/third/lodepng/lodepng.c:5158-5220 | `PngFilter.Filter`, `PngFilter.Unfilter` |
| The sleep protocol needs that no interrupt comes between `sei` and `sleep`. | src/node/bano_node.c:482-487 | `NodeSleep.SleepsThroughEvent` |

## Left out

- Allocation failures, failing sockets, and the removal of a node whose socket fails.
- Calls back into the application: completion functions may not post or delete IOs while they run, and `set_fn`, `get_fn` and the timer function are not modelled.
- Wrap-around of sizes: buffers and images are smaller than 2^32 bytes or bits where the source counts in 32 bits.
- Floating point: the weights of package-merge are exact, where the source divides each frequency by their sum and rounds; the heuristics that score filter types are a parameter (any type 0 to 4 for every row).
- Reads past the end of the input, which the source does not guard everywhere (lodepng.c:1194 computes `inlength - 4` for shorter inputs), yield zero.
- Chunk walking, CRC, ancillary chunks and the palette chunk; the mode of the image is handed from encoder to decoder.
- Colour modes with an alpha channel or with 16 bits, colour keys, and the settings LAC_NO and LAC_ALPHA.
- Images of width 0 above the filters: interlacing, padding and the whole chain ask for a pixel.
- The check that the decompressed size is the expected one, which the source does not make.
- Inflate.InflateV: of input that is no such stream it promises an end and no more; the errors of stored blocks and of the zlib header are stated with the methods that report them.
- PackageMerge.CodeLengths: with a limit of 0 bits, or an alphabet of one symbol, the source writes outside of its array or exceeds the limit; both are left to the caller, as in the source.
- Dict.Dictionary: its buckets are sequences, where the source has linked lists; only `bano_list_add_tail` and deletions happen on them, so no back link is ever missing.
- The lists of posted and pending IOs are sequences for the same reason.
- The compression functions of SHA-1 and MD5, which are parameters.
- AES, which `bano_cipher.c` does not support: enciphering returns the error, and `post_io` then sends the message in the clear with the cipher flag set; deciphering leaves the message as it is.
- The file that `.include` opens: the parser ends with its path. Path handling and memory mapping.
- HTTP, HTML, camera, SMS, and the registers of the radio chip: a radio interrupt is a flag that the hardware sets.
