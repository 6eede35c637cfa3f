# Verified models of cubeboot's computing core

This project models, in Dafny, the parts of the boot loader and of the patched menu that compute, and proves
what they are there for.  Each `.dfy` file is one module.

- **Inflating.**  `Canonical`, `Deflate`, `Decoder`, `Inverse` and `Streams` hold the theory: canonical prefix
  codes, the grammar of DEFLATE streams as RFC 1951 defines it, and a functional decoder proved to be its
  inverse.  Two inflaters refine it.  `TinfTree`, `FixedCodes` and `Tinf` are the one that unpacks the boot
  payload, which decodes from counts and a sorted table and never builds a tree.  `UpngTree`, `UpngSpec` and
  `Upng` are the one that unpacks the boot logo, which builds a tree in an array of nodes and walks it.
  `InflateBoth` puts the two together.  `Unfilter` is what upng does next: undoing the PNG line filters, in
  place or not, and squeezing out padding bits.
- **Arithmetic.**  `Arith64` is the software division and shifting of 64-bit words, with wrap-around explicit.
- **Protocols.**  `ArqModel`, `MutexModel` and the first part of `MessageQueue` are state machines, one step for
  each stretch with interrupts disabled, with an invariant proved for all runs.  `Arq`, `Mutex` and the class
  `MessageQueue.Ring` are the linked records and the ring that refine them.
- **Text.**  `FormatModel` and `Format` are the formatter `rpl_vsnprintf`; `IniModel` and `Ini` are the INI reader,
  which splits its text in place.
- **Smaller units.**  `Adler32` (checksum), `Texture` (tiled RGBA8 textures), `Scrambler` (the boot ROM stream
  cipher and the tool chain around it).
- **Laws.**  `DeflateLaws`, `UnfilterLaws`, `ArqLaws`, `MutexLaws`, `FormatLaws`, `IniLaws` and `ScramblerLaws` say in
  numbers, characters and addresses what the definitions shared by a specification and the code that refines it
  come to, so that neither can be wrong together with the other.
- `Bits` holds powers of two, bitwise or, and bit strings.

Code that changes things step by step is a method with loops or a class with mutable fields, proved against a
function or a step of a state machine; what the code promises is proved about those.  A C pointer into a buffer
is an index, and fields that the C lacks are ghost.

Where the code does not do what one would expect of it, the code is modelled as it is, a lemma gives an input,
and another says exactly when the expected property holds:

- upng rejects a valid stream whose output exactly fills the buffer, unless a literal comes last
  (`UpngSpec.StreamExact`, `InflateBoth.ExactFitRejected`).
- The buffer upng allocates for the stored lines of an image can be too small for narrow images with pixels
  below eight bits (`Unfilter.InflatedSizeEnough`, `Unfilter.InflatedSizeShort`).
- The formatter leaves a field short when the `'` flag and a precision are combined (`FormatModel.IntLength`,
  `FormatModel.ShortField`).
- The formatter prints only the low 32 bits of the magnitude of a 64-bit argument (`FormatLaws.WideArgument`), and
  with `#` and `'` together an octal number can lose its leading zero (`FormatLaws.OctalZero`).
- In the INI reader a value without a name, as in `=v`, makes names and values change places for the rest of
  the file (`IniModel.LookupAgrees`, `IniModel.NamelessHides`).

## Model

| member | source | states |
|---|---|---|
| Canonical.KraftIsFirst | entry/source/tinf/tinflate.c:133-147 | the code value the source accumulates length by length is the Kraft sum of all shorter codes, scaled to that length |
| Canonical.KraftFits | entry/source/tinf/tinflate.c:137-143 | a Kraft sum of at most one is the same as every length having room for its codes, which is what the length-by-length check tests |
| Canonical.UsableFits | entry/source/tinf/tinflate.c:149-156 | the codes tinf accepts, complete ones or a single code of length one, all fit their lengths |
| Canonical.PrefixFree | entry/source/tinf/tinflate.c:227-261 | two symbols whose codes both begin at one bit are the same symbol, for every length assignment that fits |
| Canonical.CompleteCovers | entry/source/tinf/tinflate.c:227-261 | with a complete code some symbol's code begins at every bit position that has 15 more bits |
| Canonical.DecodeSymbolIs | entry/source/tinf/tinflate.c:227-261 | decoding is determined by the code that stands in the bits: the symbol, and the bit after its code |
| Inverse.TokensSound | entry/source/tinf/tinflate.c:391-481 | whatever token sequence the functional decoder reads is a valid one, its encoding is exactly the bits consumed, and the bytes returned are those it stands for |
| Inverse.TokensComplete | entry/source/tinf/tinflate.c:391-481 | the encoding of every valid token sequence decodes to the bytes it stands for and to the bit after it |
| Inverse.OpsSound | entry/source/tinf/tinflate.c:325-366 | run-length coded code lengths: what is read is valid, and its encoding is what was consumed |
| Inverse.OpsComplete | entry/source/tinf/tinflate.c:325-366 | run-length coded code lengths: every valid encoding is read back |
| Streams.TreesSound | entry/source/tinf/tinflate.c:264-386 | a dynamic header that is read is a valid header, encoded by exactly the bits consumed |
| Streams.TreesComplete | entry/source/tinf/tinflate.c:264-386 | every valid dynamic header reads back to its two length tables |
| Streams.StoredSound | entry/source/tinf/tinflate.c:484-523 | a stored block that is read has its length, the complement of it, and its bytes at the next byte boundary |
| Streams.StoredComplete | entry/source/tinf/tinflate.c:484-523 | every stored block reads back, whatever its padding bits |
| Streams.StreamSound | entry/source/tinf/tinflate.c:558-617 | the functional decoder accepts only valid streams of sections 3.2.3 to 3.2.7 of RFC 1951, and returns what they stand for |
| Streams.StreamComplete | entry/source/tinf/tinflate.c:558-617 | the functional decoder accepts every valid stream, and stops at its last bit |
| Streams.StreamUnique | entry/source/tinf/tinflate.c:558-617 | two valid streams written in the same bits stand for the same bytes and end together |
| DeflateLaws.LengthTable | entry/source/tinf/tinflate.c:395-405 | the length symbols follow each other without gap or overlap, with one extra bit more every four, up to 258 |
| DeflateLaws.DistTable | entry/source/tinf/tinflate.c:408-418 | the distance symbols follow each other without gap or overlap, with one extra bit more every two, up to 32768 |
| DeflateLaws.EveryLength | entry/source/tinf/tinflate.c:451-452 | every length from 3 to 258 can be written, 258 by symbol 285 |
| DeflateLaws.OneLength | entry/source/tinf/tinflate.c:451-452 | symbols below 285 write each length in only one way |
| DeflateLaws.EveryDistance | entry/source/tinf/tinflate.c:462-463 | every distance from 1 to 32768 can be written |
| DeflateLaws.OneDistance | entry/source/tinf/tinflate.c:462-463 | each distance is written in only one way |
| DeflateLaws.ZeroRuns | entry/source/tinf/tinflate.c:342-351 | a run of zeros is written by exactly one instruction: symbol 17 for 3 to 10 of them, 18 for 11 to 138 |
| DeflateLaws.PreviousRuns | entry/source/tinf/tinflate.c:334-341 | symbol 16 repeats the last length 3 to 6 times, each number of times by one instruction |
| DeflateLaws.SendingOrder | entry/source/tinf/tinflate.c:270-273 | the order in which the code length code lengths are sent |
| DeflateLaws.HeaderFields | entry/source/tinf/tinflate.c:279-311 | where the fields of a dynamic header stand in the bits, and what they mean |
| DeflateLaws.ExampleCodes | entry/source/tinf/tinflate.c:130-163 | the codes of the example in section 3.2.2 of RFC 1951 |
| DeflateLaws.FixedCodes | entry/source/tinf/tinflate.c:68-108 | the fixed codes are those of the table in section 3.2.6 of RFC 1951 |
| DeflateLaws.MatchFields | entry/source/tinf/tinflate.c:448-463 | where the two codes of a match and their extra bits stand |
| DeflateLaws.StoredStream | entry/source/tinf/tinflate.c:484-523 | behind five given bytes, fewer than 65536 bytes of any kind are a stream that stands for them |
| TinfTree.IndexInjective | entry/source/tinf/tinflate.c:158-163 | symbols with codes have different places in the sorted symbol table |
| TinfTree.SingleIndex | entry/source/tinf/tinflate.c:165-172 | with a single code the table needs the extra slot that the source sets to an invalid symbol |
| TinfTree.Tree.Build | entry/source/tinf/tinflate.c:111-175 | succeeds exactly on the usable length arrays, and then the counts, the sorted symbols and the largest symbol are those of the canonical code; every array index stays in range |
| FixedCodes.BuildFixedLit | entry/source/tinf/tinflate.c:68-95 | the hand-filled literal table is the table of the fixed code of section 3.2.6 of RFC 1951 |
| FixedCodes.BuildFixedDist | entry/source/tinf/tinflate.c:97-107 | the hand-filled distance table is the table of the fixed distance code |
| Tinf.PutByte | entry/source/tinf/tinflate.c:185-187 | or-ing a byte above the bits held appends the next eight source bits |
| Tinf.Data.Refill | entry/source/tinf/tinflate.c:179-195 | the tag always holds the next unread bits of the source, at most 32 of them, and zeros past the end |
| Tinf.Data.GetBitsNoRefill | entry/source/tinf/tinflate.c:197-211 | the next bits of the source as a number, least significant first |
| Tinf.Data.GetBits | entry/source/tinf/tinflate.c:214-218 | successive calls return consecutive bits; between calls at most seven unread bits are held |
| Tinf.Data.OverflowMeansPastEnd | entry/source/tinf/tinflate.c:188-190 | the overflow flag is set exactly when a bit past the source end has been consumed |
| Tinf.Data.ReadSymbol | entry/source/tinf/tinflate.c:227-261 | on a built table it returns the symbol whose canonical code stands at the bit position, after exactly that code's length, and stops within 15 bits on any input; the two disabled asserts hold |
| Tinf.Data.ReadLengths | entry/source/tinf/tinflate.c:325-366 | the code lengths read are those of the functional decoder, with its errors |
| Tinf.Data.DecodeTrees | entry/source/tinf/tinflate.c:264-386 | the two tables built are those of the dynamic header at this position; an error exactly when there is no valid one |
| Tinf.Data.CopyMatch | entry/source/tinf/tinflate.c:473-478 | the forward copy appends the bytes a match stands for, overlap included |
| Tinf.Data.InflateBlockData | entry/source/tinf/tinflate.c:391-481 | one block: the output grows by what its tokens stand for; an error exactly when it is malformed or does not fit |
| Tinf.Data.InflateUncompressedBlock | entry/source/tinf/tinflate.c:484-523 | a stored block is taken from the next byte boundary, and the bit reader is left empty behind it |
| Tinf.Data.InflateFixedBlock | entry/source/tinf/tinflate.c:526-533 | a block with the fixed codes |
| Tinf.Data.InflateDynamicBlock | entry/source/tinf/tinflate.c:536-547 | a block with codes of its own |
| Tinf.Data.InflateBlocks | entry/source/tinf/tinflate.c:566-611 | the main loop terminates and writes what the blocks stand for |
| Tinf.Uncompress | entry/source/tinf/tinflate.c:558-617 | Ok exactly when the source begins with a valid stream whose bytes fit, and then exactly those bytes are written, from bits inside the source only; too small a buffer is reported as such; nothing is written past it |
| UpngTree.LabelsFit | patches/source/upng.c:258-271 | inner nodes of the tree of a complete code are never more than the columns there are, by counting |
| UpngTree.PlaceLeaf | patches/source/upng.c:264-267 | filling an empty slot with a symbol keeps the tree a faithful part of the code |
| UpngTree.PlaceNode | patches/source/upng.c:268-272 | filling an empty slot with a new node keeps the tree a faithful part of the code, and there is room for it |
| UpngTree.TrieSpells | patches/source/upng.c:255-283 | the finished tree spells every code of the length assignment |
| UpngTree.RawCodeIs | patches/source/upng.c:232-247 | unused symbols counted as codes of length zero only add a multiple of 2^bits to the raw code |
| UpngTree.CodeBit | patches/source/upng.c:257 | the bits taken from the raw code are the bits of the canonical code |
| UpngTree.HuffmanTree.CreateLengths | patches/source/upng.c:219-284 | for every complete length assignment it succeeds within its columns, and the tree spells the canonical code |
| Upng.Inflater.ReadBits | patches/source/upng.c:201-207 | the next bits of the input as a number, least significant first |
| Upng.Inflater.ReadSymbol | patches/source/upng.c:286-310 | walking a tree that spells a code returns the symbol whose code stands at the bit pointer, after exactly that code; it ends on every input |
| Upng.Inflater.ReadLengths | patches/source/upng.c:351-449 | the code lengths of a valid dynamic block, spread over two arrays |
| Upng.Inflater.ReadDynamicTrees | patches/source/upng.c:313-465 | on a valid dynamic header both trees are built, and spell its codes padded with unused symbols |
| UpngSpec.CopyPeriodic | patches/source/upng.c:551-567 | the bytes a match appends repeat the last `distance` bytes of the output |
| UpngSpec.PaddedDecode | patches/source/upng.c:457-464 | unused symbols added at the end of a length table do not change what is decoded |
| Upng.Inflater.CopyBack | patches/source/upng.c:551-567 | the copy whose source index wraps back appends the same bytes as the copy of the specification, overlap included |
| Upng.Inflater.InflateTokens | patches/source/upng.c:492-569 | one block of a valid stream: what its tokens stand for is written, or an error exactly when a token does not find the room the code asks for |
| Upng.Inflater.InflateUncompressed | patches/source/upng.c:572-616 | a stored block of a valid stream |
| UpngSpec.StreamFitIs | patches/source/upng.c:619-656 | the room checks met while decoding are those of the stream's own literals, matches and stored blocks |
| UpngSpec.StreamExact | patches/source/upng.c:555-558 | the room checks all pass exactly when a byte is to spare, or a literal fills the last one |
| Upng.Inflate | patches/source/upng.c:619-656 | on every valid stream: success exactly when the output is shorter than the buffer, or fills it with a literal last; the bytes are those the stream stands for |
| InflateBoth.InflateTwice | patches/source/upng.c:619-656 | on every valid stream each of the two inflaters succeeds exactly when its buffer is large enough, and when both do they write the same bytes |
| InflateBoth.ExactFitRejected | patches/source/upng.c:555-558 | a valid stream of four bytes whose output exactly fills the buffer and which upng rejects, because a match ends it |
| Unfilter.PaethPredictor | patches/source/upng.c:691-704 | one of the three neighbours, nearest to their linear estimate, the earlier of equally near ones in the order left, above, above left |
| Unfilter.RestoredFiltered | patches/source/upng.c:706-766 | for each filter type, unfiltering a filtered line restores the line |
| Unfilter.FilteredRestored | patches/source/upng.c:706-766 | for each filter type, filtering an unfiltered line restores the stored line |
| Unfilter.Sees | patches/source/upng.c:708-715 | in place or not, each byte is restored from the scanline and the line above as they were before the call |
| Unfilter.UnfilterScanline | patches/source/upng.c:706-766 | the line written is the one whose filtered form was stored, a null previous line counting as zeros; an unknown type changes nothing and is an error; nothing else is written |
| Unfilter.Unfilter | patches/source/upng.c:768-796 | the image written is the unfiltered form of the stored lines as they were, into the same buffer or another; an error exactly when a line has an unknown type |
| Unfilter.UnfilterFiltered | patches/source/upng.c:768-796 | unfiltering restores every image, whatever filters its lines were stored with |
| Unfilter.FilterUnfiltered | patches/source/upng.c:768-796 | every stored image is the filtered form of what it unfilters to |
| Unfilter.UnfilterTwice | patches/source/upng.c:776 | unfiltering in place gives what it gives between separate buffers |
| UnfilterLaws.RestoredByte | patches/source/upng.c:719-765 | for each filter type, in numbers, what is added to each stored byte: nothing, the byte to the left, the one above, half their sum rounded down, or the nearest neighbour |
| UnfilterLaws.UnfilteredRow | patches/source/upng.c:780-795 | each line of an unfiltered image is restored from its own stored line and type and the line above it |
| UnfilterLaws.BinaryDigits | patches/source/upng.c:812 | the bits of a byte are its binary digits, the most significant first |
| Unfilter.WithBit | patches/source/upng.c:813-818 | and-ing out or or-ing in one bit of a byte sets that bit and no other |
| Unfilter.RemovePaddingBits | patches/source/upng.c:798-823 | the bits of each line without its padding, one line after the other, in the same buffer or another; the bits after them stay |
| Unfilter.TrimmedAt | patches/source/upng.c:808-821 | which bit of the padded lines each bit of the packed image is |
| Unfilter.PostProcess | patches/source/upng.c:826-846 | the packed pixels of the stored lines, in both ways the code takes; an error exactly for zero bits per pixel or an unknown filter type |
| Unfilter.PixelsRestored | patches/source/upng.c:826-846 | whatever filters its lines were stored with, an image gives its own pixels |
| Unfilter.InflatedSizeEnough | patches/source/upng.c:1084 | the buffer allocated for the stored lines holds them exactly when the padding of all lines is at most seven bits per column |
| Unfilter.InflatedSizeShort | patches/source/upng.c:1084 | a one-bit image one pixel wide and nine high needs more than is allocated |
| Arith64.Clz | patches/source/arith64.c:112-121 | the number of leading zeros of every nonzero word |
| Arith64.ClzUnique | patches/source/arith64.c:112-121 | there is only one such number |
| Arith64.MaskCompares | patches/source/arith64.c:184 | the sign-extended difference is the comparison of divisor and partial remainder, also for divisors above 2^63 |
| Arith64.RemFits | patches/source/arith64.c:182 | the partial remainder never overflows when it is doubled |
| Arith64.StartShift | patches/source/arith64.c:175-178 | the initial shift by the difference of leading zeros leaves a partial remainder below the divisor |
| Arith64.DivRound | patches/source/arith64.c:180-185 | one round keeps the state of the division, with each quotient bit entering the register one round late |
| Arith64.LongDivision | patches/source/arith64.c:175-189 | the loop divides |
| Arith64.DivMod | patches/source/arith64.c:149-189 | for all numerators and all nonzero divisors a = q * b + r with r < b; zero divisors trap |
| Arith64.QuotientUnique | patches/source/arith64.c:149-189 | such a quotient and remainder are the only ones |
| Arith64.DivSigned | patches/source/arith64.c:192-196 | signed division truncates towards zero, modulo 2^64 for the one quotient out of range |
| Arith64.ModSigned | patches/source/arith64.c:225-230 | the signed remainder goes with truncating division, and has the sign of the numerator |
| Arith64.ShiftLeft | patches/source/arith64.c:63-79 | the product with 2^b modulo 2^64, from two 32-bit halves, the amount taken modulo 64 |
| Arith64.ShiftRight | patches/source/arith64.c:206-222 | the quotient by 2^b, from two halves |
| Arith64.ShiftRightSigned | patches/source/arith64.c:82-98 | the quotient by 2^b rounded towards minus infinity, from two halves |
| ArqModel.ChunksPartition | patches/source/decomp_arq.c:51-74 | the chunks of a low request follow each other without gap or overlap, all whole but the last, and add up to its length |
| ArqModel.ByteInOneChunk | patches/source/decomp_arq.c:51-74 | every byte of a request is in exactly one chunk |
| ArqModel.PostInv | patches/source/decomp_arq.c:118-169 | posting a request keeps the invariant: at most one DMA in flight, a pending high request exactly when its callback is set, requests served in posting order |
| ArqModel.InterruptInv | patches/source/decomp_arq.c:79-97 | a completion interrupt, with any posts made from inside the callback, keeps the invariant |
| ArqModel.RunInv | patches/source/decomp_arq.c:79-169 | every state reached by any run of posts and interrupts satisfies it |
| ArqModel.CompletedRequests | patches/source/decomp_arq.c:79-97 | in every run the completed requests of each priority are a prefix of those posted, and each has had exactly its DMAs in order and then its callback, once |
| ArqModel.HighFirst | patches/source/decomp_arq.c:92-96 | a step that starts a low chunk leaves no high request waiting |
| ArqModel.InterruptProgress | patches/source/decomp_arq.c:79-97 | without new posts every interrupt leaves one DMA less to do |
| ArqModel.RemainingZero | patches/source/decomp_arq.c:79-97 | no DMA is left exactly when none is in flight |
| ArqModel.Drains | patches/source/decomp_arq.c:79-97 | that many interrupts empty all queues and complete every request posted |
| ArqLaws.EachByteMoved | patches/source/decomp_arq.c:26-75 | in every run each byte of a completed request has been moved by exactly one of its DMAs, from main memory to ARAM for type 0 and back otherwise, between source + x and dest + x modulo 2^32 |
| ArqLaws.CompletedEvents | patches/source/decomp_arq.c:43-97 | the DMAs of a completed request move as many bytes as it has, in chunks of 4096 for a low one, and its own callback comes last, once |
| ArqLaws.PostedWhere | patches/source/decomp_arq.c:137-158 | priority 0 goes to the low queue and 1 to the high one; any other is lost |
| ArqLaws.CompletedInOrder | patches/source/decomp_arq.c:118-169 | in every run the requests completed are, for each priority, the first ones posted with it, callbacks' posts included |
| Arq.Queue.PopTaskQueueHi | patches/source/decomp_arq.c:26-41 | the linked queue, its head and the pending fields do the step of the state machine |
| Arq.Queue.ChunkStep | patches/source/decomp_arq.c:71-73 | what the advance of length, source and destination means in chunks; the length wraps exactly on the last one |
| Arq.Queue.StartChunk | patches/source/decomp_arq.c:51-74 | starts the next chunk of the pending request, from its advanced fields |
| Arq.Queue.ServiceQueueLo | patches/source/decomp_arq.c:43-75 | the next low request becomes pending if none is, and its next chunk starts |
| Arq.Queue.PostRequest | patches/source/decomp_arq.c:118-169 | the record is filled and linked at the tail of its queue, and served at once when nothing is pending |
| Arq.Queue.CallBack | patches/source/decomp_arq.c:81-90 | the callback runs, with any posts it makes, before the pending fields are cleared |
| Arq.Queue.InterruptServiceRoutine | patches/source/decomp_arq.c:79-97 | the routine does the interrupt step of the state machine |
| MessageQueue.StepInv | patches/source/dolphin_os.c:283-332 | every send and receive, blocking or not, keeps the invariant |
| MessageQueue.RunInv | patches/source/dolphin_os.c:283-332 | in every run the messages received are a prefix of those sent, the rest is in the ring, a sleeping receiver means it is empty and a sleeping sender that it is full |
| MessageQueue.Fifo | patches/source/dolphin_os.c:274-332 | from the initial state messages come out in the order they went in, for every capacity |
| MessageQueue.SendDoes | patches/source/dolphin_os.c:283-306 | what a send does that is done, that sleeps, or that is refused |
| MessageQueue.ReceiveDoes | patches/source/dolphin_os.c:308-332 | what a receive does that is done, that sleeps, or that is refused |
| MessageQueue.Delivery | patches/source/dolphin_os.c:274-332 | in every run the messages handed over, then those in the ring, are the messages of the sends that reported success, in order |
| MessageQueue.SlotIsMod | patches/source/dolphin_os.c:298 | the index computed with % is the cell of the message in the ring |
| MessageQueue.Ring.constructor | patches/source/dolphin_os.c:274-281 | an empty ring on the given array |
| MessageQueue.Ring.SendMessage | patches/source/dolphin_os.c:283-306 | one turn: the message goes to the end of the queue, or the call fails, or the thread sleeps |
| MessageQueue.Ring.ReceiveMessage | patches/source/dolphin_os.c:308-332 | one turn: the first message of the queue, or the call fails, or the thread sleeps |
| MutexModel.LockInv | patches/source/dolphin_os.c:170-239 | locking and try-locking keep the invariant |
| MutexModel.UnlockInv | patches/source/dolphin_os.c:195-209 | unlocking keeps the invariant; only the owner's unlock counts, and the last one releases |
| MutexModel.UnlockAllInv | patches/source/dolphin_os.c:211-220 | releasing all of a thread's mutexes keeps the invariant |
| MutexModel.RunInv | patches/source/dolphin_os.c:170-239 | in every interleaving a mutex has an owner exactly when it is in that thread's list, once, its count is the owner's number of unmatched locks, and nobody else has any |
| MutexModel.Exclusion | patches/source/dolphin_os.c:170-239 | two threads never both have unmatched locks of one mutex |
| MutexModel.NoLostWakeup | patches/source/dolphin_os.c:187-206 | a thread asleep on a mutex waits for another thread, which owns it |
| MutexLaws.LockTakes | patches/source/dolphin_os.c:177-185 | a lock of a free or own mutex adds one unmatched lock and makes the thread its owner; a try does the same |
| MutexLaws.LockWaits | patches/source/dolphin_os.c:186-191 | a lock of somebody else's mutex puts the thread to sleep on it and changes nothing else; a try changes nothing |
| MutexLaws.UnlockReleases | patches/source/dolphin_os.c:199-206 | the owner's unlock takes away one unmatched lock; with the last one the mutex is free and nobody sleeps on it |
| MutexLaws.UnlockIgnored | patches/source/dolphin_os.c:199 | anybody else's unlock changes nothing |
| MutexLaws.UnlockAllReleases | patches/source/dolphin_os.c:211-220 | all of the thread's locks are gone, its mutexes free and their sleepers awake; nothing else changes |
| MutexLaws.LocksAndUnlocks | patches/source/dolphin_os.c:170-209 | locking a free mutex any number of times and unlocking it as often leaves it free |
| Mutex.PushTail | patches/source/dolphin_os.c:114-126 | the doubly linked list grows by the mutex at its end |
| Mutex.PopHead | patches/source/dolphin_os.c:128-139 | the doubly linked list loses its head |
| Mutex.PopItem | patches/source/dolphin_os.c:141-158 | the doubly linked list loses an item from anywhere in it |
| Mutex.WithoutAt | patches/source/dolphin_os.c:141-158 | what is left is the list without that mutex |
| Mutex.Kernel.LockMutex | patches/source/dolphin_os.c:170-193 | one turn of the loop does the step of the state machine on the linked records |
| Mutex.Kernel.Woken | patches/source/dolphin_os.c:188-189 | waking up clears the mutex waited for |
| Mutex.Kernel.TryLockMutex | patches/source/dolphin_os.c:222-239 | the step of the state machine, and whether the mutex is now held |
| Mutex.Kernel.UnlockMutex | patches/source/dolphin_os.c:195-209 | the step of the state machine on the linked records |
| Mutex.Kernel.UnlockAllMutex | patches/source/dolphin_os.c:211-220 | the loop over the owner list releases every mutex of the thread and empties the list |
| FormatModel.ReadDigits | patches/source/rpl_vsnprintf.c:1328-1340 | the digits of a number in any base up to 16 read back to it |
| FormatModel.GroupedLength | patches/source/rpl_vsnprintf.c:1289-1304 | getnumsep is the number of separators that are printed |
| FormatModel.IntReadsBack | patches/source/rpl_vsnprintf.c:878-976 | the zeros and digits of a printed integer read back to it, separators or not |
| FormatModel.DecimalReadsBack | patches/source/rpl_vsnprintf.c:626-655 | a signed argument of 32 bits reads back with its sign |
| FormatModel.IntLength | patches/source/rpl_vsnprintf.c:929-945 | the field is filled to its width exactly unless separators are printed together with zeros from a precision, and the width is not reached without padding |
| FormatModel.ShortField | patches/source/rpl_vsnprintf.c:929-945 | a conversion of width ten that prints nine characters |
| FormatLaws.GroupsOfThree | patches/source/rpl_vsnprintf.c:967-972 | separators stand before every third digit from the right |
| FormatLaws.IntField | patches/source/rpl_vsnprintf.c:906-951 | without separators: as many digits as the precision asks for, a leading zero in base eight with #, and spaces or zeros up to the width |
| FormatLaws.OctalZero | patches/source/rpl_vsnprintf.c:915-929 | with # in base eight a zero comes first exactly when the zeros asked for outnumber the separators |
| FormatLaws.WideArgument | patches/source/rpl_vsnprintf.c:892-894 | the magnitude of an argument is printed whole exactly when it fits 32 bits |
| FormatLaws.SignedArgIs | patches/source/rpl_vsnprintf.c:630-655 | the bits each length modifier takes of a signed argument |
| FormatLaws.UnsignedArgIs | patches/source/rpl_vsnprintf.c:673-700 | the bits each length modifier takes of an unsigned argument |
| FormatLaws.PrintsSigned | patches/source/rpl_vsnprintf.c:627-658 | %d and %i print a minus sign exactly for a negative argument, and digits that read back in base ten to its magnitude |
| FormatLaws.PrintsUnsigned | patches/source/rpl_vsnprintf.c:659-703 | %u, %o, %x and %X print no sign, and digits that read back in base 10, 8 and 16, with capitals for %X only |
| FormatLaws.PrintsPointer | patches/source/rpl_vsnprintf.c:748-774 | %p prints a null pointer by name, and another one in small hexadecimal digits after 0x |
| FormatLaws.StrPrints | patches/source/rpl_vsnprintf.c:844-875 | the first characters of the string, as many as the precision allows, in a field of the width |
| FormatLaws.PrintsOthers | patches/source/rpl_vsnprintf.c:704-823 | %c, %n, %%, the floating-point conversions and unknown ones |
| FormatLaws.FlagsMean | patches/source/rpl_vsnprintf.c:502-532 | each flag character sets its own flag |
| FormatLaws.DirectiveReads | patches/source/rpl_vsnprintf.c:494-625 | every directive reads as it is written: flags, width, precision, length modifier, conversion; stars take arguments |
| FormatLaws.TooBigReads | patches/source/rpl_vsnprintf.c:533-587 | a width or precision beyond 2147483647 fails |
| FormatModel.WidthStep | patches/source/rpl_vsnprintf.c:533-556 | reading a width character by character reads the whole number, an overflow included |
| FormatModel.PrecisionStep | patches/source/rpl_vsnprintf.c:564-587 | reading a precision character by character reads the whole number |
| FormatModel.FlagsStep | patches/source/rpl_vsnprintf.c:502-532 | reading flags one by one reads them all |
| FormatModel.ModStep | patches/source/rpl_vsnprintf.c:588-624 | reading a length modifier |
| FormatModel.ConvStep | patches/source/rpl_vsnprintf.c:625-828 | a conversion character carries out the directive read |
| Format.OutChar | patches/source/rpl_vsnprintf.c:437-442 | the buffer holds the output so far, cut to one less than its size, and is otherwise unchanged |
| Format.FmtStr | patches/source/rpl_vsnprintf.c:844-875 | prints the text of a string: cut to the precision, filled to the width |
| Format.Convert | patches/source/rpl_vsnprintf.c:1328-1340 | the digits in reverse order, which always fit the 43 places |
| Format.LayOut | patches/source/rpl_vsnprintf.c:902-956 | the numbers of zeros and spaces, the prefix and the separators |
| Format.OutDigits | patches/source/rpl_vsnprintf.c:967-972 | prints the digits with their separators |
| Format.FmtInt | patches/source/rpl_vsnprintf.c:878-976 | prints the text of an integer |
| Format.Conversion | patches/source/rpl_vsnprintf.c:625-828 | does what the conversion character means, for every length modifier |
| Format.Print | patches/source/rpl_vsnprintf.c:492-829 | the loop over the seven states ends on every format, and prints what the format means as a sequence of directives |
| Format.RplVsnprintf | patches/source/rpl_vsnprintf.c:457-841 | the buffer receives the output cut to the size less one and a NUL, for every size; the value returned and the counts stored do not depend on the size |
| IniModel.ItemsIsDocument | cubeboot/source/ini.c:103-173 | splitting position by position meets the items of the text read line by line |
| IniModel.DocumentNamed | cubeboot/source/ini.c:103-173 | no value is empty, and no key looks like a header |
| IniModel.WalkIsLookup | cubeboot/source/ini.c:197-226 | when every value has a name, walking the strings in memory finds what reading the lines finds |
| IniModel.LookupAgrees | cubeboot/source/ini.c:197-226 | the two agree on every lookup exactly when every value has a name |
| IniModel.NamelessHides | cubeboot/source/ini.c:129-138 | a line "=v" hides the pair on the next line from ini_get |
| IniModel.StringsPair | cubeboot/source/ini.c:138-169 | a key and its value, each followed by NULs, are two strings in memory |
| IniLaws.SameIs | cubeboot/source/ini.c:37-46 | names are the same when they are equal but for the case of letters |
| IniLaws.QuotedReads | cubeboot/source/ini.c:71-98 | every value can be written between quotes and is read back whole |
| IniLaws.EscapesRead | cubeboot/source/ini.c:77-89 | what the escapes mean |
| IniLaws.PlainReads | cubeboot/source/ini.c:129-169 | a plain value is what is left without the blanks around it |
| IniLaws.QuotedPairReads | cubeboot/source/ini.c:151-163 | a quoted value is what is between the quotes; what follows them is dropped |
| IniLaws.HeaderReads | cubeboot/source/ini.c:120-123 | a header names its section, and the line goes on behind the bracket |
| IniLaws.LookupFirst | cubeboot/source/ini.c:197-226 | what a lookup finds is the value of the first match in the section asked for, and it finds nothing only if there is none |
| Ini.TrimBack | cubeboot/source/ini.c:57-61 | blanks before a place become NULs, and nothing before the string is touched |
| Ini.DiscardLine | cubeboot/source/ini.c:63-68 | NULs up to the end of the line |
| Ini.UnescapeQuotedValue | cubeboot/source/ini.c:71-98 | writes the unescaped value over the quoted one; the write head stays behind the read head and inside the line |
| Ini.SplitLine | cubeboot/source/ini.c:129-170 | a whole line becomes its key and value between NULs, or only NULs |
| Ini.SplitHeader | cubeboot/source/ini.c:120-123 | a section header becomes a string |
| Ini.SplitData | cubeboot/source/ini.c:103-173 | for every text the strings left in memory are those of its items, line by line; nothing outside the text is written |
| Ini.Next | cubeboot/source/ini.c:49-55 | the start of the next string |
| Ini.StrCmpCi | cubeboot/source/ini.c:38-46 | equality of strings without regard to case |
| Ini.IniGet | cubeboot/source/ini.c:197-226 | the place of what the walk over the strings finds, or nothing |
| Ini.Query | cubeboot/source/ini.c:175-226 | loading a text and looking a key up gives the value of the first match in the requested section, when every value has a name |
| Adler32.UpdateIsChecksum | entry/source/tinf/adler32.c:33-95 | reducing after every byte, as in section 8.2 of RFC 1950, gives the checksum defined by the two sums |
| Adler32.KnownChecksums | entry/source/tinf/adler32.c:33-95 | the checksums of nothing and of a known text |
| Adler32.NoWrap | entry/source/tinf/adler32.c:41-91 | no 32-bit sum wraps within 5552 bytes |
| Adler32.NMaxIsLargest | entry/source/tinf/adler32.c:34 | 5552 is the largest such number: from the largest sums one more byte can overflow |
| Adler32.AddSixteen | entry/source/tinf/adler32.c:46-79 | the unrolled loop body adds sixteen bytes |
| Adler32.AddBlock | entry/source/tinf/adler32.c:43-84 | both inner loops together add a block |
| Adler32.TinfAdler32 | entry/source/tinf/adler32.c:33-95 | the checksum of every byte sequence |
| Texture.PlaceOfByte | patches/source/GRRLIB_pixel.h:38-47 | each channel of each pixel has a byte of its own inside the texture |
| Texture.ByteOfPlace | patches/source/GRRLIB_pixel.h:38-47 | every byte of the texture belongs to a channel of a pixel |
| Texture.ChannelLayout | patches/source/metaphrasis.c:26-48 | in a tile, alpha and red stand side by side, and green and blue 32 bytes later |
| Texture.ConvertBufferToRGBA8 | patches/source/metaphrasis.c:16-54 | every byte of the texture is the channel of the source pixel that belongs there |
| Texture.ConvertedPixel | patches/source/GRRLIB_pixel.h:38-47 | reading a pixel of a converted texture gives the source pixel |
| Texture.SetPixel | patches/source/GRRLIB_pixel.h:57-65 | replaces the four bytes of one pixel and nothing else |
| Texture.SetThenGet | patches/source/GRRLIB_pixel.h:38-65 | setting one pixel changes that pixel and no other |
| Scrambler.GatheredIsKey | cubeboot/source/descrambler.c:44-50 | a key byte is made of eight output bits at its position; what the accumulator held before does not matter |
| Scrambler.Turn | cubeboot/source/descrambler.c:18-42 | one turn of the three registers |
| ScramblerLaws.RegisterT | cubeboot/source/descrambler.c:41-43 | each bit the first register gives is the sum of those given 16, 14, 11, 10, 9 and 7 clockings before |
| ScramblerLaws.RegisterU | cubeboot/source/descrambler.c:34-39 | the same for the second register |
| ScramblerLaws.RegisterV | cubeboot/source/descrambler.c:27-32 | the same for the third register |
| ScramblerLaws.ClockedWhen | cubeboot/source/descrambler.c:27-43 | which registers are clocked at a turn |
| ScramblerLaws.OutputChanges | cubeboot/source/descrambler.c:23-25 | how the output bit changes, as a polynomial in five register bits |
| Scrambler.Descrambler | cubeboot/source/descrambler.c:5-53 | the key stream is laid over the bytes in place; the loop ends |
| Scrambler.MaskedTwice | cubeboot/source/descrambler.c:47 | laying the key stream over twice restores the bytes |
| Scrambler.ScrambleExecutable | ipl/scripts/iplscramble.py:53-68 | the executable is scrambled with the key stream from byte 0x700 on |
| Scrambler.LoadIplFile | cubeboot/source/ipl.c:134-149 | an image of the right size is descrambled between the first stage and the fonts |
| Scrambler.ExecutableRestored | cubeboot/source/ipl.c:148 | a scrambled and injected executable that ends before the fonts is found in clear in the loaded image, and every other byte is as if it had not been injected |
| Scrambler.ExecutableBeyondFonts | cubeboot/source/ipl.c:148 | what an executable puts into the font area stays scrambled |

## Left out

- Tinf.Uncompress: valid streams are those tinf accepts, which is stricter than RFC 1951: at most 30 distance
  codes, complete codes except a single one of length one, and only dynamic headers whose lengths add up exactly.
- Upng.Inflate: its conclusions are for valid streams that end at least two bytes before `inlength`, as they do
  before a zlib trailer; for other input only the bounds and termination are stated.  upng does not test a
  distance against the bytes already produced; a valid stream has none that is too large.
- Upng.Inflater.ReadSymbol: reads past the input are modelled as zeros, and reads of the length arrays and of the
  output before their first byte as unspecified values; on valid streams neither happens.
- UpngTree.HuffmanTree.CreateLengths: `blcount` has 16 cells here; the C has 15, and its sixteenth would only be
  counted, never read.
- The static trees of upng (lines 147 to 192) are parameters, assumed to spell the fixed codes.
- The zlib and gzip headers, PNG chunks, colour formats and the allocation of buffers; single checks.
- Unfilter.Unfilter: needs a width of at least one pixel, and numbers are unbounded; the C multiplies in 32 bits.
- Unfilter.PostProcess: takes pixels of less than eight bits or of whole bytes, the only ones a PNG header can give.
- Arith64.DivSigned: dividing by zero is a result of its own; the C forces an exception.
- The counts of trailing zeros and of one bits, `__absvdi2` and `__ffsdi2` in arith64.c: bit tricks that nothing else
  relies on.
- Arq.Queue.PostRequest: a posted record must not be in a queue already.  A priority other than 0 or 1 is accepted
  and never served, as in the C.  ARStartDMA is an event in a trace; an interrupt can only follow a DMA.
- MessageQueue.Ring.SendMessage: sleeping is an outcome of one turn; a woken thread takes another turn.  Waking up
  wakes every thread asleep on the queue, which is assumed of the firmware.  The same holds for the mutexes.
- Mutex.Kernel.LockMutex: priority promotion, OSJoinThread and the scheduler are not modelled, and counts are
  unbounded.
- Format.RplVsnprintf: what a floating-point conversion prints is part of the argument.  Reading an argument of the
  wrong kind, which C leaves undefined, gives zero or a null string.  Formats and strings hold no NUL, lengths do
  not wrap, and widths are unbounded in the arithmetic of the layout.  Locale separators are not modelled; the
  separator is a comma.
- Ini.Query: texts hold no NUL and case folding is that of ASCII.  `ini_sget` with a scan format is left out.
- Texture.ConvertBufferToRGBA8: sizes are multiples of four that fit 16 bits, and offsets do not wrap at 32 bits;
  the RGB5A3 format, cache flushes and colour-space helpers are left out.
- Scrambler.LoadIplFile: reading files and the ROM; both programs' loops are one method, since they are the same.
- All device traffic, program loading, menus and drawing: effects outside a model of this kind.
