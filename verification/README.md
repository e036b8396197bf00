# Verified model of the buffer library

The project models the parts of the repository where memory is shared, cut, moved,
counted or summed, and proves what those parts are for:

- **CRC-32C.** The repository computes one function in six ways. The specification is
  the byte fold of the Castagnoli polynomial (Appendix B of RFC 4960, no initial and
  no final inversion), which is shown to be the remainder of a division by that
  polynomial, given by its terms (`CrcRemainder`). Everything rests on one algebraic
  fact: a zero byte acts linearly on the register. Tables are built by generators and every entry is shown
  to be a zero run; then the bytewise loop, slicing by eight with its alignment
  prologue, its variant for implied zeros, the logarithmic zero run by GF(2)
  matrices, the three-lane kernel with table recombination and its tail ladder, and
  the cached, re-based checksum of a segmented buffer are all proved equal to the
  fold, for every state, length and address.
- **The buffer list**, a rope of windows onto raws that many lists share. The class
  `List` keeps the fields of the source (`_buffers`, `_tail_pnode_cache`, `_len`,
  `_num`); every operation is proved against the flat byte sequence and against the
  places in raws that the list shows (`BufferCells`). Appending goes to places that no
  window showed, and cutting, moving and sharing only rearrange places; writing in
  place goes to exactly the places named, and every list on whatever raws shows just
  that. The ghost fields `used` and `owner` of a raw say how far its bytes have been
  handed out and which list may append behind them. `ListRuns.Run` puts the operations
  together into arbitrary runs over lists that share raws, and `RunSpec` says what the
  runs do without raws and nodes.
- **The chain `buffers_t`**, the circular singly linked list under it, on the heap,
  and the list on its chain.
- **Iterators, appenders and fillers** over lists, with their states after an exception.
- **`ptr::release`** as a protocol between concurrent holders, with its fast path
  that does not decrement.
- **Deleters**: an ownership graph with reference counts, `share`, `append` with its
  wrapping of shared links, the order in which actions run when deleters go, and whole
  runs of calls.
- **Base64 armor**, against the alphabet of section 4 of RFC 4648, and **`write_fd`**
  against a kernel that writes as little as it likes, or fails.

## Files

| file | contents |
|---|---|
| Bits, Crc, CrcTables | words, the fold and its algebra, the tables |
| CrcRemainder | the fold as a remainder by the Castagnoli polynomial; the printed entries |
| CrcSoftware, CrcKernel, Crc32c | the routines, and the dispatch |
| Rope, BufferRaw, BufferCells, BufferList | flat sequences, raws and windows, single bytes of raws, `buffer::list` |
| RunSpec, ListRuns | what runs of calls do, and that the lists do it |
| ListIterator, Appenders, ListFiller, ListBase64 | iterators, appenders, fillers, base64 at list level |
| Chain, ListOnChain, RawRelease | `buffers_t`, the list on it, `ptr::release` |
| DeleterGraph, DeleterUnwind | the ownership graph as values; what ends with a deleter, and in which order |
| Deleter, DeleterRuns | the operations on it, whole runs |
| Armor, ArmorText | the armor; its alphabet, digits and lines |
| WriteFd, Options | writing; an optional value |

## Where the code departs from its intent

The model follows the code; each departure has its exact condition.

- `substr_of` tests `len >= 0` on an unsigned `len` and reads the sentinel of the
  chain exactly when `off + len` is the length of the other list
  (`BufferList.List.SubstrOf`).
- `splice` reads the sentinel exactly when it starts inside the list and ends after
  it (`BufferList.List.Splice`).
- `rebuild_aligned_size_and_memory` never resets `_tail_pnode_cache`: the list is
  sound afterwards exactly when there was no cached node or the cached node was
  kept, being aligned, sized and at a multiple of the size
  (`BufferList.List.RebuildAligned`). It reads the sentinel exactly when some longest
  run of nodes that are not kept has no byte (`BufferList.HasHollow`).
- `zero` and `copy_in` on a list whose nodes overlap change bytes outside the range:
  `zero` is exact, whatever the bytes are, exactly when no place outside the range
  shares its byte with one inside (`BufferCells.ZeroIsExact`), `copy_in` exactly when
  no place in the range shares its byte with another (`BufferCells.WriteIsExact`).
- `crc32c` of a node narrows its length to 32 bits: the checksum is right, whatever
  the bytes are, exactly for lengths below 2^32 (`Crc32c.NarrowedLength`).
- `c_str` reads the sentinel exactly when the list has several nodes and no byte
  (`ListBase64.CStr`).
- `contiguous_filler` writes without invalidating the remembered checksum, which
  survives every such write exactly when it covers none of the written bytes
  (`BufferRaw.FillKeepsChecksum`, `ListFiller.ContiguousFiller.CopyIn`).
- `get_logical_offset` forgets what has been flushed: it is the number of bytes that
  have joined since the start exactly when no call joined a ptr with bytes, or a list,
  while in-place bytes were pending (`Appenders.ContiguousAppender.LogicalOffsetForgets`);
  `Appenders.OffsetFallsBehind` is an input.
- `deleter::append` moves `next` out of a shared impl, which the comment on `share`
  does not allow for: the other sharers keep what they share exactly when no shared
  impl on the chain has a next deleter (`DeleterGraph.SharersKeepNext`), and
  `Deleter.SharerLosesNext` is a run in which an action runs too early.
- `do_writev` assigns `errno` where it means to compare it, so every failed call is
  retried and `write_fd(fd, offset)` never reports an error (`WriteFd.DoWritev`); it
  returns exactly when what the calls offer to take adds up to the bytes, and never
  when every call fails (`WriteFd.TakenIsOffered`, `WriteFd.NeverTaken`).
- Copying a ptr that is being released breaks the release protocol
  (`RawRelease.CopyFromReleasedBreaks`); with copies from holders only it is sound.

## Model

| member | source | states |
|---|---|---|
| `Crc.ZerosLinear` | common/crc32/crc32c.cc:162-182 | any run of zero bytes acts linearly over exclusive or, the fact behind the matrices and the tables |
| `Crc.ZerosAdd` | common/crc32/crc32c.cc:168-182 | zero runs compose by adding their lengths |
| `Crc.FoldIsZeros` | common/crc32/sctp_crc32.c:526-559 | the checksum of any data is the zero run of its length applied to the register exclusive-or the data as one little-endian number |
| `Crc.FoldSplit` | common/crc32/crc32c_intel_fast.c:32-37 | a buffer may be summed in two parts |
| `Crc.FoldAffine` | common/crc32/crc32c_intel_fast_asm.s:44-126 | the start value and the data contribute separately to a checksum |
| `Crc.FoldZeroBytes` | include/crc32/crc32c.h:27-40 | the checksum of zero-filled data is the zero run |
| `Crc.Rebase` | common/buffer/buffer_list.cc:1399-1411 | a checksum taken from one start value gives that from another by the adjustment crc32c(0^n, v ^ v') |
| `Crc.ZerosInjective` | common/crc32/crc32c.cc:162-187 | no two register values become equal under zero bytes |
| `Crc.OneByteDetected` | include/buffer/buffer_list.h:503-506 | data that differ in one byte have different checksums |
| `CrcRemainder.PolyIsCastagnoli` | common/crc32/sctp_crc32.c:70-82 | the register steps with exactly the 18 terms of the Castagnoli polynomial, as Appendix B of RFC 4960 lists them |
| `CrcRemainder.StepsAreRemainder` | common/crc32/crc32c_intel_baseline.c:118-128 | r is what k steps of the register make of v exactly when it is v divided by x^k, modulo the polynomial |
| `CrcRemainder.FoldIsRemainder` | common/crc32/crc32c_intel_baseline.c:108-131 | the checksum is r exactly when the register exclusive-or the data, as one polynomial, and r times x to the number of its bits differ by a multiple of the Castagnoli polynomial |
| `CrcRemainder.FirstRowPrinted` | common/crc32/crc32c.cc:32-35 | the 32 entries of the first row of crc_turbo_table as they are printed |
| `CrcRemainder.OneBit` | common/crc32/crc32c_intel_baseline.c:39-104 | the entries of the byte table at 1, 2, 4, ..., 128 as they are printed are the checksums of those bytes |
| `CrcRemainder.TablePrinted` | common/crc32/crc32c_intel_baseline.c:39-104 | each of the 256 entries is the exclusive or of the printed entries of its bits, and the checksum of its byte |
| `CrcTables.SliceEntry` | common/crc32/sctp_crc32.c:85-500 | entry b of slice table s is s+1 zero bytes applied to b |
| `CrcTables.TableFeed` | common/crc32/crc32c_intel_baseline.c:120-122 | the table update of the bytewise loops is the fold's step for one byte |
| `CrcTables.ApplyIsZeros` | common/crc32/crc32c.cc:172-177 | a masked column sum over the remaining bits of a vector is the zero run of that vector shifted into place |
| `CrcTables.ProductIsZeros` | common/crc32/crc32c.cc:170-178 | the masked inner loop is the zero run that its row stands for, for every 32-bit vector |
| `CrcTables.TurboRowIsZeroRun` | common/crc32/crc32c.cc:30-160 | row r, got by squaring row r-1, holds the images of the unit vectors under 2^r zero bytes |
| `CrcSoftware.Baseline` | common/crc32/crc32c_intel_baseline.c:108-131 | the bytewise routine is the fold, for a buffer and for NULL |
| `CrcSoftware.Divide` | common/crc32/sctp_crc32.c:515-521 | prologue, rounds and epilogue make up the length, and the rounds start at a multiple of four |
| `CrcSoftware.SliceRound` | common/crc32/sctp_crc32.c:533-556 | one round of eight table lookups is eight zero bytes applied to the register and the two words |
| `CrcSoftware.SliceRoundAt` | common/crc32/sctp_crc32.c:526-559 | one round is the fold of the next eight bytes |
| `CrcSoftware.SliceBy8` | common/crc32/sctp_crc32.c:503-565 | slicing by eight is the fold, for every state, length and address offset |
| `CrcSoftware.SliceBy8Zero` | common/crc32/sctp_crc32.c:566-614 | its variant without a buffer is the zero run |
| `CrcSoftware.Sctp` | common/crc32/sctp_crc32.c:631-644 | update_crc32 is the fold, for a buffer and for NULL |
| `CrcKernel.ThreeLanes` | common/crc32/crc32c_intel_fast_asm.s:44-126 | the fold over three parts from the three separate checksums, the first two advanced over what follows them |
| `CrcKernel.Merge` | common/crc32/crc32c_intel_fast_asm.s:73-109 | four byte-table lookups, shifted into place, advance a lane over k more zero bytes |
| `CrcKernel.CrcB3` | common/crc32/crc32c_intel_fast_asm.s:44-126 | the three-lane loop with its recombination is the fold of all 3B bytes, for every block size |
| `CrcKernel.Descent` | common/crc32/crc32c_intel_fast_asm.s:216-230 | the 1920/960/480/240 descent folds whole groups of 240 bytes and leaves fewer than 240 |
| `CrcKernel.QuadRung` | common/crc32/crc32c_intel_fast_asm.s:231-271 | one rung of the tail ladder folds its share exactly when that bit of the length is set |
| `CrcKernel.PartRung` | common/crc32/crc32c_intel_fast_asm.s:272-297 | the rungs below eight bytes fold parts of a word that has been loaded |
| `CrcKernel.Ladder` | common/crc32/crc32c_intel_fast_asm.s:231-300 | the tail ladder folds exactly the rest, for every rest under 256 |
| `CrcKernel.ProcBlock` | common/crc32/crc32c_intel_fast_asm.s:216-300 | descent and ladder together are the fold |
| `CrcKernel.Iscsi00` | common/crc32/crc32c_intel_fast_asm.s:149-320 | the kernel with its alignment prologue is the fold, reading at most eight bytes past the end, and none when the end is aligned |
| `CrcKernel.LessThan8` | common/crc32/crc32c_intel_fast_asm.s:304-325 | the path for short buffers is the fold |
| `CrcKernel.IscsiZero00` | common/crc32/crc32c_intel_fast_zero_asm.s:149-305 | the kernel on implied zeros is the zero run, for every length |
| `CrcKernel.IntelFast` | common/crc32/crc32c_intel_fast.c:16-40 | the wrapper is the fold and never reads past the buffer |
| `Crc32c.MatrixStep` | common/crc32/crc32c.cc:170-178 | the masked inner loop is the GF(2) matrix product, for each of the 32 rows |
| `Crc32c.Crc32cZeros` | common/crc32/crc32c.cc:162-187 | crc32c_zeros is length applications of the zero-byte step, for every 32-bit length, and asks for rows of the table only |
| `Crc32c.SpecCrc32c` | include/crc32/crc32c.h:34-44 | spec_crc32c is the fold on either implementation, NULL data standing for zeros |
| `Crc32c.NarrowedLength` | include/crc32/crc32c.h:34-36 | a length of 2^32 or more is narrowed on the way to the routine: the checksum of what is left is that of the buffer, whatever its bytes, exactly for lengths below 2^32 |
| `BufferRaw.Raw.GetCrc` | include/buffer/buffer_raw.h:98-106 | a hit returns the checksum of the bytes as they are now |
| `BufferRaw.Raw.SetCrc` | include/buffer/buffer_raw.h:108-113 | remembering a checksum of the bytes keeps the raw coherent |
| `BufferRaw.Raw.Grow` | common/buffer/buffer_ptr.cc:234-251 | writing behind the bytes handed out changes no window on the raw |
| `BufferRaw.Raw.CopyIn` | common/buffer/buffer_ptr.cc:200-209 | exactly those bytes change, the remembered checksum goes exactly with a reset, and the raw stays coherent with one, or when the checksum covers none of the bytes |
| `BufferRaw.FillKeepsChecksum` | include/buffer/buffer_list.h:491-511 | a remembered checksum survives every write of n bytes exactly when it covers none of them |
| `BufferCells.RowsWritten` | common/buffer/buffer_ptr.cc:200-209 | what a write to places in raws, one after another, makes of every node's bytes it makes of the flat bytes, also where nodes share places |
| `BufferCells.ZeroIsExact` | common/buffer/buffer_list.cc:513-553 | zeroing a range clears just the range, whatever the bytes are, exactly when no place outside it shares its byte with one inside |
| `BufferCells.WriteIsExact` | common/buffer/buffer_list.cc:295-313 | writing to a range patches just the range, whatever is written, exactly when no place in it shares its byte with another place |
| `BufferCells.CellShown` | common/buffer/buffer_list.cc:786-805 | every byte that a list shows is shown by one of its windows, so that bytes no window shows are new to every list |
| `BufferList.List.AppendInPlace` | common/buffer/buffer_ptr.cc:234-251 | appending behind the cached last node extends the flat sequence and disturbs no window and no other list |
| `BufferList.List.SyncTail` | common/buffer/buffer_list.cc:719-730 | a cached node that is not the last is continued in a new last node, and one that is the last stays |
| `BufferList.List.RefillAppendSpace` | common/buffer/buffer_list.cc:333-349 | the new node has room for the request, and its capacity with the header is the fewest units of 4096 that hold the request in words of eight |
| `BufferList.List.Reserve` | common/buffer/buffer_list.cc:657-667 | room for the request, same bytes; nothing when there is room, else one page-aligned node of the fewest pages at the end |
| `BufferList.List.ObtainContiguousSpace` | common/buffer/buffer_list.cc:837-866 | the cached node is the last and has the room; writing goes on where it was when there was room |
| `BufferList.List.AppendChar` | common/buffer/buffer_list.cc:692-712 | flat concatenation of one byte, wherever the cached node is, in a place that no window showed |
| `BufferList.List.AppendData` | common/buffer/buffer_list.cc:713-739 | flat concatenation, as much as fits in the gap and the rest in new space, with a new node only where one is needed, all in places that no window showed; no other list changes |
| `BufferList.List.AppendZero` | common/buffer/buffer_list.cc:813-835 | flat concatenation of zeros, in places that no window showed |
| `BufferList.List.AppendHole` | common/buffer/buffer_list.cc:786-805 | n bytes of unspecified value join the list, in one place that the result names, that no window showed and no checksum covers |
| `BufferList.List.PushBack` | include/buffer/buffer_list.h:680-691 | flat concatenation of the window's bytes |
| `BufferList.List.PushBackMoved` | include/buffer/buffer_list.h:692-704 | the same, and the cache is dropped |
| `BufferList.List.AppendSub` | common/buffer/buffer_list.cc:746-762 | flat concatenation of part of a window: when it continues the last node, that node grows and no node is added, and otherwise one node is |
| `BufferList.List.AppendList` | common/buffer/buffer_list.cc:763-772 | flat concatenation of another list, whose own bytes stay |
| `BufferList.List.Clear` | include/buffer/buffer_list.h:674-679 | no byte, no node, no cache |
| `BufferList.List.CopyFrom` | include/buffer/buffer_list.h:607-615 | the copy has the same bytes and no right to append in place |
| `BufferList.List.MoveFrom` | include/buffer/buffer_list.h:616-623 | bytes, nodes and the right to append in place pass over; the other list is empty |
| `BufferList.List.ClaimAppend` | common/buffer/buffer_list.cc:669-683 | the other list's bytes move to this list's end |
| `BufferList.List.ClaimAppendPiecewise` | common/buffer/buffer_list.cc:684-691 | the same bytes and places, window by window |
| `BufferList.List.Splice` | common/buffer/buffer_list.cc:948-1006 | cut off..off+n: the rest stays, the claiming list gains exactly the cut, in bytes and in places shown; and exactly when it throws, with nothing changed, or leaves the chain |
| `BufferList.List.CutStep` | common/buffer/buffer_list.cc:972-1005 | one round hands over the due part of a node and narrows the node or takes it out |
| `BufferList.List.SubstrOf` | common/buffer/buffer_list.cc:912-947 | the bytes off..off+n of another list, in the same places, which stays; and exactly when it throws, with this list untouched, or reads the sentinel |
| `BufferList.List.Rebuild` | common/buffer/buffer_list.cc:558-587 | the same bytes in at most one node, page aligned when the length is |
| `BufferList.List.GroupEnd` | common/buffer/buffer_list.cc:611-634 | the inner loop stops where the bytes so far are a multiple of the size and the next node stands well by itself |
| `BufferList.List.RebuildAligned` | common/buffer/buffer_list.cc:593-652 | same bytes and length, every node aligned, every node but the last a multiple of the effective size (all if the total is), at most max_buffers nodes with bytes and no new empty ones; reports a rebuild exactly when the nodes were not so before; sound afterwards exactly when the cached node was none or kept; reads the sentinel exactly when a run of nodes that are not kept has no byte |
| `BufferList.RunHollow` | common/buffer/buffer_list.cc:636-647 | the only group that begins in a run of nodes that are not kept is the run itself, and it is without bytes exactly when each of its nodes is |
| `BufferList.EffectiveSize` | common/buffer/buffer_list.cc:598-603 | the effective size is positive and a multiple of align_size |
| `BufferList.EffectiveServes` | common/buffer/buffer_list.cc:598-603 | align_size itself without max_buffers, when the nodes are few enough, or when max_buffers nodes of that size hold the list; otherwise the least multiple of align_size with which they do |
| `BufferList.EffectiveCovers` | common/buffer/buffer_list.cc:598-603 | max_buffers nodes of the effective size hold the list |
| `BufferList.RoundUpFacts` | include/intarith.h:19-24 | round_up_to is the least multiple of d not below n |
| `BufferList.Counting` | common/buffer/buffer_list.cc:593-652 | nodes of which all but the last are sized: the last is sized exactly when the total is, and each that has bytes takes a whole size |
| `BufferList.List.ListCrc32c` | common/buffer/buffer_list.cc:1382-1433 | crc32c of the list is the fold of its flat bytes whether each node hits, is re-based or misses, and every remembered checksum stays right |
| `BufferList.List.NodeCrc32c` | common/buffer/buffer_list.cc:1390-1420 | the same for one node; afterwards its checksum is remembered, a hit or a re-based one as it was |
| `BufferList.List.InvalidateCrcs` | common/buffer/buffer_list.cc:1434-1440 | nothing is remembered, the bytes stay |
| `BufferList.List.OverwriteNode` | common/buffer/buffer_ptr.cc:200-209 | all of memory is as after a write to that part of the node, with the checksum reset or none remembered; every window stays sound |
| `BufferList.List.Zero` | common/buffer/buffer_list.cc:513-553 | the places off..off+n are zeroed and every list, on whatever raws, shows just that; this list is cleared exactly on off..off+n when no other place of it shares a byte; checksums stay right |
| `BufferList.List.RewrittenFlat` | common/buffer/buffer_ptr.cc:200-209 | after a write to memory a list that kept its nodes is sound and shows its bytes as the write left them |
| `ListRuns.Run` | common/buffer/buffer_list.cc:513-1006 | any run of appends, holes, pushes, joins, copies, moves, claims, cuts, slices, rebuilds, clears, zeroing, copying in and checksums over lists that share raws: every moment follows from the one before by RunSpec, every list stays sound, each checksum is that of the bytes at its moment, and lists outside the run stay sound and change only by writes |
| `ListRuns.DoStep` | common/buffer/buffer_list.cc:513-1006 | the same for one call: what follows is what RunSpec.Follows says of the bytes and of the places shown |
| `ListRuns.StandsConsistent` | include/buffer/buffer_list.h:607-615 | at every moment a byte in memory shows alike wherever lists show it |
| `RunSpec.Isolated` | common/buffer/buffer_list.cc:692-835 | over a whole run, a list that is given and robbed of nothing, and whose places no write hits, keeps its bytes, whatever happens to the lists it shares raws with |
| `RunSpec.PrivateStays` | common/buffer/buffer_list.cc:713-739 | places that only one list shows stay its own, with their bytes, over any run of calls on other lists, whatever they write |
| `RunSpec.AppendedPrivate` | common/buffer/buffer_list.cc:713-739 | what a list has appended is shown by it alone |
| `RunSpec.WritePatches` | common/buffer/buffer_list.cc:295-313 | a write patches its list where the places are alone, and lists that show the same places stay equal |
| `RunSpec.SharersStayEqual` | include/buffer/buffer_list.h:607-615 | lists that show the same places, as a list and its copy, stay equal over any run that gives and takes neither anything, whatever is written through whichever |
| `RunSpec.CopyShares` | include/buffer/buffer_list.h:607-615 | a copy shows the places of its original |
| `ListIterator.Iterator.constructor` | common/buffer/buffer_list.cc:60-65 | an iterator starts at the given offset, past empty nodes, or there is none exactly when the offset is past the end |
| `ListIterator.Iterator.Advance` | common/buffer/buffer_list.cc:82-102 | moves by off and keeps the absolute offset equal to the bytes before the node and the offset in it; exactly past the end it throws, with the absolute offset still the old one |
| `ListIterator.Iterator.Seek` | common/buffer/buffer_list.cc:66-72 | the position off, or an exception exactly when off is past the end |
| `ListIterator.Iterator.Resume` | common/buffer/buffer_list.cc:131-134 | from the sentinel, also after an exception, back to the last good offset |
| `ListIterator.Iterator.Copy` | common/buffer/buffer_list.cc:130-151 | exactly the next n bytes; an exception exactly when there are fewer, with those copied; no list changes |
| `ListIterator.Iterator.CopyList` | common/buffer/buffer_list.cc:181-200 | the same bytes join another list, and no third list changes |
| `ListIterator.Iterator.NextWindow` | common/buffer/buffer_list.cc:190-199 | one round joins a window on the node, merged where it continues the last one |
| `ListIterator.Iterator.CopyAll` | common/buffer/buffer_list.cc:221-237 | every byte from here on joins another list as a copy, in places that no window showed, and no third list changes |
| `ListIterator.Iterator.CopyDeep` | common/buffer/buffer_list.cc:152-163 | a new raw with the next n bytes; an exception exactly at the sentinel, with dest left alone, or when there are fewer, with those in a new raw |
| `ListIterator.Iterator.CopyShallow` | common/buffer/buffer_list.cc:164-180 | the next n bytes, as a window exactly when the node has them, else as copy_deep, also after an exception |
| `ListIterator.Iterator.GetPtrAndAdvance` | common/buffer/buffer_list.cc:246-265 | a window on the next bytes; the pair of bytes wanted and nodes left goes down even over empty nodes |
| `ListIterator.Iterator.Crc32c` | common/buffer/buffer_list.cc:268-278 | the fold of the next bytes, at most length of them |
| `ListIterator.Iterator.CopyIn` | common/buffer/buffer_list.cc:295-313 | the bytes go, in order, to the places from here on, as many as fit, an exception exactly when not all do; every list, on whatever raws, shows just that, and a place that is alone is patched; with the reset or without one where nothing is remembered |
| `ListIterator.Iterator.CopyInList` | common/buffer/buffer_list.cc:314-331 | the same with the bytes of another list, at most n of them, that lie apart from the places written |
| `ListFiller.NewFiller` | common/buffer/buffer_list.cc:786-805 | the hole is shown once and by this list alone, and no checksum covers it |
| `ListFiller.ContiguousFiller.CopyIn` | include/buffer/buffer_list.h:503-506 | a place shown once is patched, lists that do not show the bytes keep theirs, and the lists on the raw stay sound exactly when the checksum it remembers is still right, surely when it covers none of the bytes |
| `Appenders.ContiguousAppender.constructor` | include/buffer/buffer_list.h:416-421 | the reserved room is there, also for length zero behind a cached node, and nothing is pending; no other list changes |
| `Appenders.ContiguousAppender.Append` | include/buffer/buffer_list.h:439-442 | list and pending bytes together grow by the bytes, in order |
| `Appenders.ContiguousAppender.Flush` | include/buffer/buffer_list.h:423-428 | the pending bytes join the list |
| `Appenders.ContiguousAppender.AppendPtr` | include/buffer/buffer_list.h:454-467 | the same for a ptr, copied in place or joined after what is pending; no other list changes |
| `Appenders.ContiguousAppender.AppendList` | include/buffer/buffer_list.h:468-479 | the same for a list; no other list changes |
| `Appenders.ContiguousAppender.LogicalOffsetForgets` | include/buffer/buffer_list.h:481-483 | the logical offset is the bytes that have joined since the start exactly when no call joined a ptr with bytes, or a list, while in-place bytes were pending; else it is less |
| `Appenders.FlushedOrNot` | include/buffer/buffer_list.h:423-479 | over any calls, what was appended has joined or is pending, and nothing more, exactly when nothing joined over pending bytes |
| `Appenders.OffsetFallsBehind` | include/buffer/buffer_list.h:468-483 | one byte in place and a list of one byte: two bytes appended, an offset of one |
| `Appenders.PageAlignedAppender.Append` | include/buffer/buffer_list.h:541-566 | list and pending bytes together grow by the bytes, across page-aligned raws; no other list changes |
| `Appenders.PageAlignedAppender.NewPage` | include/buffer/buffer_list.h:543-550 | a page-aligned raw of exactly min_pages pages, or of the fewest pages that hold the request if that is more |
| `Appenders.PageAlignedAppender.Flush` | include/buffer/buffer_list.h:532-539 | the pending bytes join the list, and writing goes on behind them in the same raw; no other list changes |
| `ListBase64.CStr` | common/buffer/buffer_list.cc:888-900 | the bytes in one piece, and exactly when the sentinel is read |
| `ListBase64.EncodeBase64` | common/buffer/buffer_list.cc:1019-1025 | the armor of this list joins the other; the buffer of 4n/3+3 bytes always suffices |
| `ListBase64.DecodeBase64` | common/buffer/buffer_list.cc:1027-1041 | what the characters stand for joins this list; an exception exactly for malformed input, never for lack of room |
| `ListBase64.Base64RoundTrip` | common/buffer/buffer_list.cc:1019-1041 | decoding what was encoded gives the bytes back |
| `Chain.Buffers.WalkVisits` | include/buffer/buffer_list.h:74-82 | following next from the root visits the nodes in order and only then comes back to the root |
| `Chain.Buffers.WalkDetermines` | include/buffer/buffer_list.h:74-82 | the links alone determine the sequence of nodes |
| `Chain.Buffers.Move` | include/buffer/buffer_list.h:117-123 | the nodes pass over, the other chain is empty |
| `Chain.Buffers.MoveAssign` | include/buffer/buffer_list.h:125-131 | the same, disposing of the nodes there were |
| `Chain.Buffers.PushBack` | include/buffer/buffer_list.h:133-137 | one node at the end |
| `Chain.Buffers.PushFront` | include/buffer/buffer_list.h:139-143 | one node at the front |
| `Chain.Buffers.Empty` | include/buffer/buffer_list.h:145-147 | the tail is the root exactly when there is no node |
| `Chain.Buffers.EraseAfter` | include/buffer/buffer_list.h:209-219 | the node after the position goes, also the last one |
| `Chain.Buffers.InsertAfter` | include/buffer/buffer_list.h:228-233 | one node after the position, also after the root or the tail |
| `Chain.Buffers.SpliceBack` | include/buffer/buffer_list.h:235-246 | the other chain's nodes join the end, the other chain is empty |
| `Chain.Buffers.Swap` | include/buffer/buffer_list.h:182-197 | the two sequences change places, whichever is empty |
| `Chain.Buffers.ClearAndDispose` | include/buffer/buffer_list.h:199-207 | every node is disposed of once, in order |
| `Chain.Buffers.CloneFrom` | include/buffer/buffer_list.h:248-254 | new nodes on the same windows in the same order; the other chain stays |
| `ListOnChain.Collect` | include/buffer/buffer_list.h:74-82 | following the links from the root and reading the windows gives the list's flat bytes |
| `ListOnChain.PushNode` | include/buffer/buffer_list.h:680-691 | a node pushed on the chain is the list's new node |
| `ListOnChain.InsertNode` | include/buffer/buffer_list.h:228-233 | a node inserted in the chain is a node inserted in the list at the same place |
| `ListOnChain.EraseNode` | include/buffer/buffer_list.h:209-219 | a node taken out of the chain is taken out of the list |
| `ListOnChain.NarrowNode` | common/buffer/buffer_list.cc:980-990 | a window narrowed in its hook is narrowed in the list |
| `ListOnChain.ClearBoth` | include/buffer/buffer_list.h:674-679 | disposing of the chain's nodes is clear of the list |
| `ListOnChain.ClaimBoth` | common/buffer/buffer_list.cc:669-683 | relinking one chain behind another is claim_append of the lists |
| `ListOnChain.CopyBoth` | include/buffer/buffer_list.h:607-615 | cloning a chain is the copy of the list |
| `RawRelease.StepInv` | common/buffer/buffer_ptr.cc:14-29 | every step keeps: live with the count of holders, or no holder and one deletion |
| `RawRelease.DeletedOnceAndUnheld` | common/buffer/buffer_ptr.cc:14-29 | in every interleaving the raw is deleted at most once, and not while a holder remains |
| `RawRelease.DeletedInTheEnd` | common/buffer/buffer_ptr.cc:14-29 | when every holder has released, the raw has been deleted exactly once |
| `RawRelease.NoUseAfterDelete` | common/buffer/buffer_ptr.cc:19-26 | no step that reads or writes the count comes after the deletion, and the count never wraps |
| `RawRelease.CopyFromReleasedBreaks` | common/buffer/buffer_ptr.cc:50-56 | a copy from a ptr that is being released can leave a holder of a deleted raw |
| `Deleter.Store.Drop` | include/deleter.h:116-126 | exactly what ends, in order: a plain object is freed; one name of a shared impl goes; with the last name the action of the impl runs, then all that the deleter it carries lets go, then all that its next one does; the rest of the graph stays and is sound |
| `Deleter.Store.Delete` | include/deleter.h:122-125 | the last name's going runs the impl's action and releases what it holds |
| `Deleter.Store.MakeFree` | include/deleter.h:243-253 | a deleter of a plain object, empty for a null pointer |
| `Deleter.Store.Make` | include/deleter.h:171-174 | a new impl with its action over the deleter that was given |
| `Deleter.Store.MoveTo` | include/deleter.h:40-44 | the target passes over, the source is empty |
| `Deleter.Store.Assign` | include/deleter.h:128-134 | the old target is destroyed, with the same order of actions, and the new one passes over; nothing at all on self-assignment |
| `Deleter.Store.Share` | include/deleter.h:198-208 | both deleters name one impl, a plain object being wrapped first |
| `Deleter.Store.Destroy` | include/deleter.h:116-126 | the same for the variable of a client, which goes; the other clients keep theirs |
| `DeleterUnwind.OwnThenHeldThenNext` | include/deleter.h:136-159 | when the last name of an impl goes, its own end is first, then come ends of things that its held deleter leads to, then of things that its next one leads to |
| `DeleterUnwind.EndedIds` | include/deleter.h:122-125 | what ends was in use and is not any more |
| `DeleterUnwind.EndedFrom` | include/deleter.h:116-126 | only what the deleter leads to ends |
| `DeleterUnwind.ChainUnwinds` | include/deleter.h:116-126 | a chain that is one client's own ends in its order, each impl followed by what it carries, and what the end of the chain names comes last |
| `Deleter.OwnActionFirst` | include/deleter.h:136-147 | an action over a next deleter with another: the impl's own action has run first |
| `Deleter.Store.Append` | include/deleter.h:214-241 | the next members lead from the deleter to the appended one, through one impl for each target there was before it: the impl itself if it had one name, a wrapper that carries it if it was shared, a new impl with its action for a plain object; no action runs, except that of a plain object the chain has already; shared impls met, and only they, lose their next deleters, and impls off the way keep all they have; the way is then the client's own chain, so that the appended deleter ends last (`DeleterUnwind.ChainUnwinds`), and every impl keeps its names |
| `Deleter.Store.Finish` | include/deleter.h:116-126 | when the clients' deleters have gone one by one, every action has run as often as it was handed in |
| `Deleter.Store.AllGone` | include/deleter.h:50-51 | without clients nothing is left, and every action has run as often as it was handed in |
| `Deleter.Store.FiredWhenUnheld` | include/deleter.h:13-22 | an action has run exactly when no deleter is left that would run it |
| `Deleter.Store.InUseIffReached` | include/deleter.h:98-114 | an impl lives exactly as long as a client's deleter leads to it |
| `DeleterGraph.PathThroughWrapper` | include/deleter.h:231-233 | wrapping a shared impl extends the way that only this client has |
| `DeleterGraph.RaiseFalls` | include/deleter.h:239-240 | ranks can be raised along that way, so that linking makes no cycle |
| `DeleterGraph.StandsOn` | include/deleter.h:224-240 | one round of the walk passes one target of the chain and adds the impl that stands for it |
| `DeleterGraph.SharersKeepNext` | include/deleter.h:231-233 | the other sharers keep their next deleters exactly when no shared impl on the chain has one |
| `Deleter.SharerLosesNext` | include/deleter.h:214-241 | a run in which the next deleter's action runs while a sharer is left |
| `Deleter.AppendedActionLast` | include/deleter.h:214-241 | a run in which a shared impl is wrapped: its action runs before that of its old next deleter, and the appended one runs last |
| `DeleterRuns.Run` | include/deleter.h:98-241 | any run of making, moving, assigning, sharing, appending and destroying keeps the graph sound and the actions accounted for, and when the last deleter has gone every action has run as often as it was handed in |
| `DeleterRuns.RunOrWaiting` | include/deleter.h:13-22 | at every moment of a run an action handed in once has run, or waits where a client's deleter leads to it, and not both |
| `Armor.BitsRoundTrip` | common/encode/armor.c:14-45 | decoding a character gives its six bits, and no character is padding or a newline |
| `Armor.RoundTrip` | common/encode/armor.c:59-146 | decoding the armor of any bytes, at any line width, gives them back |
| `Armor.EncodedLength` | common/encode/armor.c:59-103 | the armor is four characters for every three bytes begun, and 4n/3+3 bytes hold it |
| `Armor.RoomSuffices` | common/encode/armor.c:110-146 | with three bytes for four characters decoding never runs out of room |
| `Armor.UrlSafeDecodes` | common/encode/armor.c:35-40 | the alphabet of section 5 of RFC 4648 decodes to the same bytes |
| `ArmorText.AlphabetIs` | common/encode/armor.c:14-22 | value c is encoded as character c of the alphabet of section 4 of RFC 4648 |
| `ArmorText.DecodesTo` | common/encode/armor.c:24-45 | a character decodes to its place in that alphabet, to 62 or 63 for the two of section 5, to 0 for padding, and to nothing otherwise |
| `ArmorText.GroupIsDigits` | common/encode/armor.c:70-93 | the characters of a group are the digits to base 64 of its bytes as one number, as many as are needed, and padding |
| `ArmorText.OutIsNumber` | common/encode/armor.c:125-142 | four characters give the bytes of the number that their values are the digits of, fewer with padding |
| `ArmorText.BytesOf` | common/encode/armor.c:125-142 | any four digits are those of some three bytes |
| `ArmorText.PlainAt` | common/encode/armor.c:70-95 | group g of the armor is made of the bytes from 3g on |
| `ArmorText.BreaksLines` | common/encode/armor.c:95-100 | with a line width that is a multiple of four the armor is the plain one in lines of that width |
| `ArmorText.NoBreaks` | common/encode/armor.c:95-100 | with any other width there are no line breaks |
| `ArmorText.PlainDecodes` | common/encode/armor.c:110-146 | a text without padding and line breaks is malformed exactly when it is not made of groups of four known characters, and else decodes group by group |
| `Armor.ArmorLineBreak` | common/encode/armor.c:59-103 | writes exactly the armor with its line breaks, or ERANGE exactly when it does not fit |
| `Armor.Unarmor` | common/encode/armor.c:110-146 | writes exactly the decoded bytes, with every error where the decoding has it |
| `WriteFd.Resume` | common/buffer/buffer_list.cc:1297-1312 | what is left of a vector after a short write is the bytes after it; the loop stops inside the vector, and no finished piece stays at its front |
| `WriteFd.FlushBatch` | common/buffer/buffer_list.cc:1284-1316 | a batch reaches the stream once and in order, whatever the kernel accepts; only interruptions are retried, any other error ends the call with minus its number, and no call is made after all is written |
| `WriteFd.WriteAll` | common/buffer/buffer_list.cc:1269-1319 | the stream gets a prefix of the flat bytes; the result is minus the error number exactly when the last call failed other than by interruption, and no earlier one did; else it is zero and all bytes are there; a kernel that serves every call in full gets IOV_MAX nodes with bytes in every call but the last |
| `WriteFd.DoWritev` | common/buffer/buffer_list.cc:1321-1352 | the file gets exactly the vector's bytes at the offset once the kernel serves, every failed call being retried |
| `WriteFd.DoWritevRounds` | common/buffer/buffer_list.cc:1321-1352 | after any number of calls the file has exactly the bytes taken so far, it is done exactly when all are taken, and no call is made after that |
| `WriteFd.TakenIsOffered` | common/buffer/buffer_list.cc:1324-1335 | what has been taken is what the calls that did not fail offered, or all: it returns exactly when the offers add up to the bytes |
| `WriteFd.NeverTaken` | common/buffer/buffer_list.cc:1328-1331 | a kernel that fails or takes nothing in every call keeps it for ever |
| `WriteFd.WriteAllAt` | common/buffer/buffer_list.cc:1354-1380 | the file gets exactly the flat bytes at the offset |
| `WriteFd.WrittenJoin` | common/buffer/buffer_list.cc:1340-1350 | two writes one behind the other are one write |

## Left out

- CrcTables.TurboRowIsZeroRun: row 0 is compared with the printed one (`CrcRemainder.FirstRowPrinted`); the printed entries of the other rows, which follow from it by squaring, are not.
- CrcTables.SliceEntry: the byte table is compared with the printed one at the powers of two (`CrcRemainder.OneBit`), which with linearity fixes all of it (`CrcRemainder.TablePrinted`); the printed entries of the other seven are not.
- CrcSoftware.SliceBy8: models the little-endian path; the big-endian variant is not part of this model.
- BufferList.List.ListCrc32c: requires nodes shorter than 2^32, which `Crc32c.NarrowedLength` shows to be exactly where the narrowed length does no harm; so do ListIterator.Iterator.Crc32c and ListRuns.Run.
- BufferList.List.Splice: takes off + n unbounded; its wrap-around in 64 bits is not modelled.
- BufferList.List.RebuildAligned: takes alignment of an address as divisibility, which is the source's bit test for powers of two, and promises nothing of the state after the sentinel has been read.
- ListIterator.Iterator.CopyIn: without the checksum reset it is modelled where no raw of the list remembers a checksum; a single write without one is exact at `BufferRaw.Raw.CopyIn`.
- ListIterator.Iterator.CopyInList: requires that the bytes read and the places written lie apart, since memcpy has no meaning on overlapping memory.
- ListRuns.Run: leaves out rebuild_aligned, which can leave a dangling cache, fillers, whose effect on every list is stated at ListFiller.ContiguousFiller.CopyIn, and calls that read a sentinel.
- Appenders.ContiguousAppender.Append: assumes in-place bytes within the reserved room and no other use of the list meanwhile.
- Deleter.Store.Append: bounds nothing about the count of 32 bits that refs has.
- ListOnChain.ClaimBoth: joins list and chain for the primitive changes of nodes; the longer list operations are proved on the sequence of windows.
- Reference counts and reclamation of raws inside List: RawRelease has the counting; a raw is never reused in List.
- A raw's bytes are one sequence-valued field; single bytes are written by replacing it.
- malloc, the raw subclasses, hypercombined nodes and mempool accounting: an allocator returns a fresh raw of the given length and alignment.
- Self-aliasing calls (append(*this), substr_of(*this), self move) and callers that shrink shared windows with set_length or set_offset.
- contents_equal, swap and prepend_zero of lists, push_back of an owned node, hexdump, streams and file reading.
- The kernel's instructions are modelled by what they compute, not as an instruction emulator; CPU probing is a parameter.
- WriteFd.WriteAll: a script of replies stands for the kernel; one that interrupts every call for ever is left out here, as do_writev has the same case at WriteFd.DoWritevRounds.
- compact_map, compact_set, utime_t, clocks and backtraces.
