# Models of a network engine's stateful cores

Dafny models of the parts of a game network engine (and of the library it carries) whose
correctness rests on state: a range coder, a record cache, an index with tombstones, a memory
pool, two concurrent protocols, a bit stream, an address index, a random number generator, an
image filter and a ring queue. Code that changes objects in place is modelled by classes and
loops; what it computes is stated against specification functions, and the promises are proved
about those.

`dafny verify dfyconfig.toml` checks everything.

| files | what they model |
|---|---|
| RangeCoderModel, RangeCoderRoundTrip, RangeAnswers, TextTables, RangeEncoder, TextLength, RangeDecoder, RangeCoderSession | the carryless 64-bit range coder, its table look-up and text modes |
| BombayTrees, BombayTable | the record cache: hash buckets of parent-linked search trees over a circular slot array |
| PoolPages, MemoryPool | the page and cell pool: two circular doubly linked lists, a free stack in each page |
| LogThread | the logger: two lists swapped under a lock, a flag and a wakeup, any number of writers |
| SpscQueue | the single-producer single-consumer byte ring and its sizing |
| Bits, BitCodec, BitStream | the bit stream over a growable buffer and the typed reads and writes |
| ProbeCycle, TableIndex | the open-addressing index at a fixed size and its probe sequence |
| RemoteIndex | the hash chains that find remote systems by address |
| MersenneTwister | the random number generator |
| PngUnfilter | undoing scanline filters in place |
| ArrayQueue | the growing ring queue |
| PowersOfTwo, Collections, Wrappers | arithmetic, bitwise operations and collections the others share |

## What the model says about the code

* Range coder. Every byte shifted out is the top byte of every code value left in the interval,
  so no carry reaches emitted output, and every nonempty sequence of symbols comes back. The
  first field may be a biased bit of any frequency from 1 to 2^32 - 1: a frequency below 2^24
  only makes the interval narrower. On a message that no encoder wrote the decoder still ends,
  never divides by 0, and writes text only inside the buffer. A biased bit always leaves it in
  step with some encoder, and `Range` does if the symbol it returns is below the total. A first
  `Range` may return the total itself; a later one may return anything if its quotient does not
  fit in 32 bits. The search table has 256 entries (8 bits of the frequency), as the code has
  it; a comment beside its constants speaks of 4 bits. The last bytes are as few as possible,
  as a comment says, except that two are written where one would do whenever the interval is
  narrower than 2^56 and ends between two multiples of 2^56. The choice of the text mode costs a
  text at most one byte over the uniform mode. Text stops, when decoded, at the first
  character the tables do not know. Ghost parameters of the decoder's methods carry the history
  of the encoder that wrote the message.
* Bit stream. `ReadMini` after `WriteMini` fails for exactly one family of values: all bytes above
  the lowest are compressed away, and the upper half of the lowest byte is the one that is
  compressed away but not put back. These are sixteen values of each width; of the unsigned numbers
  240 to 255. Everything else comes back at any bit offset. Bits behind those
  of a left-aligned last byte reach the stream up to the end of its last byte; they do no harm
  exactly if they are zero. The bit counters have 32 bits: growth makes room exactly if the number
  of bits, with the 2^20 it adds and rounding up, stays below 2^32.
* SPSC queue. When the number of bytes asked for is a power of two, the buffer holds `nSize`
  bytes and not `nSize` elements. A queue that asks for at most 2^31 bytes is first-in first-out
  exactly when the size of an element is a power of two; if the element is then larger than the
  buffer, no call returns, and otherwise a call returns as soon as there is room, or an element.
* Record cache. `InsertOffset` of an offset that is cached, other than in the slot that is given
  up for it, leaves two slots that hold the offset.
* Table index. The generator has the full period for every power of two of slots, which is
  proved and not taken from its comment. A look-up of an absent hash ends exactly while some slot
  is not flagged. In any table of at least four slots, insertions and removals with at most two
  entries at a time can flag every slot, and then no look-up in the empty table ends, except that
  of hash 0, which does not probe. A hash inserted while it is held lies in two slots, and no
  content fits the table any more.
* Remote systems. A slot referenced for the null address and then for another one, without being
  dereferenced in between, is in two chains, or twice in one; nothing else leads to that.
* Random numbers. A generator that is used before it is seeded seeds the shared generator, not
  itself; only for the shared one does that give the sequence of seed 4357.
* Logger. It cleans up only when told to die or when waiting fails, and told to die it does so
  with everything delivered; the second call of RunList in Cleanup never finds anything. Every
  message is listed, given to the backend by its writer, or dropped at a full list. After the
  frontend has been reset, and before it has been set, writers call the backend themselves; the
  order between their messages and the listed ones is not promised.
* Ring queue. `InsertAtIndex` into an empty queue inserts the element and returns false. With an
  initial size of one, the first push leaves the tail outside the array, and every pop from the
  head yields that element again. Taking it from the tail, a clear, or a shrink mends the queue;
  another push would write outside the array, and a removal by position would not end.

## Model

| member | source | states |
|---|---|---|
| `RangeCoderModel.NoCarry` | thirdparty/cat/src/codec/RangeCoder.cpp:368-386 | a byte shifted out is the top byte of every value left in the interval, also after the underflow branch has cut the range |
| `RangeCoderModel.TopByte` | thirdparty/cat/src/codec/RangeCoder.cpp:370 | the comparison of the "exclusive or" with 2^56 tells whether the top bytes agree |
| `RangeCoderModel.ClipAtBoundary` | thirdparty/cat/src/codec/RangeCoder.cpp:368-386 | the underflow branch cuts the interval at the next multiple of 2^56 and never enlarges it |
| `RangeCoderModel.ShiftOutIsLegal` | thirdparty/cat/src/codec/RangeCoder.cpp:368-386 | one turn keeps `low + range <= 2^64` and lowers a lexicographic measure although the range may shrink |
| `RangeCoderModel.ShiftKeepsLive` | thirdparty/cat/src/codec/RangeCoder.cpp:631-646 | from every registers whose range is not 0, also those that no encoder reaches, one turn leaves a range that is not 0 and lowers a measure |
| `RangeCoderModel.Normalize` | thirdparty/cat/src/codec/RangeCoder.cpp:368-386 | from every legal state renormalisation ends, with range at least 2^48, differing top bytes, the sum still at most 2^64, and earlier output untouched |
| `RangeCoderModel.EncodeOpIsLegal` | thirdparty/cat/src/codec/RangeCoder.cpp:466-514 | coding any valid symbol from a ready state leaves a legal one and only appends output |
| `RangeCoderModel.NarrowBounds` | thirdparty/cat/src/codec/RangeCoder.cpp:466-514 | a symbol's slice is a nonempty part of the interval |
| `RangeCoderModel.UniformStep` | thirdparty/cat/src/codec/RangeCoder.cpp:500-514 | in 64-bit arithmetic the uniform coding neither overflows nor differs from the slice |
| `RangeCoderModel.BitStep` | thirdparty/cat/src/codec/RangeCoder.cpp:466-497 | the same for a biased bit, including the very first one |
| `RangeCoderModel.TableStep` | thirdparty/cat/src/codec/RangeCoder.cpp:428-447 | the same for a table symbol |
| `RangeCoderRoundTrip.NormalizeBack` | thirdparty/cat/src/codec/RangeCoder.cpp:368-386 | if the rest of a message lies in the interval after renormalising, it did before |
| `RangeCoderRoundTrip.EncodeOpBack` | thirdparty/cat/src/codec/RangeCoder.cpp:466-514 | if the rest of a message lies in the interval after a symbol, it lay in the symbol's slice |
| `RangeCoderRoundTrip.FinishInside` | thirdparty/cat/src/codec/RangeCoder.cpp:517-547 | the at most two bytes written at the end name, read with zeros behind them, a value of the interval |
| `RangeCoderRoundTrip.FinishShort` | thirdparty/cat/src/codec/RangeCoder.cpp:517-547 | no other way to complete the bytes shifted out is shorter if the range is at least 2^56, and none by more than one byte otherwise |
| `RangeCoderRoundTrip.FinishShortest` | thirdparty/cat/src/codec/RangeCoder.cpp:519 | the number of last bytes is minimal if and only if low is 0, the range is at least 2^56, or the interval ends at a multiple of 2^56 |
| `RangeCoderRoundTrip.FinishLargest` | thirdparty/cat/src/codec/RangeCoder.cpp:528-545 | of the messages of that length the last bytes are the largest |
| `RangeCoderRoundTrip.LocateInverts` | thirdparty/cat/src/codec/RangeCoder.cpp:649-690 | searching for any value of a symbol's slice finds that symbol |
| `RangeCoderRoundTrip.NormalizeInStep` | thirdparty/cat/src/codec/RangeCoder.cpp:631-646 | the decoder renormalises exactly as the encoder did |
| `RangeCoderRoundTrip.DecodeFollowsEncode` | thirdparty/cat/src/codec/RangeCoder.cpp:738-798 | decoding one symbol returns the encoded one and leaves equal registers |
| `RangeCoderRoundTrip.RoundTrip` | thirdparty/cat/src/codec/RangeCoder.cpp:466-547 | every nonempty sequence of fields, encoded and finished, decodes from exactly the emitted bytes to itself, the registers of decoder and encoder being equal after every symbol |
| `TextTables.WriteLut` | thirdparty/cat/src/codec/RangeCoder.cpp:190-209 | the look-up table bounds, for every high byte, the last frequency not above it, looking at the frequencies before the first larger one |
| `TextTables.LutBrackets` | thirdparty/cat/src/codec/RangeCoder.cpp:649-690 | the bounds for a frequency contain the symbol that is searched |
| `TextTables.KnownPrefix` | thirdparty/cat/src/codec/RangeCoder.cpp:693-734 | a text decodes up to the first character that is not in the tables |
| `RangeEncoding.RangeEncoder.NormalizeRegisters` | thirdparty/cat/src/codec/RangeCoder.cpp:368-386 | the loop over registers and output buffer computes the specified renormalisation, or fails exactly for want of room |
| `RangeEncoding.RangeEncoder.Range` | thirdparty/cat/src/codec/RangeCoder.cpp:500-514 | codes a symbol of equal parts as specified |
| `RangeEncoding.RangeEncoder.BiasedBit` | thirdparty/cat/src/codec/RangeCoder.cpp:466-497 | codes a biased bit as specified, with the first-symbol case |
| `RangeEncoding.RangeEncoder.GetTableSymbol` | thirdparty/cat/src/codec/RangeCoder.cpp:389-410 | yields the symbol's number and slice from the cumulative table |
| `RangeEncoding.RangeEncoder.Text` | thirdparty/cat/src/codec/RangeCoder.cpp:413-462 | codes the string in the mode that the order-1 attempt's length decides, whatever the tables, from the state before the attempt |
| `TextLength.Order1IsShort` | thirdparty/cat/src/codec/RangeCoder.cpp:439-461 | a text left in the order-1 mode adds at most one byte more to the output than the uniform mode would, if the tables carry the logarithm of their total |
| `TextLength.UniformWhenLong` | thirdparty/cat/src/codec/RangeCoder.cpp:439-461 | a text is coded in the uniform mode only if the order-1 attempt took the bytes its characters need there, but for one byte and one bit in each 4096 characters |
| `TextLength.ModeInFirstByte` | thirdparty/cat/src/codec/RangeCoder.cpp:421-450 | a message that starts with a text starts with the byte 255 if and only if the text is in the uniform mode |
| `RangeEncoding.RangeEncoder.FinishMessage` | thirdparty/cat/src/codec/RangeCoder.cpp:517-547 | completes the message with the specified last bytes if there is room, and fails exactly if there is not or nothing was coded |
| `RangeDecoding.RangeDecoder.NormalizeRegisters` | thirdparty/cat/src/codec/RangeCoder.cpp:631-646 | from any registers whose range is not 0 the loop ends with a range of at least 2^48 and `code` is the eight message bytes at the cursor, zero-extended |
| `RangeAnswers.AnswersInField` | thirdparty/cat/src/codec/RangeCoder.cpp:778-798 | the message has a symbol of the field here if and only if the code register points into the part of the interval that the symbols share |
| `RangeDecoding.RangeDecoder.Range` | thirdparty/cat/src/codec/RangeCoder.cpp:778-798 | on any message and from any registers: the symbol is what 32 bits hold of the quotient, and the range is not 0 afterwards; if the registers were in step, the symbol is below the total exactly if the code register points into the field or the quotient overflows, and then they go on as those of an encoder that coded it |
| `RangeAnswers.UniformNextMoves` | thirdparty/cat/src/codec/RangeCoder.cpp:778-798 | from any registers the new range is the largest that fits total times, and every symbol moves the interval up by it |
| `RangeAnswers.TotalItself` | thirdparty/cat/src/codec/RangeCoder.cpp:782-786 | on eight bytes 255 a first field of any total decodes to the total itself |
| `RangeDecoding.RangeDecoder.BiasedBit` | thirdparty/cat/src/codec/RangeCoder.cpp:738-775 | on any message and from any registers the range is not 0 afterwards; if they were in step, they go on as those of an encoder that coded the bit returned; on a message that has the field here the bit is the one encoded |
| `RangeDecoding.RangeDecoder.GetTableSymbol` | thirdparty/cat/src/codec/RangeCoder.cpp:649-690 | the binary search between the table bounds finds the unique symbol whose slice holds the frequency |
| `RangeDecoding.RangeDecoder.Text` | thirdparty/cat/src/codec/RangeCoder.cpp:693-734 | on any message and from any registers: ends, writes a zero-terminated string into the buffer and nothing behind it; where an encoder wrote a text, that text comes back in either mode, cut where the tables or the buffer end |
| `RangeCoderSession.WriteFields` | thirdparty/cat/src/codec/RangeCoder.cpp:466-547 | an encoder object fails exactly when the message does not fit and otherwise leaves it in the buffer |
| `RangeCoderSession.ReadFields` | thirdparty/cat/src/codec/RangeCoder.cpp:553-646 | a decoder object over a finished message returns the encoded symbols |
| `RangeCoderSession.ReadAny` | thirdparty/cat/src/codec/RangeCoder.cpp:553-798 | reading any fields from any message ends; as long as every symbol belongs to its field the registers are those of an encoder that coded these symbols |
| `RangeCoderSession.WriteText` | thirdparty/cat/src/codec/RangeCoder.cpp:413-462 | the same as WriteFields for a string |
| `RangeCoderSession.ReadText` | thirdparty/cat/src/codec/RangeCoder.cpp:693-734 | the string comes back up to the first unknown character, as far as the buffer has room |
| `RangeCoderSession.TextComesBackWhole` | thirdparty/cat/src/codec/RangeCoder.cpp:693-734 | the whole string comes back if and only if the tables know all its characters |
| `BombayTrees.UnlinkKeeps` | thirdparty/cat/src/db/BombayTable.cpp:157-250 | unlinking removes one key, keeps the search order and the other keys |
| `BombayTrees.InsertKeeps` | thirdparty/cat/src/db/BombayTable.cpp:253-303 | inserting adds one key and keeps the search order |
| `BombayTrees.UnlinkRep` | thirdparty/cat/src/db/BombayTable.cpp:157-250 | the relinked nodes represent the tree without the key, parent links included |
| `BombayTrees.InsertRep` | thirdparty/cat/src/db/BombayTable.cpp:253-303 | the same for insertion |
| `BombayTrees.FindWorks` | thirdparty/cat/src/db/BombayTable.cpp:136-154 | the walk down finds a key if and only if the tree holds it |
| `BombayTrees.HintSurvivesUnlink` | thirdparty/cat/src/db/BombayTable.cpp:306-354 | an insertion hint stays on the search path of its key when another node is unlinked, even if the tree is rearranged |
| `BombayTable.Table.FindNode` | thirdparty/cat/src/db/BombayTable.cpp:136-154 | returns the slot that holds the offset, or none |
| `BombayTable.Table.UnlinkNode` | thirdparty/cat/src/db/BombayTable.cpp:157-250 | takes a node out of its bucket's tree and leaves all others findable |
| `BombayTable.Table.InsertNode` | thirdparty/cat/src/db/BombayTable.cpp:253-303 | hangs a node below a hint, with the same result as searching from the root |
| `BombayTable.Table.Evict` | thirdparty/cat/src/db/BombayTable.cpp:306-354 | gives up the oldest slot and repairs a hint that was the evicted node |
| `BombayTable.Table.SetOffset` | thirdparty/cat/src/db/BombayTable.cpp:306-354 | returns the slot of the offset; an uncached one is pushed into the queue of slots |
| `BombayTable.Table.InsertOffset` | thirdparty/cat/src/db/BombayTable.cpp:357-382 | the offset is pushed into the queue; the cache stays valid if the offset is not cached other than in the oldest slot, and otherwise two slots hold it |
| `BombayTable.Table.PeekOffset` | thirdparty/cat/src/db/BombayTable.cpp:385-390 | finds the offset if and only if it is in the queue |
| `BombayTable.Table.RemoveOffset` | thirdparty/cat/src/db/BombayTable.cpp:393-404 | erases the offset from the queue, keeping its place in it |
| `BombayTable.Table.FifoHolds` | thirdparty/cat/src/db/BombayTable.cpp:136-154 | an offset is linked into a tree if and only if it is in the queue |
| `BombayTable.Table.EraseIsSlot` | thirdparty/cat/src/db/BombayTable.cpp:393-404 | erasing from the queue is emptying one slot |
| `BombayTable.RunIsAges` | thirdparty/cat/src/db/BombayTable.cpp:306-404 | after any run of operations, in which no cached offset is inserted, the queue holds exactly the offsets inserted, not removed since, and not pushed out by as many later insertions as there are slots |
| `BombayTable.RunOnTable` | thirdparty/cat/src/db/BombayTable.cpp:306-404 | a cache object after such a run holds in its trees exactly those offsets |
| `BombayTable.InsertTwice` | thirdparty/cat/src/db/BombayTable.cpp:357-382 | in every cache of two or more slots, inserting any offset twice leaves it in two slots |
| `PoolPages.Unhook` | include/JackieMemoryPool.h:113-119 | taking a page out of a circular list leaves a circular list of the others, and other lists as they are |
| `PoolPages.HookBefore` | include/JackieMemoryPool.h:126-132 | putting a page before the head makes it the last of the circular list |
| `PoolPages.CellsOfPages` | include/JackieMemoryPool.h:106-214 | free and outstanding cells of any pages together are cells per page times pages |
| `PoolPages.TakeMoves` | include/JackieMemoryPool.h:112-134 | handing out a page's last free cell moves it between the lists and keeps the books |
| `PoolPages.GiveDrops` | include/JackieMemoryPool.h:193-212 | giving up an entirely free page forgets its cells and nothing else |
| `MemoryPool.JackieMemoryPool.constructor` | include/JackieMemoryPool.h:95-103 | an empty pool in which nothing is outstanding |
| `MemoryPool.JackieMemoryPool.InitPage` | include/JackieMemoryPool.h:64-92 | a new page knows its cells, they know it, and all are on its stack |
| `MemoryPool.JackieMemoryPool.Allocate` | include/JackieMemoryPool.h:106-146 | hands out the top cell of the first usable page, which is not outstanding; a page that gives its last cell goes to the end of the other list; a page is made only if no page has a free cell |
| `MemoryPool.JackieMemoryPool.Reclaim` | include/JackieMemoryPool.h:147-214 | takes an outstanding cell back on top of its page's stack; a page that had none free goes to the end of the usable list; a page is given up if and only if all its cells are back and more pages than the limit are usable |
| `MemoryPool.JackieMemoryPool.Clear` | include/JackieMemoryPool.h:215-260 | visits every page of both lists exactly once, in ring order, and ends |
| `MemoryPool.JackieMemoryPool.PagesByFreeCells` | include/JackieMemoryPool.h:106-214 | the lists hold exactly the pages with some and with no free cell, and at most the limit of pages are entirely free |
| `MemoryPool.JackieMemoryPool.NewPageWhenAllOut` | include/JackieMemoryPool.h:106-146 | the usable list is empty if and only if every cell of every page is outstanding |
| `MemoryPool.JackieMemoryPool.Conservation` | include/JackieMemoryPool.h:106-214 | free plus outstanding cells are cells per page times the two page counters |
| `LogThread.ApplyKeeps` | thirdparty/cat/src/io/LogThread.cpp:68-185 | every step of every thread keeps the invariant of the protocol |
| `LogThread.DeliveredInOrder` | thirdparty/cat/src/io/LogThread.cpp:68-98 | in every reachable state what was delivered is a prefix of what was accepted and the lists hold exactly the rest, in order |
| `LogThread.CleanupDeliversAll` | thirdparty/cat/src/io/LogThread.cpp:100-108 | when Cleanup has returned every accepted message has been delivered |
| `LogThread.NoLostWakeup` | thirdparty/cat/src/io/LogThread.cpp:123-144 | a logger that waits or is about to, with messages pending, has a wakeup, or a writer has decided to signal, or the flag is clear and a writer that accepted a message is still before testing it |
| `LogThread.LoggerAdvances` | thirdparty/cat/src/io/LogThread.cpp:110-148 | while messages are pending and no writer is busy the logger is never blocked and comes closer to delivering |
| `LogThread.LoggerDrains` | thirdparty/cat/src/io/LogThread.cpp:110-148 | then its own steps alone deliver everything accepted |
| `LogThread.NeverStuck` | thirdparty/cat/src/io/LogThread.cpp:110-185 | from every reachable state the steps of the busy writers and then of the logger deliver everything accepted |
| `LogThread.CleansUpOnlyWhenTold` | thirdparty/cat/src/io/LogThread.cpp:123-148 | in every reachable state the logger is in Cleanup only if it was told to die or a wait has failed |
| `LogThread.DieEnds` | thirdparty/cat/src/io/LogThread.cpp:56-62 | from every reachable state, once the logger is told to die, the steps of the busy writers, the wakeup and the logger's own steps end it, with everything delivered and the frontend reset |
| `LogThread.FrontendIsSet` | thirdparty/cat/src/io/LogThread.cpp:120-121 | in every reachable state messages are listed unless the logger has not started or is in Cleanup |
| `LogThread.LoggerSettles` | thirdparty/cat/src/io/LogThread.cpp:123-144 | while nobody writes a running logger comes to wait, with no wakeup given, no flag raised and everything delivered |
| `LogThread.OneTurnEach` | thirdparty/cat/src/io/LogThread.cpp:123-144 | a wakeup costs the logger one turn: one look at an empty list, or one pass over the messages of a list, in exactly so many steps |
| `LogThread.NoMessageLost` | thirdparty/cat/src/io/LogThread.cpp:150-185 | in every reachable state each message logged is once among the accepted ones, or was given to the backend by its writer, or was dropped, or is in the hands of the writer in the lock |
| `LogThread.WriteEnds` | thirdparty/cat/src/io/LogThread.cpp:150-185 | a writer let finish has listed its message, marked if it fills the list, with the flag up and a wakeup given exactly if the flag was down; or met a full list; or, without the frontend, given it to the backend |
| `LogThread.SecondRunFindsNothing` | thirdparty/cat/src/io/LogThread.cpp:106-107 | when Cleanup calls RunList for the second time both lists are empty and everything is delivered |
| `LogThread.NothingAfterCleanup` | thirdparty/cat/src/io/LogThread.cpp:100-108 | after Cleanup nothing is listed, delivered or dropped any more |
| `LogThread.DroppedOnlyWhenFull` | thirdparty/cat/src/io/LogThread.cpp:150-170 | a message is dropped only if a full list is pending, and only the one that fills the list has its source replaced |
| `SpscQueue.RoundUpPower2` | include/JackieSPSCQueue.h:118-125 | the least power of two not below the value, or zero above 2^63 |
| `SpscQueue.PushTurn` | include/JackieSPSCQueue.h:42-68 | one turn of the loop puts in as much of what the last turn left over as there is room for, and only a turn that puts in a whole element is the last, for all sizes |
| `SpscQueue.PopTurn` | include/JackieSPSCQueue.h:76-102 | the same for taking out |
| `SpscQueue.BufferSize` | include/JackieSPSCQueue.h:16-27 | the size of the buffer for every number and size of elements, with the 32-bit product |
| `PowersOfTwo.Exponent` | include/JackieSPSCQueue.h:117 | the bit test for powers of two picks out exactly them |
| `PowersOfTwo.Mask` | include/JackieSPSCQueue.h:58-61 | masking with a power of two less one is taking the remainder |
| `SpscQueue.PowersTile` | include/JackieSPSCQueue.h:16-27 | the buffer made for any number and size of elements is a power of two; elements tile it, or do not fit at all, exactly if their size is a power of two |
| `SpscQueue.ProducerKeeps` | include/JackieSPSCQueue.h:39-71 | no step of a push overwrites an unread element, with wrapping counters |
| `SpscQueue.ConsumerKeeps` | include/JackieSPSCQueue.h:73-105 | no step of a pop reads anything but the oldest unread element |
| `SpscQueue.CopiesAreDisjoint` | include/JackieSPSCQueue.h:39-105 | the two threads never copy in the same place at the same time |
| `SpscQueue.PoppedIsPrefix` | include/JackieSPSCQueue.h:39-105 | under every interleaving the popped elements are a prefix of the pushed ones and the unread ones lie intact |
| `SpscQueue.PushReturns` | include/JackieSPSCQueue.h:39-71 | in every reachable state a push that has begun returns by its own steps, with its element in, if and only if there is room for it |
| `SpscQueue.PopReturns` | include/JackieSPSCQueue.h:73-105 | in every reachable state a pop that has begun returns by its own steps, with the oldest unread element, if and only if there is one |
| `SpscQueue.BothReturn` | include/JackieSPSCQueue.h:39-105 | from every reachable state in which both a push and a pop have begun their own steps end both, though the ring be full or empty |
| `SpscQueue.SizeCountsUnread` | include/JackieSPSCQueue.h:34 | Size is the number of unread elements |
| `SpscQueue.TooLargeNeverReturns` | include/JackieSPSCQueue.h:39-105 | with elements larger than the buffer no push or pop ever returns |
| `SpscQueue.StraddlingCorrupts` | include/JackieSPSCQueue.h:58-62 | with smaller elements that do not divide the buffer some run pops a damaged element |
| `SpscQueue.FifoExactly` | include/JackieSPSCQueue.h:39-105 | over a buffer of a power of two the queue is first-in first-out if and only if the element size divides the buffer or exceeds it |
| `SpscQueue.FifoBySize` | include/JackieSPSCQueue.h:16-105 | the queue the constructor makes is first-in first-out if and only if the size of an element is a power of two |
| `Bits.HandedBack` | include/geco-bit-stream.h:627-642 | bits handed over right-aligned are handed back as the same bytes |
| `Bits.NetworkOrder` | include/geco-bit-stream.h:1312-1341 | the reversed bytes of a number are its binary form, highest bit first |
| `BitCodec.IntBack` | include/geco-bit-stream.h:657-678 | an integer of any width and signedness comes back from its bits |
| `BitCodec.RangedBack` | include/geco-bit-stream.h:994-1027 | a ranged integer comes back from as many bits as the widest distance needs |
| `BitCodec.DistanceFits` | include/geco-bit-stream.h:1831-1840 | that number of bits never exceeds the width of the type |
| `BitCodec.MiniBack` | src/geco-bit-stream.cpp:102-179 | the compressed read consumes what the compressed write wrote and returns the value if and only if it is not ambiguous |
| `BitCodec.MiniLoses` | src/geco-bit-stream.cpp:102-179 | the values of a width that do not come back are sixteen: all upper bytes compressed away, and the upper half of the lowest byte taken for the other one |
| `BitCodec.AmbiguousNumber` | src/geco-bit-stream.cpp:528-604 | of the unsigned numbers of any width these are 240 to 255 |
| `BitCodec.MiniLength` | src/geco-bit-stream.cpp:528-604 | a value of n bytes takes between n + 4 and 8 n + 1 bits |
| `BitCodec.FieldBack` | include/geco-bit-stream.h:994-1027 | each kind of write is read back by the matching read, which consumes exactly its bits, if and only if no bits lie beside those written and a value outside its range, or a compressed one, is not one of the sixteen |
| `BitCodec.FieldsBack` | include/geco-bit-stream.h:657-678 | any sequence of faithful writes is read back by the matching sequence of reads |
| `BitStream.GecoBitStream.constructor` | src/geco-bit-stream.cpp:26-35 | an empty stream on the initial buffer |
| `BitStream.GecoBitStream.WithRoom` | src/geco-bit-stream.cpp:37-58 | an empty stream on a buffer of the requested size, if that is the larger one, counted in 32 bits |
| `BitStream.GecoBitStream.Over` | src/geco-bit-stream.cpp:59-92 | a read-only stream over the caller's bytes, or a stream over a copy of them that can be written on |
| `BitStream.GecoBitStream.AppendBitsCouldRealloc` | src/geco-bit-stream.cpp:181-229 | makes room if and only if the 32-bit counters do not overflow, and then keeps the contents, though new memory is not cleared; the buffer grows to twice the bits needed, or 2^20 more where those exceed 2^20 |
| `BitStream.GrowthIsBounded` | src/geco-bit-stream.cpp:195-206 | over any run of needs the buffer stays below twice the largest, and growth copies at most the final size, and as many times that as it holds parts of 2^20 bits |
| `BitStream.GecoBitStream.WriteBits` | src/geco-bit-stream.cpp:373-462 | appends exactly the bits handed over, at any bit offset; the stream can be written on if and only if nothing lies behind the bits of a left-aligned last byte |
| `BitStream.GecoBitStream.ReadBits` | src/geco-bit-stream.cpp:231-324 | yields the next bits, aligned as asked, and changes nothing behind them |
| `BitStream.GecoBitStream.WriteBitZero` | include/geco-bit-stream.h:1347-1360 | appends a zero bit and clears a fresh byte |
| `BitStream.GecoBitStream.WriteBitOne` | include/geco-bit-stream.h:1365-1376 | appends a one bit |
| `BitStream.GecoBitStream.ReadBool` | include/geco-bit-stream.h:684-692 | yields the next bit |
| `BitStream.GecoBitStream.AlignWritable` | include/geco-bit-stream.h:1387-1390 | appends zero bits up to the byte boundary |
| `BitStream.GecoBitStream.WriteInt` | include/geco-bit-stream.h:1405-1425 | appends the binary form of the integer, highest bit first |
| `BitStream.GecoBitStream.ReadInt` | include/geco-bit-stream.h:657-678 | yields the integer of the next bits |
| `BitStream.GecoBitStream.WriteMini` | src/geco-bit-stream.cpp:528-604 | appends the compressed form of the bytes |
| `BitStream.GecoBitStream.ReadMini` | src/geco-bit-stream.cpp:102-179 | yields the bytes the compressed form stands for and takes just its bits |
| `BitStream.GecoBitStream.WriteRanged` | include/geco-bit-stream.h:1857-1890 | appends the distance from the minimum, or after a flag a value outside the range, which may be a single value |
| `BitStream.GecoBitStream.ReadRanged` | include/geco-bit-stream.h:994-1027 | yields the value written, wrapped to its type |
| `BitStream.LeadingZeros` | include/geco-bit-stream.h:2162-2227 | halving finds the number of leading zero bits for every width |
| `BitStream.ReverseBytes` | include/geco-bit-stream.h:2258-2264 | reverses the bytes of a value |
| `BitStream.FieldsComeBack` | include/geco-bit-stream.h:1405-1425 | a stream object gives any faithful fields back, across reallocations |
| `ProbeCycle.SumDivides` | thirdparty/cat/include/cat/db/BombayTableIndex.hpp:124-125 | the factors two of a sum of powers of the multiplier are those of the number of its terms |
| `ProbeCycle.Returns` | thirdparty/cat/src/db/BombayTableIndex.cpp:288-289 | for every power of two n the generator returns to where it started after d steps if and only if n divides d |
| `ProbeCycle.MeetsAll` | thirdparty/cat/src/db/BombayTableIndex.cpp:288-289 | from every slot the probes meet every slot within n steps |
| `TableIndex.NotCut` | thirdparty/cat/src/db/BombayTableIndex.cpp:350-368 | no other entry's probe path uses a flag or tombstone that removal clears |
| `TableIndex.RemoveKeeps` | thirdparty/cat/src/db/BombayTableIndex.cpp:343-371 | after a removal every other entry is still reached by flagged slots |
| `TableIndex.InsertKeeps` | thirdparty/cat/src/db/BombayTableIndex.cpp:314-330 | an insertion at the first free slot of a flagged path keeps every entry reachable |
| `TableIndex.RoomLeft` | thirdparty/cat/src/db/BombayTableIndex.cpp:314-323 | a walk over occupied slots ends while the table is not full |
| `TableIndex.EntryFlagsOnly` | thirdparty/cat/src/db/BombayTableIndex.cpp:314-330 | an insertion raises flags only at the occupied slots it passes, not that of the slot it fills |
| `TableIndex.PathEnds` | thirdparty/cat/src/db/BombayTableIndex.cpp:350-368 | the removal of an entry whose slot is not flagged leaves no flag on its path from the last other entry on, and no removal raises a flag |
| `TableIndex.TableIndex.Lookup` | thirdparty/cat/src/db/BombayTableIndex.cpp:266-293 | returns the offset of each hash held and none for others, where its loop ends |
| `TableIndex.TableIndex.Insert` | thirdparty/cat/src/db/BombayTableIndex.cpp:295-330 | puts a hash with its offset into the first slot of its walk that holds none, and flags exactly the slots before it; a hash held already is then in two slots, and the table holds no content correctly |
| `TableIndex.TableIndex.Remove` | thirdparty/cat/src/db/BombayTableIndex.cpp:332-393 | removes a hash and keeps all others; the flags and tombstones since the last entry before it go if its slot is not flagged |
| `TableIndex.TableIndex.StopsExactly` | thirdparty/cat/src/db/BombayTableIndex.cpp:266-293 | the probe loop ends if and only if the hash is held or some slot is not flagged |
| `TableIndex.FlagAll` | thirdparty/cat/src/db/BombayTableIndex.cpp:295-393 | from any empty table with room for two entries, insertions and removals lead to an empty table in which every slot is flagged and no look-up ends |
| `TableIndex.Endless` | thirdparty/cat/src/db/BombayTableIndex.cpp:266-393 | for every size of at least four slots, a table fresh from the constructor can be brought to where no look-up ends |
| `TableIndex.RunOnIndex` | thirdparty/cat/src/db/BombayTableIndex.cpp:266-393 | after any run of insertions of absent hashes, below half load, and removals of present ones a new table holds exactly the hashes and offsets that a map would, and looking up each of them ends |
| `RemoteIndex.AgreesWithout` | src/geco_application.cpp:2318-2344 | dropping a chain entry drops exactly its address from the map |
| `RemoteIndex.AgreesAppend` | src/geco_application.cpp:2286-2316 | appending a chain entry for an unlisted slot adds exactly its address |
| `RemoteIndex.RemoteSystems.GetRemoteSystemIndex` | src/geco_application.cpp:2244-2257 | returns the slot the map has for the address, or -1 |
| `RemoteIndex.RemoteSystems.RefRemoteEndPoint` | src/geco_application.cpp:2259-2317 | afterwards the address maps to the slot, the slot has no other address, and the rest is as it was, unless the slot was found at the null address and is referenced for another: then two nodes name it |
| `RemoteIndex.ReferencedOnly` | src/geco_application.cpp:2259-2317 | a slot referenced for an address has no other, and the other slots keep theirs |
| `RemoteIndex.RemoteSystems.DeRefRemoteSystem` | src/geco_application.cpp:2318-2344 | afterwards the address maps to nothing and the rest is as it was |
| `RemoteIndex.RemoteSystems.OneChainEach` | src/geco_application.cpp:2259-2344 | a slot is in at most one chain, once, in the bucket of its address, at which it is found |
| `RemoteIndex.RunOnSystems` | src/geco_application.cpp:2259-2344 | after any run of references and dereferences, in which no slot is referenced past the null address, addresses are found exactly where a map would have them |
| `RemoteIndex.NamedTwice` | src/geco_application.cpp:2259-2317 | with any number of connections and any hash, a slot referenced for the null address and then for any other one is named by two nodes |
| `MersenneTwister.Mixed` | src/geco-random-seed-creator.cpp:69-75 | mixing with the low bit of the second word adds the twist transformation of section 26.5.3.2 of ISO/IEC 14882:2011 |
| `MersenneTwister.Tempered` | src/geco-random-seed-creator.cpp:184-190 | the four statements of the source are the tempering |
| `MersenneTwister.TemperIsMatrix` | src/geco-random-seed-creator.cpp:201-207 | tempering is linear over "exclusive or": a word is tempered to the sum of the listed images of its bits |
| `MersenneTwister.FirstNumber` | src/geco-random-seed-creator.cpp:166-191 | a state with the words 4357 and 0x11EFE201, which seed 4357 gives, at 0 and 1, and 0x03B1E2B1 at 397 yields 0xD13C8AF5 first |
| `MersenneTwister.Generator.SeedMT` | src/geco-random-seed-creator.cpp:108-165 | seeding fills the state with the powers of 69069 times the odd seed |
| `MersenneTwister.SeedsAreOdd` | src/geco-random-seed-creator.cpp:108-165 | all words of a seeded state are odd, and the first differs from the seed at most in its lowest bit |
| `MersenneTwister.Generator.Twisted` | src/geco-random-seed-creator.cpp:176-183 | the two pointer loops replace every word in place by the term 624 later |
| `MersenneTwister.Generator.ReloadMT` | src/geco-random-seed-creator.cpp:166-191 | generates the next terms and returns the first, tempered; a never seeded generator seeds the shared one |
| `MersenneTwister.Generator.RandomMT` | src/geco-random-seed-creator.cpp:192-207 | returns the next term, tempered |
| `MersenneTwister.Draw` | src/geco-random-seed-creator.cpp:108-207 | for every seed and every k the k-th number is the tempered term 624 + k |
| `PngUnfilter.PaethAgrees` | thirdparty/cat/src/gfx/LoadPNG.cpp:144-160 | the predictor is the one of section 6.6 of RFC 2083, and its first-row and first-pixel short cuts are right |
| `PngUnfilter.Paeth` | thirdparty/cat/src/gfx/LoadPNG.cpp:144-160 | the predictor is whichever of the three bytes is nearest to left plus above less upper left, ties going to left, then above |
| `PngUnfilter.Average` | thirdparty/cat/src/gfx/LoadPNG.cpp:217-224 | half the sum of both bytes, rounded down |
| `PngUnfilter.Restores` | thirdparty/cat/src/gfx/LoadPNG.cpp:162-237 | adding what is predicted from restored bytes restores a byte |
| `PngUnfilter.FirstRow` | thirdparty/cat/src/gfx/LoadPNG.cpp:164-181 | restores the first row, above which there are zeros |
| `PngUnfilter.UpRow` | thirdparty/cat/src/gfx/LoadPNG.cpp:197-220 | sixteen bytes a turn and the rest restore an up row |
| `PngUnfilter.LaterRow` | thirdparty/cat/src/gfx/LoadPNG.cpp:186-237 | restores a row of any filter type from the restored row above |
| `PngUnfilter.UnfilterImage` | thirdparty/cat/src/gfx/LoadPNG.cpp:162-237 | rows filtered as in section 6 of RFC 2083, each with its own type, are restored exactly |
| `ArrayQueue.JackieArraryQueue.PushTail` | include/JackieArraryQueue.h:86-137 | appends the element; a full array is doubled, and with an initial size of one the first push leaves the queue stuck, its tail outside the array |
| `ArrayQueue.JackieArraryQueue.PopHead` | include/JackieArraryQueue.h:139-154 | takes the first element, if there is one; a stuck queue yields its element and stays as it is |
| `ArrayQueue.JackieArraryQueue.PopTail` | include/JackieArraryQueue.h:259-279 | takes the last element, if there is one; a stuck queue is a valid empty one afterwards |
| `ArrayQueue.JackieArraryQueue.InsertAtIndex` | include/JackieArraryQueue.h:157-196 | inserts the element at the position; the result is false exactly for an empty queue |
| `ArrayQueue.InsertedAtIndex` | include/JackieArraryQueue.h:157-196 | where the inserted element and the others are then |
| `ArrayQueue.JackieArraryQueue.RemoveAtIndex` | include/JackieArraryQueue.h:200-229 | takes out the element at a position, or nothing |
| `Collections.WithoutAt` | include/JackieArraryQueue.h:200-229 | where the others are when an element is out |
| `ArrayQueue.JackieArraryQueue.At` | include/JackieArraryQueue.h:232-240 | reads the element at a position |
| `ArrayQueue.JackieArraryQueue.Clear` | include/JackieArraryQueue.h:305-317 | forgets all elements, a stuck queue's too, and gives up an array longer than the initial one |
| `ArrayQueue.JackieArraryQueue.Shrink2MiniSzie` | include/JackieArraryQueue.h:321-342 | keeps the elements, a stuck queue's too, in the shortest array of a power of two that exceeds their number |
| `ArrayQueue.Run` | include/JackieArraryQueue.h:86-342 | for every initial size but zero: after any run from a new queue its elements, what it yielded and the length of its array are those of a plain sequence and a number under the same operations, and if nothing was cleared or shrunk growth has copied fewer than two elements for each push |
| `ArrayQueue.FullExactly` | include/JackieArraryQueue.h:86-137 | an array becomes full only by the first push into one of one element |
| `ArrayQueue.NeverFull` | include/JackieArraryQueue.h:86-342 | with an initial size of two or more no run ends with a full array |

## Left out

- Sockets, thread creation, timers, handshakes, plugins, console and file output: no invariant of their own.
- Allocation failure, locks as such, and copying of payload bytes: memory is available, a lock is a step that waits for it.
- `RangeCoderModel.EncodeOpIsLegal`: assumes strictly increasing cumulative tables; their normalisation and its overflow repair are not modelled.
- `TextTables.WriteLut`: does not read the one entry behind the table that the original reads and ignores.
- `BombayTable.Table.SetOffset`: slots are numbered where the original has byte offsets into the cache; the record bytes, the asynchronous file reads and the reserved invalid offset are left out, and the hash is an arbitrary function.
- `MemoryPool.JackieMemoryPool.Allocate`: pages have at least two cells, as the original asserts.
- `LogThread.ApplyKeeps`: loads and stores are sequentially consistent; a critical section of the logger that only assigns one variable is one step.
- `SpscQueue.PowersTile`: requests of at most 2^31 bytes. For larger ones BufferSize says which buffer results, and FifoExactly what a power of two of bytes leads to; a product that wraps to a power of two may leave a buffer whose size is none.
- `SpscQueue.FifoBySize`: the same.
- `SpscQueue.PoppedIsPrefix`: a copy between two barriers is one step, which CopiesAreDisjoint justifies; operator[], IsEmpty and Clear are not part of the protocol.
- `BitStream.GecoBitStream.AppendBitsCouldRealloc`: the ownership flag of the buffer is not modelled.
- Stream-to-stream writes, length-prefixed aligned reads, floats, vectors and quaternions, and the big-endian branches of the bit stream.
- `TableIndex.TableIndex.Insert`: the table is less than half full and does not grow; growth uses another home slot than look-up.
- `TableIndex.TableIndex.Lookup`: is called only where its loop ends, which StopsExactly describes; FlagAll shows that it need not end.
- `TableIndex.TableIndex.Remove`: the same.
- `RemoteIndex.RemoteSystems.RefRemoteEndPoint`: slots are inactive when they are referenced, and the hash is an arbitrary function.
- `PngUnfilter.UnfilterImage`: rows hold at least one pixel and there is at least one row; widths are unbounded where the original has 16 bits.
- `ArrayQueue.JackieArraryQueue.PushTail`: an initial size of zero and a second push onto a stuck queue, both of which would write outside the array.
- `ArrayQueue.JackieArraryQueue.RemoveAtIndex`: the element of a stuck queue, for which the loop would not end.
- `ArrayQueue.Run`: excludes these, and an insertion behind the last element, which the original asserts does not occur.
- fillBufferMT, frandomMT, PopDeref, Contains and the copy operations of the ring queue: easy members.
- The rest of the record table, of the network application and of the image loader.
