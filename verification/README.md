# A verified model of the intrusive containers, the binary log and the command line

This project models, at the level of pointers, cursors and atomic steps, the parts of the
C utility library that are hard to get right, and proves what they are for:

- the **intrusive red-black tree** (`Rb*.dfy`): nodes with parent pointers and colours on the heap,
  the bottom-up fix-up loops, augmentation callbacks, in-order and post-order walks, ordered insertion
  and search, the cached leftmost node;
- the **lock-free queue** (`CasQueue.dfy`): many producers and one consumer, as a transition system over
  atomic steps;
- the **binary log** (`Binlog*.dfy`): two format scanners written independently, a growing buffer, framed
  records, the walk over a log;
- the **command line's wire format** (`CliWire.dfy`), the **fault registry** (`Fault*.dfy`, `Strncmp.dfy`),
  the three **intrusive lists** (`RingList.dfy`, `SlotList.dfy`, `TailQueue.dfy`) and **`str_to_int`**
  (`NumConvert.dfy`).

How it is built. Code that changes memory is a class or a method with loops; ghost arguments name the
abstract value (a tree, a one-hole context, a sequence of nodes, a log of records) that the memory stands for.
In the tree, each heap step is a method that states the fields it wrote, and pure lemmas over memory snapshots
show what that does to the tree; the loops join the two. `Rep(m, t, p)` says that memory `m` holds tree `t`
under parent `p`, `Zipper` says the same for a context and the subtree in its hole, and `Whole` adds that the
tree is red-black. The root carries a ghost count of rotations, which only the three places that relink child
pointers for a rotation raise, so the bounds on rotations are about what happens on the heap. The mirrored left and right halves of the source's loops are one body with a `Side`
parameter, and the packed parent-and-colour word is two fields. A predicate that names its conjunction
before returning it is meant to be proved and used as one fact (see the head of `RbShape.dfy`).

Where the code disagrees with its documentation or with itself, the model follows the code. The writer of
the binary log does not advance past the second `%` of `%%`, and after `.*` it skips one character too many. Its
scanner still meets the parser's after each specifier, and `BinlogAgreement.Agreement` gives the exact condition
under which the two agree on a whole format, `.*` and `%%` included; `PercentDisagrees` and `DotStarDisagrees` are
formats on which they do not. `CliWire.Termination` gives the exact condition under which a request ends where its reader
stops, `TerminationExact` extends it beyond the limits, and `LimitsExceedBuffer` shows requests within the
client's own limits that do not fit its buffer. The queue is called lock-free, but a push can be held up by another
that has linked its node and not yet moved `last`: `CasQueue.PushAlone` and `CasQueue.PushWaits` give the exact condition
under which a push can finish on its own, and `CasQueue.CanDrain` shows that nothing is ever stuck for good.

`dafny verify dfyconfig.toml` checks the whole project.

## Model

| member | source | states |
|---|---|---|
| `RbPrimitives.ChangeChild` | include/rbtree.h:345-358 | the one slot that held the old node (a child field of the parent, or the root) now holds the new one; nothing else changes |
| `RbPrimitives.RotateSetParents` | src/rbtree.c:19-26 | the new top takes over the old top's parent, colour and slot, and the old top hangs below it with the given colour; one rotation is counted |
| `RbPrimitives.ComputeMax` | include/rbtree.h:300-318 | the stored value becomes the maximum of the node's own value and its children's stored values; the early answer is given exactly when it already was |
| `RbPrimitives.AugmentRotate` | include/rbtree.h:271-278 | the new top takes over the stored maximum and the old top's is recomputed from its current children |
| `RbPrimitives.LiftLinks` | src/rbtree.c:110-126 | from a half-relinked state, a rotation produces exactly the rotated tree in memory, whatever subtrees and context surround it |
| `RbPrimitives.LiftAug` | include/rbtree.h:271-278 | calling the rotate callback in that state leaves the tree's links alone and makes both rotated nodes' maxima right |
| `RbPrimitives.LiftRotate` | src/rbtree.c:120-127 | both in sequence: a rotation with its callback, on the heap |
| `RbPrimitives.RotateLinks` | src/rbtree.c:120-126 | the pointer updates of a rotation, node by node: exactly one rotation is counted and the subtree moves across |
| `RbInsert.RotateInnerLinks` | src/rbtree.c:98-104 | the pointer updates of the inner rotation, node by node, counted once; the grandparent still points at the old child |
| `RbEraseColor.RotateNephewLinks` | src/rbtree.c:265-271 | the pointer updates of the rotation at the sibling, node by node, counted once; the parent pointers of nephew and sibling are left stale |
| `RbBalance.HeightBound` | include/rbtree.h:71-107 | in every red-black tree of height h with n nodes, 2^((h+1)/2) <= n + 1 |
| `RbBalance.AugIsMax` | include/rbtree.h:298-320 | locally consistent stored values are the true maxima over whole subtrees |
| `RbInsert.FlipStep` | src/rbtree.c:61-81 | recolouring parent, uncle and grandparent moves the only possible fault two levels up and changes neither order nor black counts |
| `RbInsert.LiftStep` | src/rbtree.c:110-126 | the outer rotation ends with a red-black tree |
| `RbInsert.InnerStep` | src/rbtree.c:83-108 | the inner rotation turns case 2 into case 3 with every black count kept |
| `RbInsert.FlipAndClimb` | src/rbtree.c:61-81 | the same on the heap: after the stores the loop invariant holds at the grandparent |
| `RbInsert.Uncle` | src/rbtree.c:53-61 | under a red parent the grandparent exists, so its unguarded reads are safe |
| `RbInsert.InsertStep` | src/rbtree.c:33-165 | each round ends with a red-black tree and has raised the count of rotations by at most two, or hands the fault to the grandparent and has left the count alone |
| `RbInsert.Insert` | src/rbtree.c:28-166 | from any red-black tree whose only fault is a red node under a red parent or a red root, the loop terminates in a valid red-black tree with the same in-order sequence and all maxima kept right, and the count of rotations has risen by at most two over all rounds |
| `RbPropagate.Propagate` | include/rbtree.h:254-263 | if every stored value off the path is right, all are right afterwards, although the loop stops at the first unchanged value |
| `RbEraseColor.Case1Step` | src/rbtree.c:187-205 | rotating a red sibling up keeps the deficit where it is and makes the parent red, so no further climb can follow |
| `RbEraseColor.LightStep` | src/rbtree.c:206-237 | colouring the sibling red ends the loop under a red parent and moves the deficit up under a black one |
| `RbEraseColor.NearStep` | src/rbtree.c:238-275 | rotating the near nephew up gives the sibling a red far child with all counts kept |
| `RbEraseColor.LastStep` | src/rbtree.c:276-300 | the last rotation restores the missing black on every path |
| `RbEraseColor.BlackSibling` | src/rbtree.c:185-206 | the sibling exists and is black, after one rotation (counted, with the parent now red) or none |
| `RbEraseColor.RotateAndStop` | src/rbtree.c:238-300 | cases 3 and 4 on the heap end with a valid red-black tree and raise the count of rotations by at most two |
| `RbEraseColor.EraseColor` | src/rbtree.c:172-356 | from any tree whose paths through the node are one black short, the loop terminates in a valid red-black tree with the same in-order sequence, with all maxima kept right and without dereferencing null, and the count of rotations has risen by at most three |
| `RbErase.FindSuccessor` | include/rbtree.h:398-435 | the descent ends at the leftmost node of the right subtree, with its parent |
| `RbErase.EraseOne` | include/rbtree.h:372-396 | a node with at most one child is spliced out: the rest keeps its order, and the answer is the parent to rebalance exactly when a black is missing |
| `RbErase.EraseTwo` | include/rbtree.h:397-462 | a node with two children is replaced by its in-order successor, near or far: order, balance and maxima as if only the node were gone |
| `RbErase.EraseAugmented` | include/rbtree.h:363-466 | both cases, including the final propagation to the root |
| `RbErase.Erase` | src/rbtree.c:387-394 | erasing any node of any valid tree gives a valid tree whose in-order sequence is the old one without exactly that node, with all maxima right, and the count of rotations has risen by at most three |
| `RbReplace.ReplaceNode` | src/rbtree.c:505-521 | the new node stands exactly where the victim stood and every other node keeps its place |
| `RbIterate.First` | src/rbtree.c:412-424 | the in-order first node, or null for the empty tree |
| `RbIterate.Last` | src/rbtree.c:426-438 | the in-order last node, or null |
| `RbIterate.Next` | src/rbtree.c:440-472 | the in-order successor, found by descending or by climbing parents |
| `RbIterate.Prev` | src/rbtree.c:474-503 | the in-order predecessor |
| `RbIterate.NextPrevInverse` | src/rbtree.c:440-503 | successor and predecessor undo each other |
| `RbIterate.Forward` | src/rbtree.c:412-472 | first and repeated next yield exactly the in-order sequence |
| `RbIterate.Backward` | src/rbtree.c:426-503 | last and repeated prev yield its reverse |
| `RbPostorder.PostorderOnce` | src/rbtree.c:536-564 | post-order visits every node exactly once |
| `RbPostorder.ChildrenFirst` | src/rbtree.c:536-564 | children come before their parent |
| `RbPostorder.LeftDeepest` | src/rbtree.c:523-534 | the first node of a subtree in post-order |
| `RbPostorder.NextPostorder` | src/rbtree.c:536-555 | the post-order successor, fixed by the nodes not visited yet; the next position needs nothing of the subtree just finished |
| `RbPostorder.LiveFootprint` | include/rbtree.h:133-145 | where the iterator stands depends on its node and the live nodes only, so whatever happens to nodes handed out before cannot disturb it |
| `RbPostorder.FirstPostorder` | src/rbtree.c:557-564 | the first node of the tree in post-order |
| `RbPostorder.ForEachSafe` | include/rbtree.h:141-145 | although each body destroys its node, the loop hands out exactly the post-order sequence |
| `RbSearch.LinkNode` | include/rbtree.h:62-69 | a red leaf is linked at the given slot and nothing else changes |
| `RbSearch.LinkAndInsert` | include/rbtree.h:62-69 | linking at any empty position and rebalancing gives a valid tree with the node at that position of the in-order sequence, in at most two counted rotations |
| `RbSearch.FindPlace` | include/rbtree.h:71-85 | the descent ends at the empty slot after every node that is not greater, after as many steps as the slot is deep, within the height of the tree |
| `RbSearch.Add` | include/rbtree.h:71-87 | for any total preorder the tree stays sorted and the node comes after everything not greater; the descent is logarithmically bounded |
| `RbSearch.FindFirst` | include/rbtree.h:89-107 | the first node equal to the key, or null exactly when there is none, by one descent within the height of the tree |
| `RbSearch.NextMatch` | include/rbtree.h:109-117 | the in-order successor if it equals the key, else null |
| `RbSearch.FindAll` | include/rbtree.h:89-117 | searching and stepping returns exactly the equal nodes, in order |
| `RbSearch.AddedLast` | include/rbtree.h:71-117 | a newly added node is the last of its equals, so equals are found in insertion order |
| `RbTrees.PlainTree.Insert` | src/rbtree.c:382-407 | every insertion keeps a valid tree and puts the node at the chosen place, in at most two rotations; with the max callbacks and an updated path, all maxima are right |
| `RbTrees.PlainTree.Add` | include/rbtree.h:71-87 | the same for ordered insertion, with sortedness and at most two rotations |
| `RbTrees.PlainTree.Erase` | include/rbtree.h:468-476 | every erasure keeps a valid tree without exactly the node, in at most three rotations, and keeps the maxima right |
| `RbTrees.PlainTree.Replace` | src/rbtree.c:505-521 | every replacement keeps a valid tree with the new node in place of the old |
| `RbTrees.PlainTree.Least` | src/rbtree.c:412-424 | the first node of the sequence the tree holds |
| `RbTrees.PlainTree.Successor` | src/rbtree.c:440-472 | the node after the given one in that sequence |
| `RbTrees.PlainTree.Find` | include/rbtree.h:89-107 | the first match of a key in a tree whose order the key respects, in a number of steps logarithmic in the number of nodes |
| `RbTrees.PlainTree.FindAll` | include/rbtree.h:89-117 | all matches of such a key, in order |
| `RbRuns.PlacedBetween` | include/rbtree.h:71-87 | the position `rb_add` finds is a function of the sequence and the node |
| `RbRuns.ChangeKeeps` | include/rbtree.h:71-117 | an addition appends to the nodes equal to a key, an erasure removes from them, and both keep the sequence sorted |
| `RbRuns.InsertionOrder` | include/rbtree.h:71-117 | after any run of additions and erasures the nodes equal to a key stand in the order of their insertion |
| `RbRuns.Replay` | include/rbtree.h:71-117 | making any such run on a tree, with all its rebalancing, and then searching gives exactly the surviving equal nodes in insertion order |
| `RbTrees.CachedTree.Insert` | include/rbtree.h:167-175 | the cached leftmost node stays what `rb_first` would compute |
| `RbTrees.CachedTree.Erase` | include/rbtree.h:177-184 | also after an erasure, of the leftmost node or another |
| `RbTrees.CachedTree.Replace` | include/rbtree.h:186-194 | also after a replacement |
| `RbTrees.FirstWithout` | include/rbtree.h:177-184 | erasing the first node makes its successor the first, erasing another keeps it |
| `RbTrees.FirstExchanged` | include/rbtree.h:186-194 | exchanging a node changes the first one exactly when it was first |
| `CasQueue.StepInv` | benchmark/cas_queue.cc:37-76 | every atomic step of any thread keeps the invariant, including stale producers linking onto consumed tails |
| `CasQueue.RunInv` | benchmark/cas_queue.cc:31-76 | it holds in every reachable state, for any number of producers and any interleaving |
| `CasQueue.NothingLost` | benchmark/cas_queue.cc:143-166 | in every reachable state the visited nodes, the rest of the consumer's batch and the live chain together are the nodes in the order of their successful CAS on `last`, each once |
| `CasQueue.Quiescent` | benchmark/cas_queue.cc:133-166 | when all pushes have returned and the consumer is idle, every node ever pushed was delivered or is on a terminated chain |
| `CasQueue.PopStarts` | benchmark/cas_queue.cc:58-61 | in every reachable state with an idle consumer, its next step starts a pop if the queue is not empty and otherwise changes nothing |
| `CasQueue.PopAlone` | benchmark/cas_queue.cc:52-76 | from every reachable state with an idle consumer and a non-empty queue, the consumer alone delivers the whole order and leaves the queue empty, in five steps and one for each live node |
| `CasQueue.PopTakesAll` | benchmark/cas_queue.cc:52-76 | in any interleaving, whatever has been popped since the consumer last stood idle includes every node that was live then, and so does what has been delivered once it is idle again |
| `CasQueue.PushAlone` | benchmark/cas_queue.cc:37-50 | a push running alone appends its node in three steps if the tail's `next` is NULL |
| `CasQueue.PushWaits` | benchmark/cas_queue.cc:44-48 | otherwise it goes round without effect for any number of steps: it waits for the producer that has linked there, or for the consumer to clear the head |
| `CasQueue.CanDrain` | benchmark/cas_queue.cc:37-76 | no deadlock: from every reachable state there is a continuation in which every push under way completes, the queue is emptied and every node ever handed to a push is delivered |
| `CasQueue.Refines` | benchmark/cas_queue.cc:37-112 | every step is the named step of the sequential queue: a successful CAS of a producer pushes that producer's node, the consumer's CAS pops everything or everything up to the tail it had loaded (by `PopTakesAll` at least what was there when the pop began), a pop that answers NULL has found the queue empty, and no other step changes the queue |
| `CasQueue.RunRefines` | benchmark/cas_queue.cc:37-112 | every run in any interleaving is a run of the sequential queue, such as the spinlock-protected one |
| `CasQueue.QueueFifo` | benchmark/cas_queue.cc:87-112 | the sequential queue is first in, first out |
| `CasQueue.RunFifo` | benchmark/cas_queue.cc:133-166 | from the initial state, the popped batches followed by the live chain are the pushed nodes in the order of their pushes, and the popped batches are what the consumer has visited followed by the rest of the batch it is visiting |
| `BinlogAgreement.Agreement` | src/binlog/binlog.c:141-246 | for every format the parser survives in which no `.*` makes the writer skip a conversion and stop at a `%`, the two scanners consume the same types in the same order if and only if every specifier is harmless: after `%%` comes the inside of a star-free specifier and another `%`; one character after a `.*` precision there is still a conversion that takes the same argument, and a final `%` reached through modifiers is followed as after `%%` |
| `BinlogAgreement.HarmlessAgrees` | src/binlog/binlog_parser.c:265-376 | on every harmless format that the parser survives, without exception, the two scanners agree |
| `BinlogAgreement.Compare` | src/binlog/binlog_parser.c:265-376 | from any position of such a format: the writer, if it survives, never stores fewer arguments than the parser fetches, and the same ones exactly on harmless formats |
| `BinlogAgreement.CompareStarred` | src/binlog/binlog.c:163-241 | one specifier with `.*`: whatever the writer skips, the two scanners meet again, and agree exactly under the local condition |
| `BinlogAgreement.AfterPercent` | src/binlog/binlog.c:237-238 | restarting on the second `%` of `%%`, the writer stores the same only if quiet text follows, and otherwise more |
| `BinlogAgreement.PercentDisagrees` | src/binlog/binlog.c:237-238 | `%%d`: the writer stores an int that the parser does not fetch |
| `BinlogAgreement.DotStarDisagrees` | src/binlog/binlog.c:163-168 | `%.*ld`: the writer stores an int where the parser fetches a long |
| `BinlogAgreement.DotStarAgrees` | src/binlog/binlog.c:163-168 | `%.*hd` is harmless: the skipped `h` changes nothing |
| `BinlogAgreement.Compensation` | src/binlog/binlog.c:163-168 | `%.*%d%.*d%d`: with a skipped conversion, later specifiers can make up for what was lost, so the condition is not necessary there |
| `BinlogGrammar.ParserReads` | src/binlog/binlog_parser.c:265-376 | on every format of the grammar, whose letters are listed there independently of the scanners, the parser's scanner consumes exactly the argument types the grammar assigns |
| `BinlogGrammar.WriterReads` | src/binlog/binlog.c:141-246 | so does the writer's, on formats without `%%` and `.*` |
| `BinlogGrammar.PieceTables` | src/binlog/binlog_parser.c:276-362 | the scanners' tests for flags, digits, modifiers and conversions accept exactly the letters of the grammar |
| `BinlogGrammar.GrammarExact` | src/binlog/binlog_parser.c:271-376 | the formats the parser survives are exactly those of the grammar |
| `BinlogRecord.ArgFetched` | src/binlog/binlog_parser.c:160-219 | each kind of argument is recovered from its stored bytes, wherever they stand |
| `BinlogRecord.ArgsFetched` | src/binlog/binlog_parser.c:160-219 | fetching by type recovers exactly the stored values and stops right after them |
| `BinlogRecord.FetchedStands` | src/binlog/binlog_parser.c:160-219 | whatever is fetched as of a kind is an argument of that kind whose stored bytes stand at the cursor, within the record |
| `BinlogRecord.WrongKind` | src/binlog/binlog_parser.c:165-214 | where an argument of one kind stands, fetching any other kind is refused |
| `BinlogRecord.NothingLeft` | src/binlog/binlog_parser.c:165-214 | at the end tag, fetching any kind is refused |
| `BinlogRecord.FetchExact` | src/binlog/binlog_parser.c:160-219 | where arguments and the end tag stand, fetching by a list of types succeeds if and only if these are the types of the first arguments, and then gives exactly those |
| `BinlogWriter.Buffer.MaybeRealloc` | src/binlog/binlog.c:27-43 | all earlier bytes are kept, there is room for the request, and no 32-bit size overflows |
| `BinlogWriter.Buffer.PrintArg` | src/binlog/binlog.c:55-109 | exactly the tagged bytes of the argument are appended, in bounds, and their number is returned |
| `BinlogWriter.Buffer.PrintBegin` | src/binlog/binlog.c:111-118 | the begin tag and the prefix are stored within the stack buffer |
| `BinlogWriter.Buffer.PrintEnd` | src/binlog/binlog.c:120-131 | the length field is patched, the end tag appended and every other byte kept |
| `BinlogWriter.DoSpecifier` | src/binlog/binlog.c:149-242 | one specifier: the arguments it asks for are stored and the cursor is left where the scan says |
| `BinlogWriter.DoValog` | src/binlog/binlog.c:141-246 | on every format: the arguments the writer's scan asks for are appended in order, the byte count is exact, and the scan ends as stated (normally, aborting or overrunning) |
| `BinlogWriter.BinlogPrint` | src/binlog/binlog.c:281-338 | one whole record is appended to the log, its length field equal to its exact size; without a log or with a bad format, nothing |
| `BinlogParser.VaList.Get` | src/binlog/binlog_parser.c:160-219 | the argument of that kind that stands at the cursor, or failure when none does (by `FetchedStands` and `ArgFetched`, exactly then): too few bytes are left or the tag is another |
| `BinlogParser.ReadSpecifier` | src/binlog/binlog_parser.c:274-372 | one specifier: the arguments it asks for are fetched and the cursor is left where the scan says |
| `BinlogParser.PrintFormat` | src/binlog/binlog_parser.c:265-376 | on every format and every buffer: the values fetched are those the scan asks for and the cursor is right after them, or the record is corrupt |
| `BinlogParser.PrintStored` | src/binlog/binlog_parser.c:265-376 | where arguments and the end tag stand: the values handed out are the first arguments if their types are those the format asks for, and the record is refused exactly when a type differs or an argument is missing |
| `BinlogLog.RecordLayout` | src/binlog/binlog.c:297-336 | where every field of a record stands, byte by byte, with the values of its tags and its length |
| `BinlogLog.ArgLayout` | src/binlog/binlog.c:55-109 | the tag and the value of each kind of argument |
| `BinlogLog.ReadRecord` | src/binlog/binlog_parser.c:416-474 | from the bytes of any record whose format is found: its level, function, line, thread, time and as many arguments as the format asks for, refused exactly when the format asks for other types or for more; with exactly its arguments asked for, the cursor is on the end tag |
| `BinlogLog.BinlogParse` | src/binlog/binlog_parser.c:403-480 | stepping by the length field visits every record of a log once, in order, and ends at the end of the file |
| `BinlogLog.WrittenParsable` | src/binlog/binlog.c:281-338 | a record written with any format of the agreement theorem can be read back with it if and only if the format is harmless |
| `BinlogLog.WriteThenParse` | src/binlog/binlog_parser.c:403-480 | for any run of calls with such formats, parsing the written log gives back every call's record, in order |
| `CliWire.MsgEncode` | src/cli/cli_server.c:355-372 | the buffer holds exactly the message, and the offset is its length |
| `CliWire.MsgDecode` | src/cli/cli_server.c:374-397 | on every buffer: the pointers and the offset of the decoding, or failure exactly where a length exceeds its limit or leaves the buffer |
| `CliWire.DecodeExact` | src/cli/cli_server.c:374-397 | a buffer decodes if and only if it holds a length of at most 32, that many bytes, a number of at most 32 and that many lengths of at most 32 each with its bytes; the pointers are just behind the lengths and the offset behind the last string |
| `CliWire.LimitRefuses` | src/cli/cli_server.c:379-392 | a length above 32 met anywhere on the way is refused |
| `CliWire.RoundTrip` | src/cli/cli_server.c:355-397 | a buffer that starts with an encoded message decodes to the original subcommand and arguments, with the offset two less than the encoder's |
| `CliWire.ReadRequest` | src/cli/cli_server.c:440-460 | on every stream: the reader stops at the first CR LF within the buffer, at the end of the stream, or with a full buffer, and has stored exactly what it read |
| `CliWire.Termination` | src/cli/cli_server.c:355-372 | within the limits, the first CR LF of a message is its last two bytes if and only if none of its strings contains CR LF |
| `CliWire.TerminationExact` | src/cli/cli_server.c:355-372 | for strings and counts of any size below 2^24: the first CR LF of a message is its last two bytes if and only if no string contains CR LF and no length and not the count has 2573 in two neighbouring bytes |
| `CliWire.LengthImage` | src/cli/cli_server.c:365-366 | the exact lengths whose encoding contains CR LF |
| `CliWire.FitsBuffer` | src/cli/cli_client.c:121-123 | the exact condition for a message to fit the client's 1024-byte buffer |
| `CliWire.LimitsExceedBuffer` | src/cli/cli_client.c:61-71 | the client's limits on number and lengths do not imply it: 32 arguments of 31 bytes do not fit |
| `CliWire.LongStringMisread` | src/cli/cli_server.c:365-366 | for instance, a string of 2572 bytes puts CR LF into its own length field |
| `CliWire.Delivered` | src/cli/cli_server.c:440-465 | whatever follows on the stream, the reader stops exactly after the message and decoding gives the original strings |
| `CliWire.Exchange` | src/cli/cli_server.c:355-465 | encoding, reading and decoding in sequence deliver every request within the limits |
| `Strncmp.CompareTotal` | src/fault_inject.c:27-39 | comparing names is a total preorder |
| `Strncmp.CompareExact` | src/fault_inject.c:27-39 | the comparison is that of the first of 64 bytes in which the names differ |
| `Strncmp.EqualNames` | src/fault_inject.c:27-39 | against a name of at most 62 bytes, equal means identical |
| `FaultSpec.OthersUntouched` | src/fault_inject.c:74-152 | an operation on one name leaves the records of all others alone |
| `FaultSpec.Registration` | src/fault_inject.c:115-152 | a new name gets a record that is off, with hit count 0 and an unlimited window; a registered name keeps its record; unregistering removes exactly the name |
| `FaultSpec.Membership` | src/fault_inject.c:127-152 | after any history a name is registered exactly as the last registration or unregistration of it says |
| `FaultSpec.FieldsAfter` | src/fault_inject.c:63-113 | after any history of a registered name: it is enabled exactly as the last enabling, disabling or initialisation in the list says, its other settings are those last written, calls change none of them, and the callback is kept |
| `FaultSpec.HitsCount` | src/fault_inject.c:162-163 | after any history the hit count is the one last set plus the calls made since while the list of operations had it enabled |
| `FaultSpec.Window` | src/fault_inject.c:154-178 | after any history, initialisations included: a call returns the fault if and only if it is enabled, its callback (if any) agrees, and the call is the n-th enabled one with a < n <= a + e for the after_times a, enable_times e and hit count last set |
| `FaultSpec.TotalFirings` | src/fault_inject.c:154-178 | over a whole run of a callback-free fault the number of firings is exactly the number of calls inside the window, among those the list of operations had enabled |
| `FaultInject.Registry.Find` | src/fault_inject.c:41-49 | the one record of the name, or null exactly when it is not registered |
| `FaultInject.FindNamed` | src/fault_inject.c:41-49 | in a sorted tree of distinct names the first match is the node of the name |
| `FaultInject.Registry.Register` | src/fault_inject.c:115-143 | refines the map's insertion: a new name gets a reset record, a registered one keeps its own, all other records keep their place |
| `FaultInject.Registry.Unregister` | src/fault_inject.c:51-61 | refines the map's removal, and all other records keep their place |
| `FaultInject.Registry.Enable` | src/fault_inject.c:83-90 | refines the map's update of this name |
| `FaultInject.Registry.Disable` | src/fault_inject.c:74-81 | refines the map's update of this name |
| `FaultInject.Registry.Reinit` | src/fault_inject.c:92-99 | refines the map's update of this name |
| `FaultInject.Registry.Init` | src/fault_inject.c:101-113 | refines the map's update of this name, the callback kept |
| `FaultInject.Registry.CondGet` | src/fault_inject.c:154-178 | refines the counting step and returns the record exactly when it fires |
| `FaultInject.PerformAll` | src/fault_inject.c:41-178 | any list of operations does to a registry, and answers, what it does to the finite map; the calls answered with a fault are exactly those the window theorems count |
| `FaultSpec.AnswersCount` | src/fault_inject.c:154-178 | the positive answers for a name are the firings of its fault |
| `RingList.AddAfter` | include/list.h:757-764 | the ring has the node inserted after the given stop, both ways |
| `RingList.AddBefore` | include/list.h:765-772 | the ring has the node inserted before the given stop |
| `RingList.Del` | include/list.h:773-778 | the ring has exactly that node removed |
| `RingList.DelHead` | include/list.h:612-621 | the first node is removed and returned, null for the empty ring |
| `RingList.DelTail` | include/list.h:627-636 | the last node is removed and returned, null for the empty ring |
| `RingList.DelAndInit` | include/list.h:641-647 | the node is out of its ring, if it was in one, and unlinked |
| `RingList.MoveToTail` | include/list.h:658-664 | a node moves from its ring to the end of another, and the two rings' nodes together stay the same multiset |
| `RingList.MoveToOwnTail` | include/list.h:658-664 | also within one ring |
| `RingList.Append` | include/list.h:779-789 | the whole source moves behind the destination in order and the source is empty |
| `RingList.AddHead` | include/list.h:607-611 | the node is first |
| `RingList.AddTail` | include/list.h:622-626 | the node is last |
| `RingList.FirstNode` | include/list.h:723-730 | the first node, null for the empty ring |
| `RingList.LastNode` | include/list.h:731-738 | the last node, null for the empty ring |
| `RingList.MoveUnlinked` | include/list.h:658-664 | a node that is in no ring is added at the end |
| `RingList.ForEach` | include/list.h:665-668 | visits exactly the sequence of nodes |
| `RingList.ForEachReverse` | include/list.h:674-677 | visits its reverse |
| `SlotList.Del` | include/list.h:442-451 | the node is gone and every remaining `prev` is the slot that holds its node; an initialised node in no list changes nothing |
| `SlotList.DelAndInit` | include/list.h:452-456 | the node is out of its list, if it was in one, and unlinked |
| `SlotList.DelHead` | include/list.h:477-484 | the first node is removed and returned, null for the empty list |
| `SlotList.AddHead` | include/list.h:467-476 | the node is first, and every `prev` is the slot that holds its node |
| `SlotList.AddAfter` | include/list.h:485-494 | the node follows the given one, every `prev` right |
| `SlotList.AddAtSlot` | include/list.h:495-504 | the node is where the slot points, every `prev` right |
| `SlotList.AddBefore` | include/list.h:505-514 | the node precedes the given one, every `prev` right |
| `SlotList.Append` | include/list.h:554-566 | the whole source hangs behind the destination and the source is empty, every `prev` right |
| `TailQueue.Head.AddHead` | include/list.h:242-250 | the node is first and `last` is the true final node |
| `TailQueue.Head.DelHead` | include/list.h:251-261 | the first node is removed and returned, `last` right also when the queue becomes empty |
| `TailQueue.Head.AddTail` | include/list.h:262-273 | the node is last |
| `TailQueue.Head.AddAfter` | include/list.h:274-288 | the node follows the given one, or is first when there is none |
| `TailQueue.Head.DelAfter` | include/list.h:289-305 | the node after the given one is removed and returned, null when there is none |
| `TailQueue.Head.Del` | include/list.h:343-353 | the search removes exactly the node, and changes nothing when it is absent |
| `TailQueue.Append` | include/list.h:354-371 | the whole source moves behind the destination in order, the source is empty and `last` is right |
| `NumConvert.Caught` | src/num_convert.c:19-30 | no 32-bit value, wrapped or saturated, passes the digit check against digits whose value is not an int |
| `NumConvert.Recheck` | src/num_convert.c:19-31 | the backward loop accepts exactly the values that were not truncated |
| `NumConvert.StrToInt` | src/num_convert.c:7-32 | on every string and declared length: the exact decimal value if it is all digits, of that length and fits an int, and INT_MIN in every other case |

## Left out

- Red-black tree: the packed parent-and-colour word and its alignment assumption; colours and parents are separate fields, and the source's mirrored halves are one body with a side parameter.
- Red-black tree: `container_of`; what a comparison callback reads of the enclosing structure is the node's constant `payload`.
- Augmentation callbacks other than the two built-in kinds (none, and maximum over the subtree).
- `CasQueue`: weak memory ordering and reuse of nodes; steps are sequentially consistent and every node is pushed at most once, starting with a null `next`.
- `BinlogAgreement.Agreement`: necessity of the condition on formats in which a `.*` makes the writer skip an argument-taking conversion and stop at a `%`; there it stores too little, and later specifiers can compensate (`BinlogAgreement.Compensation`). Sufficiency holds there too (`BinlogAgreement.HarmlessAgrees`).
- Binary log: a call needs a function name that fits the stack buffer with the prefix and a record of at most 2^30 bytes; a longer name is written out of bounds, and a longer record can double the 32-bit size of the buffer past its range.
- Binary log: refilling the parser's buffer for logs larger than one read, timestamps as text, looking formats up in JSON, and the text that `fprintf` produces, including the 128-byte buffer for one specifier.
- `BinlogLog.BinlogParse`: an empty log, on which the source's loop asserts.
- `CliWire.Exchange`: messages longer than 1024 bytes, which the client's limits admit and its buffer cannot hold; `CliWire.FitsBuffer` gives the exact condition.
- Command line: sockets, polling, the command table and its execution; the stream of bytes is a parameter.
- `FaultSpec.Window`: more than 2^31 - 1 enabled calls, after which the source's signed counter overflows; the increment is modelled with wrap-around.
- `FaultInject.Registry.Register`: names of more than 62 bytes, which the source stores without a terminator; also allocation failure, the `priv` field and the sleep.
- `RingList.MoveToTail`: a node unlinked without being initialised keeps stale links, which the source then follows; nodes in no ring must have null links (`RingList.MoveUnlinked`).
- Lists: the entry macros, the freeing loops, `dl_prev` on a first node, `dl_del_head_and_init_node` and the lock wrappers.
- `double_to_str`, the bitmap, the pointer array, the allocation wrappers, parameter checks and the options parser: easy or dominated by library behaviour.
- The RDMA, mocking and JSON helpers and the ELF script: wrappers over external libraries and tools.
