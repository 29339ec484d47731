# Verified models of the server's trees, arena and codecs

This project models four parts of the repository in Dafny and proves what they promise. Check it with
`dafny verify dfyconfig.toml`.

**Red-black and splay trees** (`tree.h`; libuv's timers are kept in the red-black one).
`RedBlackTree.RBTree` and `SplayTree.SplayTree` are classes over nodes with real pointers; every
method performs the stores of the macro it models. `cmp` is any function whose sign is antisymmetric
and transitive; keys that compare equal may differ. The pointer arguments use snapshots of memory:
`RedBlackMemory` and `SplayMemory` say which tree a snapshot holds and what each store does to it,
`RedBlackShape`, `RedBlackSearch` and `SplayShape` hold the facts about order and colours. A place in
the tree is a hole and the subtree in it, so one local step is one local change of a value.
`SplayTree.Remove` follows the code in returning its argument, which need not be the node that was in
the tree when two keys compare equal.

**The arena** (`arena.cc`). `ArenaModel` is one arena on values, `ArenaThread` splits every operation
at its accesses to shared memory (AllocFromBlock at the read and the write of `pos`, AddListNode at
the exchange and the store of `next`, AddBlock at the link and the store of `hint_`), and
`ArenaMachine` runs any number of threads over any number of arenas in any order; freed addresses may
come back. `ArenaProof` shows that no step disturbs the others. `ArenaBlocks` is the same code as
classes over linked block headers, one call at a time, proved against the functions of `ArenaModel`.
`ArenaAlone` ties the two: a thread that is not interrupted comes to what the call does.

**google.protobuf.Any** (`any.pb.cc`, `any.cc`, with the parts of the input stream and of
`WireFormatLite` they use). `Wire`, `Unicode` and `WireFields` define the byte format, `AnyCodec` what
parsing means, `AnyFields` which bytes carry which field, where a message stops and what is refused,
`AnyParser` and `AnyWriter` are the stream, the parser with its jumps and the serializer, and
`AnyUrl` packs messages into it. The stream may see any part of its input at any time: whether ExpectTag
and ExpectAtEnd notice what comes next is an arbitrary function of the position.

**The netPack codec** (`commDef.hpp`, with the primitives of `commDef.cpp`). `NetCodec` has values of
every shape of structs and vectors, `NetLoad` says what variables hold after a read, also when the data
run out, `NetBuffer` what a buffer of fixed size does, and `NetStream` has the two streams. The primitives are modelled as
`Server/netPack/commDef.cpp` defines them: the reads at 248-530, the writes at 544-840 and `Flush` at
860-876.

Some expected properties do not hold of the code. The code was kept, and each has its exact condition
for all inputs:

- A value does not always survive a write and a read. `LongLost`: a `long long` whose low half is
  negative loses its high half, because the low half is extended by its sign before the OR.
  `StringLost`: the length of a string is cast to a short, so 65540 bytes are written as four.
  `RoundTripIff` says which values survive, `StringExact` and `VectorReadsAsPrefix` what becomes of long
  strings and vectors, and `ReadVectorReadsPrefix` what ReadVector makes of them.
- `SecondIntIsDropped`: the write stream allocates ten bytes and drops what does not fit, although it
  takes a string of 65540 bytes (`LongStringFits`). The reader then keeps what its variable held, which
  can be the value itself (`RepeatedElementSurvives`). `BufferRoundTripIff` gives the condition for any
  buffer, value and variable; into a variable that held something else in every part, a value without
  vectors comes back exactly if it fits and is one that `RoundTripIff` admits (`ApartRoundTripIff`).
- `IsAcceptsAnother`: `Is` compares the end of the URL only. `IsAcceptsEnds` says what it accepts.
- `InvalidUrlIsRefused`: serializing only warns about a type URL that is not UTF-8; parsing rejects it.
  `RoundTripOnlyIfUtf8` is the condition, and `UnnestNest` what follows for packed messages.
- `DeepGroupsFail`: well-formed unknown fields are skipped only if their groups nest at most 100 deep,
  less the depth of the message itself, as `ForeignField` says.

## Model

| member | source | states |
|---|---|---|
| `RedBlackTree.RBTree.Remove` | Server/3rd_lib/libuv/include/tree.h:530-595 | Removing any node of a valid tree leaves a valid red-black tree whose in-order node sequence is the old one without exactly that node; the node set loses that node alone, so every other node keeps its identity and (constant) key |
| `RedBlackTree.RBTree.RemoveAt` | Server/3rd_lib/libuv/include/tree.h:530-595 | The same at a known place of the tree: whole shape, colours and parent links hold again, and the in-order sequence is what lay left and right of the node |
| `RedBlackTree.RBTree.TakeOut` | Server/3rd_lib/libuv/include/tree.h:535-591 | The relinking half of removal: the spliced tree has either no defect or, if the colour taken out was black, exactly one side that is one black short at (parent, child) |
| `RedBlackTree.RBTree.TakeSuccessor` | Server/3rd_lib/libuv/include/tree.h:539-577 | The case of two children, including a successor that is the right child itself: the successor node takes the place, links and colour of the removed one without its payload being copied |
| `RedBlackTree.RBTree.RemoveColor` | Server/3rd_lib/libuv/include/tree.h:451-528 | Started on a tree whose only defect is one side one black short, ends with equal black height everywhere, a black root, no red node under a red parent and the same in-order sequence; it terminates although the red-sibling case pushes the defect one level down |
| `RedBlackTree.RBTree.RepayLeft` | Server/3rd_lib/libuv/include/tree.h:458-490 | One round on the left side: afterwards the defect is gone or strictly nearer the root, and the in-order sequence is unchanged |
| `RedBlackTree.RBTree.RepayRight` | Server/3rd_lib/libuv/include/tree.h:491-524 | The mirror image |
| `RedBlackTree.RBTree.PayLeft` | Server/3rd_lib/libuv/include/tree.h:473-489 | A black sibling with a red child ends the repair: the whole tree is red-black again |
| `RedBlackTree.RBTree.PayRight` | Server/3rd_lib/libuv/include/tree.h:506-522 | The mirror image |
| `RedBlackTree.RBTree.SinkLeft` | Server/3rd_lib/libuv/include/tree.h:460-464 | Red sibling: after the rotation the defect is unchanged one level deeper, under a red parent with a black sibling |
| `RedBlackTree.RBTree.SinkRight` | Server/3rd_lib/libuv/include/tree.h:493-497 | The mirror image |
| `RedBlackTree.RBTree.InsertColor` | Server/3rd_lib/libuv/include/tree.h:407-449 | Started on a tree whose only defect is a red node that may lie under a red parent, ends red-black with the same in-order sequence; it terminates and never needs a grandparent that is missing |
| `RedBlackTree.RBTree.RepairLeft` | Server/3rd_lib/libuv/include/tree.h:414-429 | One round under a left parent: what defect there may be left is strictly nearer the root, and the in-order sequence is unchanged |
| `RedBlackTree.RBTree.RepairRight` | Server/3rd_lib/libuv/include/tree.h:430-446 | The mirror image |
| `RedBlackTree.RBTree.Insert` | Server/3rd_lib/libuv/include/tree.h:598-626 | A key not in the tree: exactly that node is added, at its place in the order, and the tree stays valid; a key that is there: the resident node is returned and nothing changes; same bound on the nodes visited as for RB_FIND |
| `RedBlackTree.RBTree.InsertAt` | Server/3rd_lib/libuv/include/tree.h:615-624 | Linking the node at the end of the descent and repairing colours keeps the whole tree valid |
| `RedBlackTree.RBTree.Find` | Server/3rd_lib/libuv/include/tree.h:628-644 | Returns the one node whose key compares equal, or null if and only if there is none; a descent visiting h nodes of an n-node tree has 2^ceil(h/2) <= n+1 |
| `RedBlackTree.RBTree.NFind` | Server/3rd_lib/libuv/include/tree.h:646-665 | Returns the least node whose key is not below the given one, or null if all are below; same bound on the nodes visited |
| `RedBlackTree.RBTree.Next` | Server/3rd_lib/libuv/include/tree.h:667-687 | The node after the given one in key order, null at the last |
| `RedBlackTree.RBTree.Prev` | Server/3rd_lib/libuv/include/tree.h:689-709 | The node before the given one in key order, null at the first |
| `RedBlackTree.RBTree.MinMax` | Server/3rd_lib/libuv/include/tree.h:710-724 | The first or the last node in key order, null for the empty tree |
| `RedBlackTree.RBTree.Foreach` | Server/3rd_lib/libuv/include/tree.h:738-741 | Visits every node exactly once in key order |
| `RedBlackTree.RBTree.NextPrev` | Server/3rd_lib/libuv/include/tree.h:667-709 | RB_PREV undoes RB_NEXT |
| `RedBlackTree.RBTree.Drain` | Server/3rd_lib/libuv/include/tree.h:748-751 | A safe iteration whose body removes the current node visits all nodes in order and ends with the empty tree |
| `RedBlackTree.RBTree.RotateLeft` | Server/3rd_lib/libuv/include/tree.h:342-360 | The pointer updates of a left rotation turn the shape at any place of the tree, links in both directions included, and leave the rest alone |
| `RedBlackTree.RBTree.RotateRight` | Server/3rd_lib/libuv/include/tree.h:362-380 | The mirror image |
| `RedBlackTree.RBTree.SetBlackRed` | Server/3rd_lib/libuv/include/tree.h:333-336 | Recolours two nodes and nothing else |
| `RedBlackTree.RBTree.Splice` | Server/3rd_lib/libuv/include/tree.h:579-590 | Unlinking a node with at most one child puts the child in its place |
| `RedBlackSearch.HeightBound` | Server/3rd_lib/libuv/include/tree.h:53-61 | The bound of the header, 2 lg(n+1), for every path of a red-black tree |
| `RedBlackSearch.Descend` | Server/3rd_lib/libuv/include/tree.h:635-642 | One comparison of a descent keeps the searched key between everything to the left and to the right of the place reached |
| `RedBlackSearch.Absent` | Server/3rd_lib/libuv/include/tree.h:643 | A descent that runs out proves that no node has the key |
| `RedBlackShape.StraightKeeps` | Server/3rd_lib/libuv/include/tree.h:428-429 | The final recolouring and rotation of insertion repairs the whole tree |
| `RedBlackShape.BentKeeps` | Server/3rd_lib/libuv/include/tree.h:422-427 | The inner rotation of insertion leaves the same defect in straight position |
| `RedBlackShape.RecoloredKeeps` | Server/3rd_lib/libuv/include/tree.h:416-421 | A red uncle: recolouring moves the defect two levels up |
| `RedBlackShape.LendKeeps` | Server/3rd_lib/libuv/include/tree.h:465-471 | A black sibling with black children: colouring it red moves the defect to the parent |
| `RedBlackShape.OutwardKeeps` | Server/3rd_lib/libuv/include/tree.h:473-482 | The rotation at the sibling keeps the defect and makes its outer child red |
| `RedBlackShape.SettledKeeps` | Server/3rd_lib/libuv/include/tree.h:483-489 | The last rotation of removal leaves no defect |
| `RedBlackShape.SiblingExists` | Server/3rd_lib/libuv/include/tree.h:459-465 | The short side always has a sibling, so the code never dereferences a missing one |
| `RedBlackShape.SpliceKeeps` | Server/3rd_lib/libuv/include/tree.h:579-593 | What unlinking a node does to the colour invariants |
| `RedBlackShape.RenameKeeps` | Server/3rd_lib/libuv/include/tree.h:559-570 | Putting the successor in the place and colour of the removed node changes no colour invariant |
| `RedBlackShape.SuccessorInorder` | Server/3rd_lib/libuv/include/tree.h:541-570 | Taking the successor out and putting it in the removed node's place removes exactly that node from the order |
| `SplayTree.SplayTree.Splay` | Server/3rd_lib/libuv/include/tree.h:209-242 | On a nonempty search tree it terminates, keeps the in-order sequence and the node set, and leaves a root with every key of its left subtree below and every key of its right subtree above the searched key |
| `SplayTree.SplayTree.Search` | Server/3rd_lib/libuv/include/tree.h:215-240 | The loop: left tree, middle tree and right tree hung off the dummy node keep the order of all nodes, and the side trees stay below and above the key |
| `SplayTree.SplayTree.GoLeft` | Server/3rd_lib/libuv/include/tree.h:217-227 | One round to the left, with its rotation and its exits: the invariant holds again and the middle tree shrinks |
| `SplayTree.SplayTree.GoRight` | Server/3rd_lib/libuv/include/tree.h:228-239 | One round to the right |
| `SplayTree.SplayTree.StepLeft` | Server/3rd_lib/libuv/include/tree.h:228 | The root goes to the right tree and its left subtree is searched next: order and brackets are kept and the middle tree shrinks |
| `SplayTree.SplayTree.StepRight` | Server/3rd_lib/libuv/include/tree.h:238 | The mirror image |
| `SplayTree.SplayTree.Assemble` | Server/3rd_lib/libuv/include/tree.h:112-117 | The four stores put the three trees together into one tree over the same nodes, though an empty side tree ends in the dummy node itself |
| `SplayTree.SplayTree.RotateRight` | Server/3rd_lib/libuv/include/tree.h:88-92 | The rotation at the root of the middle tree, the side trees untouched |
| `SplayTree.SplayTree.RotateLeft` | Server/3rd_lib/libuv/include/tree.h:94-98 | The mirror image |
| `SplayTree.SplayTree.LinkLeft` | Server/3rd_lib/libuv/include/tree.h:100-104 | The root of the middle tree becomes the growing end of the right tree |
| `SplayTree.SplayTree.LinkRight` | Server/3rd_lib/libuv/include/tree.h:106-110 | The root of the middle tree becomes the growing end of the left tree |
| `SplayTree.SplayTree.Insert` | Server/3rd_lib/libuv/include/tree.h:164-186 | An absent key: exactly that node is added at its place; a present one: its resident node is returned and the order is unchanged; the root is then the new or the resident node |
| `SplayTree.SplayTree.Remove` | Server/3rd_lib/libuv/include/tree.h:188-207 | Removes exactly the node whose key compares equal and returns the argument; returns null and changes nothing else if there is none |
| `SplayTree.SplayTree.JoinSides` | Server/3rd_lib/libuv/include/tree.h:196-204 | Splaying the left side by the removed key leaves a root without right child, to which the right side is hung |
| `SplayTree.SplayTree.Find` | Server/3rd_lib/libuv/include/tree.h:128-137 | The node whose key compares equal, or null if and only if there is none; the node found is the root |
| `SplayTree.SplayTree.Next` | Server/3rd_lib/libuv/include/tree.h:139-151 | The successor in key order of a node of the tree; that node itself is then the root |
| `SplayTree.SplayTree.MinMax` | Server/3rd_lib/libuv/include/tree.h:153-158 | The first or the last node, which is then the root |
| `SplayTree.SplayTree.SplayMinMax` | Server/3rd_lib/libuv/include/tree.h:247-278 | Ends with the least (greatest) node at the root, the order unchanged |
| `SplayTree.SplayTree.Foreach` | Server/3rd_lib/libuv/include/tree.h:292-295 | Visits every node exactly once in key order |
| `SplayTree.StopSplits` | Server/3rd_lib/libuv/include/tree.h:219-238 | Both exits of the loop, a key found and a missing subtree, give a root that splits the keys around the searched one |
| `SplayTree.CompareRoot` | Server/3rd_lib/libuv/include/tree.h:216-237 | Moving the root of the middle tree to a side keeps the sides below and above the key |
| `SplayTree.NoneAbove` | Server/3rd_lib/libuv/include/tree.h:200-203 | A tree all of whose keys are below the splayed one has no right child at its root |
| `SplayShape.AssembledInorder` | Server/3rd_lib/libuv/include/tree.h:112-117 | Assembling keeps the in-order sequence of the three trees |
| `SplayShape.RotatedRightSame` | Server/3rd_lib/libuv/include/tree.h:88-92 | A rotation keeps the order, the nodes and their number |
| `ArenaMachine.EventKeepsInv` | Server/protobuf/google/protobuf/arena.cc:56-303 | Every event (Init, a call of an allocation, one step of a thread, Reset, destruction, a thread that ends and one that inherits its cache address), for any number of threads and arenas in any interleaving, keeps the invariant of all arenas and threads |
| `ArenaMachine.RegionsAreSafe` | Server/protobuf/google/protobuf/arena.cc:172-228 | In every reachable state, memory handed out in an arena since its last Reset lies in live blocks behind the header, is 8-aligned and at least as long as asked for, and no two pieces overlap |
| `ArenaMachine.ArenasShareNothing` | Server/protobuf/google/protobuf/arena.cc:98-102 | No block is in two arenas and no two arenas have the same lifecycle id, though freed addresses come back |
| `ArenaMachine.FastPathsFind` | Server/protobuf/google/protobuf/arena.cc:185-201 | In every reachable state a block cached under the arena's lifecycle id, and a block in the hint, are in the arena's current list. The cached one is what FindBlock would return, except while the thread is between linking in a new block of its own and caching it; the hint, if the thread owns its block, except between the link and the store of the hint |
| `ArenaMachine.OnlyTheOwnerBumps` | Server/protobuf/google/protobuf/arena.cc:204-211 | Between the read and the write of pos no one else has moved it, the block belongs to the thread, and the request fits |
| `ArenaMachine.CallsReturnTheirMemory` | Server/protobuf/google/protobuf/arena.cc:204-228 | The address that a call returns is that of memory recorded as handed out, for its own request |
| `ArenaMachine.StepsKeepMemory` | Server/protobuf/google/protobuf/arena.cc:172-228 | A step keeps all memory handed out in its arena and leaves blocks of other owners as they are |
| `ArenaMachine.StepsStayInTheirArena` | Server/protobuf/google/protobuf/arena.cc:172-228 | A step changes no other arena |
| `ArenaMachine.CleanupRunsAll` | Server/protobuf/google/protobuf/arena.cc:163-170 | While no call is between its exchange and its store, the chain from the list head holds every pushed node exactly once in reverse exchange order, so every registered object is cleaned up once; all nodes lie in memory not yet freed |
| `ArenaMachine.SpaceIsAccounted` | Server/protobuf/google/protobuf/arena.cc:240-248 | SpaceUsed is the sum of the 8-rounded requests since the last Reset, and leaving out each thread's newest block the capacity of all blocks is at most twice that |
| `ArenaMachine.BlocksDouble` | Server/protobuf/google/protobuf/arena.cc:116-138 | In every reachable state the sizes of the blocks a thread owns in an arena double: the first has the start size, or is the one the caller gave, and the one after k others has the smaller of the maximum and 2^k times that, whatever was requested in between |
| `ArenaMachine.NewBlockOnlyIfNeeded` | Server/protobuf/google/protobuf/arena.cc:213-228 | In every reachable state a thread about to link in a new block has no room for its request in its newest, whatever other threads did since it looked |
| `ArenaMachine.BlocksAreNamed` | Server/protobuf/google/protobuf/arena.cc:154-161 | In every reachable state the steps after a search that found a block, and after linking one in that has room, make hint and cache name it; other steps leave both alone |
| `ArenaMachine.OnlyExchangesRegister` | Server/protobuf/google/protobuf/arena.cc:163-170 | In every reachable state the exchange step registers exactly the object of its request, with the node its allocation returned, behind all registered before; no other step registers or drops anything |
| `ArenaMachine.ResetStartsOver` | Server/protobuf/google/protobuf/arena.cc:98-113 | Reset leaves no block, or the caller's alone with its size, no space used, the resetting thread as its owner, and the same options |
| `ArenaMachine.ResetInvalidatesCaches` | Server/protobuf/google/protobuf/arena.cc:98-102 | After Reset no other thread's cache carries the arena's lifecycle id |
| `ArenaMachine.ResetTakesFreshId` | Server/protobuf/google/protobuf/arena.cc:98-102 | Reset leaves the other arenas as they are, under other lifecycle ids |
| `ArenaProof.OtherThread` | Server/protobuf/google/protobuf/arena.cc:172-228 | A step of one thread does not disturb what holds between the arena and another thread |
| `ArenaProof.StepKeeps` | Server/protobuf/google/protobuf/arena.cc:149-228 | Each of the ten kinds of step keeps its arena sound and its thread in agreement with it |
| `ArenaAlone.AloneIsOutcome` | Server/protobuf/google/protobuf/arena.cc:172-228 | The steps of one allocation, run without interruption from its call to its return, give the block list, headers and address that AllocateAligned gives as one call |
| `ArenaModel.SpaceBound` | Server/protobuf/google/protobuf/arena.cc:116-138 | The space bound for one arena, from how blocks are superseded |
| `ArenaModel.OutcomeFits` | Server/protobuf/google/protobuf/arena.cc:217-222 | The search alone, for a request that fits in the first block of the list that the thread owns: the memory is taken there, and nothing else changes |
| `ArenaModel.OutcomeMakes` | Server/protobuf/google/protobuf/arena.cc:223-227 | Otherwise a new block goes in front, of the size that the blocks of its thread grow to, or filled exactly by the request and then without owner |
| `ArenaModel.SizesDouble` | Server/protobuf/google/protobuf/arena.cc:116-138 | The sizes in closed form, for one arena, from how each block relates to the one before it |
| `ArenaModel.CleanupChain` | Server/protobuf/google/protobuf/arena.cc:285-293 | Following next from the head gives the pushed nodes in reverse order, each once |
| `ArenaModel.FreedOnce` | Server/protobuf/google/protobuf/arena.cc:250-283 | FreeBlocks hands every block the arena allocated to the deallocator exactly once with its own size, and never the caller's |
| `ArenaModel.FreedIsAllocated` | Server/protobuf/google/protobuf/arena.cc:250-283 | The total that FreeBlocks returns is the sum of the sizes it gives back and of the block it keeps for the caller |
| `ArenaModel.NewBlock` | Server/protobuf/google/protobuf/arena.cc:116-147 | A new block has the start size if the thread has no block, and otherwise the smaller of the maximum and twice the size of its last; if the request with its header does not fit there, exactly what it takes. It holds the request behind its header and has an owner if and only if it has room left |
| `ArenaBlocks.Arena.AllocateAligned` | Server/protobuf/google/protobuf/arena.cc:172-202 | Whatever the thread cache and the hint hold, the block and position handed out and the new block list are those of the search alone |
| `ArenaBlocks.Arena.SlowAlloc` | Server/protobuf/google/protobuf/arena.cc:213-228 | The same for the search path, after which cache and hint name the block used, unless it is new and full |
| `ArenaBlocks.Arena.ServeFound` | Server/protobuf/google/protobuf/arena.cc:217-222 | Serving from the block found makes cache and hint name it |
| `ArenaBlocks.Arena.AddBlock` | Server/protobuf/google/protobuf/arena.cc:223-227 | A new block goes in front of the list; cache and hint name it, or stay as they were if it is full |
| `ArenaBlocks.Arena.AddBlockInternal` | Server/protobuf/google/protobuf/arena.cc:154-161 | The block goes in front of the list; the hint follows if it has room |
| `ArenaBlocks.Arena.AllocFromBlock` | Server/protobuf/google/protobuf/arena.cc:204-211 | Returns the old position and moves it by the request, no other block changed |
| `ArenaBlocks.Arena.MakeBlock` | Server/protobuf/google/protobuf/arena.cc:116-147 | Allocates a block of exactly that size, computed by the branches on the last block and on the request, and fills in its header |
| `ArenaBlocks.Arena.FindOwned` | Server/protobuf/google/protobuf/arena.cc:295-303 | The first block of the list that the thread owns, or null |
| `ArenaBlocks.Arena.SpaceAllocated` | Server/protobuf/google/protobuf/arena.cc:230-238 | The sum of the sizes of all blocks |
| `ArenaBlocks.Arena.SpaceUsed` | Server/protobuf/google/protobuf/arena.cc:240-248 | The sum of what all blocks have handed out |
| `ArenaBlocks.Arena.FreeBlocks` | Server/protobuf/google/protobuf/arena.cc:250-283 | Returns the allocated total, frees each block once with its size except the caller's, and sets up the empty arena again |
| `ArenaBlocks.Arena.Reset` | Server/protobuf/google/protobuf/arena.cc:98-113 | Cleans up all registered objects while their nodes are in blocks of the arena, then frees the blocks; returns the space that was allocated |
| `ArenaBlocks.Arena.constructor` | Server/protobuf/google/protobuf/arena.cc:56-86 | Init with the caller's block or none |
| `ArenaBlocks.Arena.AddListNode` | Server/protobuf/google/protobuf/arena.cc:163-170 | Allocates a node and puts the object, in a node at that memory, in front of those registered before; all nodes lie in blocks of the arena |
| `ArenaBlocks.CleanupList.Run` | Server/protobuf/google/protobuf/arena.cc:285-293 | Cleans up every registered object once, the last one first, visiting only nodes in blocks that are still there, and forgets the list |
| `ArenaBlocks.BumpConsistent` | Server/protobuf/google/protobuf/arena.cc:204-211 | Taking memory from the thread's own block keeps cache and hint in agreement with the search |
| `ArenaBlocks.PushConsistent` | Server/protobuf/google/protobuf/arena.cc:213-228 | So does a new block |
| `AnyParser.AnyMessage.MergePartialFromCodedStream` | Server/protobuf/google/protobuf/any.pb.cc:197-255 | The parser with its jumps computes the plain read-tag-and-dispatch meaning, contents and verdict, for every input, every starting message, every recursion budget left and every way in which ExpectTag and ExpectAtEnd may see or miss what comes next |
| `AnyParser.AnyMessage.ReadField` | Server/protobuf/google/protobuf/any.pb.cc:202-247 | One field with its tag: what is left to be parsed gives the meaning of the whole, also when the tag of field 2 was taken ahead |
| `AnyParser.AnyMessage.ParseFromString` | Server/protobuf/google/protobuf/any.pb.cc:197-255 | Parsing into a cleared message succeeds if and only if the plain meaning ends well and at a place where a message may end |
| `AnyFields.SerializedFields` | Server/protobuf/google/protobuf/any.pb.cc:281-302 | Serializing writes the URL as a length-delimited field 1 and then the payload as a length-delimited field 2, each only if it is not empty |
| `AnyFields.SerializedBytes` | Server/protobuf/google/protobuf/any.pb.cc:281-302 | The bytes: 10, the length and the URL, then 18, the length and the payload |
| `AnyFields.ValueField` | Server/protobuf/google/protobuf/any.pb.cc:221-233 | A length-delimited field 2, empty or not, replaces the payload, whatever was there and whatever follows |
| `AnyFields.UrlField` | Server/protobuf/google/protobuf/any.pb.cc:207-219 | A length-delimited field 1, empty or not, replaces the URL; if it is not UTF-8, parsing fails after it has done so |
| `AnyFields.EndGroupStops` | Server/protobuf/google/protobuf/any.pb.cc:236-243 | An end-group tag after any complete input stops the parser: what was read stands, what follows is not looked at, and the message did not end where it may |
| `AnyFields.NoTagStops` | Server/protobuf/google/protobuf/any.pb.cc:236-241 | So does a zero, and a tag that does not end in its first ten bytes |
| `AnyFields.StopIsRefused` | Server/protobuf/google/protobuf/any.pb.cc:236-243 | Input with a zero or an end-group tag after a complete message is not accepted as a message |
| `AnyFields.TruncatedField` | Server/protobuf/google/protobuf/wire_format_lite.cc:492-503 | A length that runs past the end of the input fails, with the rest of the input in the field; one of 2^31 or more fails and leaves the field as it was |
| `AnyFields.EndlessLength` | Server/protobuf/google/protobuf/wire_format_lite.cc:492-503 | A length that does not end in its first ten bytes fails and leaves the message as it was |
| `AnyFields.BadField` | Server/protobuf/google/protobuf/wire_format_lite.cc:121-164 | An unknown field of wire type 6 or 7, or one of another type whose bytes are missing, makes parsing fail |
| `AnyFields.WrongGroupFails` | Server/protobuf/google/protobuf/wire_format_lite.cc:140-151 | A group that does not end, or ends with the tag of another number, makes parsing fail, whatever fields are in it |
| `AnyFields.OtherFieldIsSkipped` | Server/protobuf/google/protobuf/wire_format_lite.cc:121-164 | Any other tag is skipped by its wire type alone: a varint, eight bytes, a length and as many bytes, or four bytes |
| `AnyParser.AnyMessage.MergeFrom` | Server/protobuf/google/protobuf/any.pb.cc:339-349 | Nonempty fields of the other message replace the own ones |
| `AnyParser.AnyMessage.CopyFrom` | Server/protobuf/google/protobuf/any.pb.cc:351-361 | The message becomes equal to the other, also when it is the same object |
| `AnyParser.AnyMessage.ByteSize` | Server/protobuf/google/protobuf/any.pb.cc:304-325 | The size computed and cached is the number of bytes that serializing gives |
| `AnyParser.Input.ReadTagWithCutoff` | Server/protobuf/google/protobuf/io/coded_stream.h:950-989 | Fast paths for one and for two bytes and the slow path read the same tag, and compare it with any cutoff |
| `AnyParser.Input.ReadVarint` | Server/protobuf/google/protobuf/io/coded_stream.cc:475-498 | Reads a varint of at most ten bytes as its definition says; a failed read stays where it was if the buffer held all of it, and otherwise stops behind the bytes looked at |
| `AnyParser.Input.ReadBytes` | Server/protobuf/google/protobuf/wire_format_lite.cc:494-509 | Reads a length and as many bytes, and says what the target holds when that fails |
| `AnyParser.Input.SkipField` | Server/protobuf/google/protobuf/wire_format_lite.cc:121-164 | Skips the field that its tag announces, groups with a matching end tag included |
| `AnyParser.Input.SkipMessage` | Server/protobuf/google/protobuf/wire_format_lite.cc:223-240 | Skips fields up to the matching end-group tag |
| `AnyParser.VerifyUtf8` | Server/protobuf/google/protobuf/stubs/structurally_valid.cc:525-532 | The table-driven scan accepts exactly the UTF-8 strings |
| `Wire.TableIsUtf8` | Server/protobuf/google/protobuf/stubs/structurally_valid.cc:96-285 | The state table accepts exactly what the grammar of section 4 of RFC 3629 allows |
| `Unicode.Utf8IffScalars` | Server/protobuf/google/protobuf/stubs/structurally_valid.cc:96-285 | The strings accepted are exactly the encodings of sequences of code points below 0x110000 that are not surrogates |
| `AnyCodec.ParseConcat` | Server/protobuf/google/protobuf/any.pb.cc:197-255 | For every two inputs: the second parsed after the first, if the first ends where a message may end, continues from what the first left |
| `AnyCodec.ConcatIsMerge` | Server/protobuf/google/protobuf/any.pb.cc:339-349 | Parsing two serialized messages in a row is MergeFrom of the second into the first |
| `AnyCodec.ParseSerialized` | Server/protobuf/google/protobuf/any.pb.cc:257-302 | Serialized input parsed into any message merges it, whatever follows |
| `AnyCodec.RoundTrip` | Server/protobuf/google/protobuf/any.pb.cc:257-302 | Parsing a serialized message gives it back |
| `AnyCodec.RoundTripOnlyIfUtf8` | Server/protobuf/google/protobuf/any.pb.cc:208-213 | The round trip holds if and only if the type URL is UTF-8 |
| `AnyCodec.InvalidUrlIsRefused` | Server/protobuf/google/protobuf/any.pb.cc:208-213 | A message with a type URL that is not UTF-8, which serializes and is then refused |
| `AnyCodec.UnknownFieldIsSkipped` | Server/protobuf/google/protobuf/any.pb.cc:236-243 | A well-formed field that Any does not have, inserted after any complete input, changes nothing |
| `AnyCodec.ForeignField` | Server/protobuf/google/protobuf/wire_format_lite.cc:141-152 | A field of any other shape is skipped if its groups nest no deeper than the budget of the stream, and makes parsing fail otherwise |
| `AnyCodec.UnknownIfShallow` | Server/protobuf/google/protobuf/wire_format_lite.cc:141-152 | Such a field is well-formed if and only if its groups nest no deeper than the budget |
| `AnyCodec.DeepGroupsFail` | Server/protobuf/google/protobuf/wire_format_lite.cc:140-151 | Groups nested n deep are skipped if n is at most 100, and make parsing fail otherwise |
| `AnyCodec.SizeIsLength` | Server/protobuf/google/protobuf/any.pb.cc:304-325 | Tag, length and payload sizes add up to the length of the serialized message |
| `WireFields.SkipEncoded` | Server/protobuf/google/protobuf/wire_format_lite.cc:121-164 | Skipping ends exactly behind the encoded field, or fails because of its depth |
| `Wire.VarintRoundTrip` | Server/protobuf/google/protobuf/io/coded_stream.h:1072-1081 | Reading an encoded varint gives it back and stops behind it |
| `Wire.VarintDigits` | Server/protobuf/google/protobuf/io/coded_stream.h:1072-1081 | The bytes of a varint are the base-128 digits of the number, the lowest first, all but the last with the high bit set, and no more than it takes |
| `Wire.VarintReads` | Server/protobuf/google/protobuf/io/coded_stream.cc:475-495 | A varint ends with the first byte below 128, if that is one of the first ten, and has the low seven bits of its bytes as base-128 digits |
| `Wire.VarintFails` | Server/protobuf/google/protobuf/io/coded_stream.cc:475-495 | Otherwise reading it fails |
| `Wire.VarintSizeIsLength` | Server/protobuf/google/protobuf/io/coded_stream.h:1155-1161 | The thresholds give the length of the encoding |
| `AnyWriter.SerializeWithCachedSizesToArray` | Server/protobuf/google/protobuf/any.pb.cc:281-302 | Writes exactly the serialized message at the place given and changes nothing else |
| `AnyWriter.WriteVarint32ToArray` | Server/protobuf/google/protobuf/io/coded_stream.h:1072-1081 | Writes exactly the encoded varint and changes nothing else |
| `AnyWriter.SerializeToString` | Server/protobuf/google/protobuf/any.pb.cc:281-302 | Room made by ByteSize is filled exactly |
| `AnyUrl.ParseAnyTypeUrl` | Server/protobuf/google/protobuf/any.cc:80-94 | Succeeds if and only if the URL starts with a known prefix, and then gives the rest |
| `AnyUrl.TypeNameOfUrl` | Server/protobuf/google/protobuf/any.cc:38-40 | ParseAnyTypeUrl undoes GetTypeUrl |
| `AnyUrl.UrlOfName` | Server/protobuf/google/protobuf/any.cc:38-46 | GetTypeUrl puts type.googleapis.com/ in front of the name; type.googleprod.com/ is understood too |
| `AnyUrl.TypeNameIff` | Server/protobuf/google/protobuf/any.cc:80-94 | A URL gives a type name if and only if it is one of the two prefixes followed by it |
| `AnyUrl.IsAcceptsEnds` | Server/protobuf/google/protobuf/any.cc:67-78 | Which types Is accepts after packing: exactly the ends of prefix and name |
| `AnyUrl.IsAcceptsAnother` | Server/protobuf/google/protobuf/any.cc:67-78 | So Is can accept a type that was not packed |
| `AnyUrl.UnnestNest` | Server/protobuf/google/protobuf/any.cc:52-65 | An Any packed into Any to any depth is recovered exactly by as many UnpackTo calls if and only if it was not packed at all or its type URL is UTF-8 |
| `AnyUrl.UnpackChecks` | Server/protobuf/google/protobuf/any.cc:59-78 | The check of the type in the value form of UnpackTo: nothing exactly when the URL does not end in the name |
| `AnyUrl.AnyMetadata.UnpackToAny` | Server/protobuf/google/protobuf/any.cc:59-65 | If the URL is shorter than the 19 bytes of google.protobuf.Any or does not end in them, the call fails and the target is unchanged; otherwise it holds what parsing the payload into an empty message gives, and success is that of the parse |
| `AnyUrl.AnyMetadata.PackFromAny` | Server/protobuf/google/protobuf/any.cc:52-57 | URL and payload of the packed message, which is unchanged |
| `NetLoad.RoundTripIff` | Server/netPack/commDef.hpp:219-244 | A value of any shape of structs and vectors reads back into any variable, with the cursor right behind it, if and only if no string in it has 32768 bytes or more, no vector in it has more than 1000 elements and no long long in it has a negative low half under a high half other than -1 |
| `NetCodec.LongLost` | Server/netPack/commDef.hpp:209 | A long long that is read back wrong |
| `NetCodec.IntBytes` | Server/netPack/commDef.hpp:289 | The bytes of an int on the wire: the four digits to base 256 of its value modulo 2^32, the highest first |
| `NetCodec.ShortBytes` | Server/netPack/commDef.hpp:291 | The bytes of a short: two digits, the high one first |
| `NetCodec.FloatBytes` | Server/netPack/commDef.hpp:287 | The bytes of a float: its bits, the high byte first |
| `NetCodec.LongBytes` | Server/netPack/commDef.hpp:285 | A long long is written as its high half and then its low half, each as an int |
| `NetCodec.StringBytes` | Server/netPack/commDef.hpp:297 | A string is its length in two bytes, the high one first, and its bytes |
| `NetCodec.VectorBytes` | Server/netPack/commDef.hpp:300-316 | A vector is its length modulo 65536 in two bytes, the high one first, and its elements |
| `NetCodec.IntFromBytes` | Server/netPack/commDef.hpp:207 | An int is read as the number in range whose value modulo 2^32 has the four bytes as digits, the highest first |
| `NetCodec.ShortFromBytes` | Server/netPack/commDef.hpp:213 | The same for a short and two bytes |
| `NetCodec.StringReads` | Server/netPack/commDef.hpp:217 | The length of a string is read as two bytes without a sign; a string longer than the data has no outcome |
| `NetCodec.StringLost` | Server/netPack/commDef.hpp:297 | A string whose length wraps around, which comes back as its first four bytes |
| `NetBuffer.LongStringFits` | Server/netPack/commDef.hpp:267 | A string of 65540 bytes passes the buffer of ten bytes, as one of four |
| `NetCodec.StringExact` | Server/netPack/commDef.hpp:297 | A string reads back as the part that its length, cast to a short, says |
| `NetCodec.VectorReadsAsPrefix` | Server/netPack/commDef.hpp:219-237 | A vector of n elements that read back is read as its first n mod 65536 elements if those are at most 1000, and otherwise as none; the cursor stops before the first element left out |
| `NetBuffer.BufferRoundTripIff` | Server/netPack/commDef.hpp:267 | Through a buffer of any size into a variable that held anything, a value of any shape comes back if and only if each part that fits survives its encoding, each number or string that does not fit is what the variable held already (an element of a vector: what the element before it was), fewer than two bytes follow such a string, and the lengths of vectors fit |
| `NetBuffer.SecondIntIsDropped` | Server/netPack/commDef.hpp:267 | Of two ints in a struct the buffer that the constructor makes drops the second: reading gives back what its variable held |
| `NetBuffer.ApartRoundTripIff` | Server/netPack/commDef.hpp:267 | Into a variable that held something else in every part, a value without vectors comes back if and only if it is of that kind and fits |
| `NetBuffer.FittingRoundTrip` | Server/netPack/commDef.hpp:267 | A value of that kind that fits comes back whatever the variable held |
| `NetBuffer.RepeatedElementSurvives` | Server/netPack/commDef.hpp:230-236 | A vector of two equal ints comes back through the buffer of ten bytes although it does not fit: the variable of the loop still holds the first |
| `NetLoad.MessageRoundTrip` | Server/netPack/commDef.hpp:885-886 | After reading the id first, the fields of a message read back into any variables if and only if they are of that kind |
| `NetCodec.UnPackReadsId` | Server/netPack/commDef.hpp:885-886 | UnPack alone takes the id for the first field |
| `NetLoad.ReadVectorReadsPrefix` | Server/netPack/commDef.hpp:431-466 | ReadVector reads a vector of n elements as its first n mod 65536 elements if those are below 32768, and otherwise as none, with the cursor before the first element left out |
| `NetLoad.ReadVectorIff` | Server/netPack/commDef.hpp:431-466 | ReadVector, which has no cap, gives back what WriteVector wrote if and only if its size is a short |
| `NetLoad.LoadIsDecode` | Server/netPack/commDef.hpp:219-244 | As long as the data do not run out, reading does not depend on what the variables held |
| `NetLoad.LoadsBack` | Server/netPack/commDef.hpp:219-244 | A faithful value is read back whatever the variable held and whatever follows |
| `NetCodec.ReadTakesSize` | Server/netPack/commDef.hpp:219-244 | Reading a value that can be written takes as many bytes as writing it |
| `NetBuffer.IntoFills` | Server/netPack/commDef.hpp:299-323 | A value is written whole if it fits, and never beyond the buffer |
| `NetLoad.LoadExact` | Server/netPack/commDef.hpp:219-244 | Reading what was written gives exactly the value, or never it, as it is of that kind or not |
| `NetStream.WriteStream.PutValue` | Server/netPack/commDef.hpp:299-323 | The operators write each part that fits and drop each part that does not; the header holds the size again after every part written |
| `NetStream.WriteStream.PutNumber` | Server/netPack/commDef.hpp:287-293 | A number that fits is appended as its bytes by place value, the highest first, and the size is stored; one that does not fit changes nothing |
| `NetStream.WriteStream.Put` | Server/netPack/commDef.hpp:271 | One bounds-checked copy: all of the bytes behind the payload, or nothing |
| `NetStream.WriteStream.Flush` | Server/netPack/commDef.hpp:329 | Stores the size in the four bytes of the header, the high byte first, and leaves payload and cursor alone |
| `NetStream.WriteStream.WriteVector` | Server/netPack/commDef.hpp:431-452 | Writes the length and the elements; without room for the length, nothing |
| `NetStream.WriteStream.PackMessage` | Server/netPack/commDef.hpp:885-886 | Writes the id and then the fields |
| `NetStream.ReadStream.GetValue` | Server/netPack/commDef.hpp:219-244 | What a variable holds after the operators have read into it, also if the data run out: numbers keep what they held and reading goes on |
| `NetStream.ReadStream.GetNumber` | Server/netPack/commDef.hpp:207-215 | A number with enough data is the one in range whose bytes by place value are the next ones, the highest first; without, the variable and the cursor stay |
| `NetStream.Transfer` | Server/netPack/commDef.hpp:219-323 | A value written with the operators to one stream and read with them from another comes back whole under exactly the condition of BufferRoundTripIff |
| `NetStream.ReadStream.GetMany` | Server/netPack/commDef.hpp:230-236 | The loop over the elements of a vector, all read into one variable that carries over |
| `NetStream.ReadStream.GetAll` | Server/netPack/commDef.hpp:483-484 | The fields of a struct, in order, each into the variable it has |
| `NetStream.ReadStream.GetVector` | Server/netPack/commDef.hpp:453-466 | ReadVector, with a negative length read as none |
| `NetStream.WriteStream.PutString` | Server/netPack/commDef.hpp:297 | Writes as much of a string as its length, cast to a short, says, or nothing if that does not fit |

## Left out

- The amortised cost of splaying (it needs logarithms) and the `RB_AUGMENT` hook, a no-op by default; the reverse and "from" iteration macros, which repeat RB_PREV and RB_NEXT.
- ArenaThread.Search: the walk of FindBlock is one step. Blocks are only added in front of the list and owners never change outside Reset, so a walk split further meets the same blocks of its thread.
- ArenaThread.StepArena: steps are sequentially consistent; the memory orders of the atomic operations, the block mutex (the model allows more interleavings than it) and the address sanitizer are not modelled.
- ArenaMachine.Enabled: Reset and destruction happen while no thread works in the arena, as the header demands, and are one step; cleanups that allocate from the same arena, hooks and cookies, and `size_t` overflow are left out.
- ArenaBlocks.Arena.FreeBlocks: freeing is the list of blocks and sizes handed to the deallocator; the memory itself does not go away.
- ArenaBlocks.Arena.AddListNode: the node is an object that records the memory it is in; its bytes are not written there.
- AnyParser.Input.SkipField: byte limits of a stream are not modelled, nor is where it stands after a failed skip: no caller reads on.
- AnyParser.VerifyUtf8: the skipping of runs of ASCII, and the answer "valid" before static initialization, are left out.
- SerializeWithCachedSizes onto a stream, descriptors, reflection, swapping and string ownership of Any: plumbing around the byte format.
- AnyCodec.Fits: serializing is modelled for messages below two gigabytes; the code reports an error above.
- AnyUrl.AnyMetadata.PackFromAny: not for an Any packed into itself; the code would then serialize the message into its own value while it changes, which has no defined outcome.
- AnyUrl.AnyMetadata.UnpackToAny: not into the same Any, which the code would clear while it parses it; other message types are their serialized bytes.
- NetLoad.Load: two cases stay without an outcome because the code has none: the length of a vector that is missing and left uninitialized, and a string longer than the data. What an uninitialized number holds is taken to depend on its type only.
- NetCodec.Has: a string whose length becomes negative as a short (32768 to 65535 bytes, and so on every 65536) is not a value here: the code passes the negative length on as the size of a copy, so it has no defined outcome. `NetCodec.Encode` and `NetBuffer.IntoFills` are total and give such a string its length alone, which means nothing.
- NetStream.WriteStream.PutValue: asks for strings whose length, as a short, is not negative, see NetCodec.Has; the host is little-endian, as the byte swaps of the code assume.
- Text streams, seeking, and the overloads into caller buffers of commDef: they repeat the same bounds checks.
