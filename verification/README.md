# Rings, brigades, hooks, lines and alignment

A Dafny model of the parts of this repository that have complete bodies: the intrusive doubly linked
ring of `diffusion/include/apr_ring.h`, the bucket brigades built on it, the hook runners, the line
splitter of `src/main.cpp` and the alignment macro. `dafny verify dfyconfig.toml` checks everything.

## How the ring is modelled

Three layers, each proved to refine the next.

* **Memory** (`Layout`, `RingMemory`). A memory is a map from addresses to words. An element's `next` and
  `prev` are the cells at a byte offset `link` from its address, one pointer apart; a ring's sentinel is
  the head's address less that offset, so the head's own two cells are the sentinel's pointers and
  nothing else of the sentinel exists. Class `Memory` runs the macros as ordered assignments to cells,
  each reading memory again where the macro text does.
* **Heap** (`Links`, `Splice`, `Macros`). What one link field of a memory amounts to: a `next` and a
  `prev` map over nodes, a sentinel being a node like any other. `Layout.Shows` says that a memory holds
  a heap; `Layout.Changes` says that a macro took one heap to another and wrote no cell outside the
  ring entries of its nodes. Every method of `Memory` that writes ends in such a statement.
* **Sequences** (`Forests`, `Effects`, `Runs`, `Rings`). Any number of rings, with a head (a sentinel and
  its contents) or without one (a loop of elements), and detached chains, no two sharing a node, and
  steps on them.

Every notion that the results are stated in is tied to pointers, cells, counts or bytes by a lemma or a
contract of its own: a ring (`CycleMeans`), what a memory shows (`ShowsMeans`), what a heap represents
(`RepresentsMeans`), each step (`Effects`), each macro's cells (the methods of `Memory`), a bucket's known
bytes (`KnownMeans`), a run of hooks (`RunAllMeans`), the byte stream (`StreamMeans`, `RejoinMeans`), the
bits of an aligned size (`AlignBit`).

`Walk`, `RingLoops` and `Dancing` hold the consistency walk, the two iteration macros and removal with
exact restoration. `Brigades` adds bucket lengths and freeing. `Hooks`, `Lines` and `Align` stand alone.

Four things the model shows about the code and its comments:

* The comments at `diffusion/include/apr_ring.h:221` and `diffusion/include/apr_ring.h:238` say that
  SPLICE_BEFORE and SPLICE_AFTER do not work at the ends of a ring. The code does work there: before the
  first element it does exactly what SPLICE_HEAD does, after the last what SPLICE_TAIL does
  (`SpliceAtTheEnds`). The model follows the code.
* REMOVE takes its argument by name. Given the expression `APR_RING_FIRST(hp)` it never leaves a ring
  unless the ring was empty (`RemoveFirstNeedsAValue`); given `APR_RING_LAST(hp)` it always takes out
  the last element (`RemoveLastIsSafe`). CONCAT and PREPEND pass such expressions themselves, and there
  it is harmless (`Memory.Concat`, `Memory.Prepend`).
* The comment at `diffusion/include/apr_buckets.h:991` has apr_bucket_delete remove a bucket from its
  brigade "if any". On a bucket that is on no brigade the removal still writes where the bucket's own
  pointers lead. All brigades stay as they are if and only if those places already skip the bucket
  (`RemoveDetached`), as they do after APR_BUCKET_INIT (`InitIsHarmless`). A bucket that was removed
  before does not guarantee it: removing it again can drop another one (`SecondRemoveDropsAnother`).
* The second assertion of the consistency walk cannot change its verdict (`SecondCheckRedundant`).

## Model

| member | source | states |
|---|---|---|
| `Splice.InitRing` | diffusion/include/apr_ring.h:192-215 | INIT makes the empty ring of a head; ELEM_INIT, the same two assignments, a ring of one element |
| `Splice.EmptyIffNoContents` | diffusion/include/apr_ring.h:204-205 | the EMPTY test holds exactly of rings without contents |
| `Splice.SpliceBeforeRing` | diffusion/include/apr_ring.h:228-233 | SPLICE_BEFORE at any node of a ring, the sentinel included, inserts the whole chain just before it |
| `Splice.SpliceAfterRing` | diffusion/include/apr_ring.h:245-250 | SPLICE_AFTER at any node of a ring inserts the whole chain just after it |
| `Splice.BeforeIsAfterPrev` | diffusion/include/apr_ring.h:228-250 | splicing before a node and after its predecessor yield the same heap |
| `Splice.SpliceAtTheEnds` | diffusion/include/apr_ring.h:218-250 | before the first element and after the last, the two splices give the heap of SPLICE_HEAD and SPLICE_TAIL |
| `Splice.SpliceHeadRing` | diffusion/include/apr_ring.h:286-288 | SPLICE_HEAD puts the chain before the contents, also of an empty ring |
| `Splice.SpliceTailRing` | diffusion/include/apr_ring.h:299-301 | SPLICE_TAIL puts the chain after the contents, also of an empty ring |
| `Splice.ConcatRings` | diffusion/include/apr_ring.h:332-339 | CONCAT appends the second ring's contents to the first's and empties the second |
| `Splice.PrependRings` | diffusion/include/apr_ring.h:348-355 | PREPEND puts the second ring's contents before the first's and empties the second |
| `Splice.UnspliceFromRing` | diffusion/include/apr_ring.h:364-369 | UNSPLICE takes out exactly the segment, leaves it a chain and the rest a ring, empty if that was all |
| `Splice.UnspliceRing` | diffusion/include/apr_ring.h:364-369 | the same at any place of a ring, with or without a head |
| `Splice.UnspliceWhole` | diffusion/include/apr_ring.h:364-369 | unsplicing all of a headless ring changes no pointer |
| `Splice.UnspliceNothing` | diffusion/include/apr_ring.h:364-369 | UNSPLICE changes no pointer if and only if the segment's neighbours already skip it |
| `Splice.RingSurvives` | diffusion/include/apr_ring.h:364-369 | a ring survives the UNSPLICE of anything if and only if those of the two written pointers that are its own already had the written values |
| `Splice.ChainSurvives` | diffusion/include/apr_ring.h:364-369 | the same for a detached chain, of whose pointers only the inner ones count |
| `Splice.UnspliceThenSplice` | diffusion/include/apr_ring.h:228-233 | splicing a segment back before its retained successor restores the whole heap if and only if its outer links were consistent |
| `Splice.SpliceThenUnsplice` | diffusion/include/apr_ring.h:364-369 | unsplicing what was spliced in restores every pointer but the segment's two outer ones, which dangle |
| `Splice.SpliceHeadless` | diffusion/include/apr_ring.h:228-233 | a whole headless ring spliced into another at any points gives the one ring of both, cut and pasted |
| `Splice.SpliceHeadlessAfter` | diffusion/include/apr_ring.h:245-250 | the same for SPLICE_AFTER |
| `Splice.MirrorSplice` | diffusion/include/apr_ring.h:228-250 | SPLICE_AFTER is SPLICE_BEFORE with next and prev exchanged |
| `Splice.MirrorUnsplice` | diffusion/include/apr_ring.h:364-369 | UNSPLICE is its own mirror image, although it writes next first |
| `Splice.RemoveFirstNeedsAValue` | diffusion/include/apr_ring.h:364-378 | REMOVE of APR_RING_FIRST substituted by name leaves a ring if and only if there was nothing to remove |
| `Splice.RemoveLastIsSafe` | diffusion/include/apr_ring.h:364-378 | REMOVE of APR_RING_LAST substituted by name is REMOVE of the last element, and changes nothing of an empty ring |
| `Links.ChainMeans` | diffusion/include/apr_ring.h:70-74 | a chain is distinct elements whose next and prev pointers lead from each to the following one and back |
| `Links.CycleMeans` | diffusion/include/apr_ring.h:82-95 | a ring, of a sentinel and its contents or headless, is such a chain whose ends lead to each other |
| `Links.Rotate` | diffusion/include/apr_ring.h:43-44 | a ring may be read from any of its nodes |
| `Links.MirrorCycle` | diffusion/include/apr_ring.h:88-89 | a ring, headless or not, is a ring in the other direction too, its nodes reversed |
| `Links.MirrorRing` | diffusion/include/apr_ring.h:88-89 | following prev from the sentinel meets the contents in reverse |
| `Layout.ShowsMeans` | diffusion/include/apr_ring.h:70-74 | next is the pointer at the link offset, prev the one 8 bytes further, and entries do not overlap |
| `Layout.ChangesMeans` | diffusion/include/apr_ring.h:174-183 | a macro's change leaves every cell that holds no ring pointer alone |
| `Layout.SeparateMeans` | diffusion/include/apr_ring.h:61-63 | the entries of two link fields are separate when no cell is in both |
| `Layout.SameMemory` | diffusion/include/apr_ring.h:70-74 | if only ring entries were written and they hold the same heap again, all memory is as before |
| `Layout.OtherLink` | diffusion/include/apr_ring.h:61-63 | writing entries of one link field leaves the heap of separate entries alone |
| `Layout.FieldsAreSeparate` | diffusion/include/apr_ring.h:61-63 | two ring entries of a struct, and the heads of their rings, share no cell, phantom sentinels included, so an element may be on a ring of each |
| `RingMemory.Memory.First` | diffusion/include/apr_ring.h:159-166 | reads the word at the head's address, which is the next pointer of its phantom sentinel |
| `RingMemory.Memory.Last` | diffusion/include/apr_ring.h:171 | reads the head's second word, which is the prev pointer of its phantom sentinel |
| `RingMemory.Memory.Next` | diffusion/include/apr_ring.h:177 | reads the next pointer at the link offset |
| `RingMemory.Memory.Prev` | diffusion/include/apr_ring.h:183 | reads the prev pointer at the link offset |
| `RingMemory.Memory.Init` | diffusion/include/apr_ring.h:192-195 | both words of the head become the head's address less the link offset, and no other cell changes |
| `RingMemory.Memory.IsEmpty` | diffusion/include/apr_ring.h:204-205 | true exactly when the head's first word is the head's address less the link offset; on a ring, when it has no contents |
| `RingMemory.Memory.ElemInit` | diffusion/include/apr_ring.h:212-215 | both pointers of the element become its own address, and no other cell changes |
| `RingMemory.Memory.SpliceBefore` | diffusion/include/apr_ring.h:228-233 | the four assignments, each re-reading PREV(lep), splice the chain in; exactly the cells of epN's next, ep1's prev, the predecessor's next and lep's prev are written |
| `RingMemory.Memory.SpliceAfter` | diffusion/include/apr_ring.h:245-250 | likewise after lep, with the cells of ep1's prev, epN's next, the successor's prev and lep's next |
| `RingMemory.Memory.InsertBefore` | diffusion/include/apr_ring.h:261-262 | splices a single element before lep |
| `RingMemory.Memory.InsertAfter` | diffusion/include/apr_ring.h:273-274 | splices a single element after lep |
| `RingMemory.Memory.SpliceHead` | diffusion/include/apr_ring.h:286-288 | the ring's contents become the chain followed by the old contents |
| `RingMemory.Memory.SpliceTail` | diffusion/include/apr_ring.h:299-301 | the ring's contents become the old contents followed by the chain |
| `RingMemory.Memory.InsertHead` | diffusion/include/apr_ring.h:311-312 | the element becomes the first of the contents |
| `RingMemory.Memory.InsertTail` | diffusion/include/apr_ring.h:322-323 | the element becomes the last of the contents |
| `RingMemory.Memory.Concat` | diffusion/include/apr_ring.h:332-339 | FIRST(h2) and LAST(h2) read again by name at each use give the cells that reading them once gives |
| `RingMemory.Memory.Prepend` | diffusion/include/apr_ring.h:348-355 | likewise for PREPEND |
| `RingMemory.Memory.Unsplice` | diffusion/include/apr_ring.h:364-369 | the two assignments, the second re-reading NEXT(epN) and PREV(ep1), take the segment out; exactly the cells of the predecessor's next and the successor's prev are written |
| `RingMemory.Memory.Remove` | diffusion/include/apr_ring.h:377-378 | takes a single element out |
| `RingMemory.Memory.RemoveFirstByName` | diffusion/include/apr_ring.h:364-378 | the two assignments of REMOVE with APR_RING_FIRST read again at each use, as `RemoveFirstNeedsAValue` has them |
| `RingMemory.Memory.RemoveLastByName` | diffusion/include/apr_ring.h:364-378 | likewise with APR_RING_LAST |
| `Forests.RepresentsMeans` | diffusion/include/apr_ring.h:192-378 | a heap represents disjoint chains, each filed under its first node, those of heads and of headless rings being rings |
| `Forests.NodesMeans` | diffusion/include/apr_ring.h:192-378 | the nodes that steps conserve are those on any run |
| `Effects.InitEffect` | diffusion/include/apr_ring.h:192-215 | INIT and ELEM_INIT point a node at itself: the head's ring is empty, the element is a ring of its own, and what followed is left as a chain |
| `Effects.BeforeEffect` | diffusion/include/apr_ring.h:228-233 | the pointers that SPLICE_BEFORE writes, and the ring with the chain or headless ring before the named node |
| `Effects.AfterEffect` | diffusion/include/apr_ring.h:245-250 | the same for SPLICE_AFTER |
| `Effects.TakeEffect` | diffusion/include/apr_ring.h:364-369 | the pointers that UNSPLICE writes, the ring without the segment, and the segment as a chain |
| `Effects.TakeAllEffect` | diffusion/include/apr_ring.h:364-369 | UNSPLICE of all of a headless ring changes nothing |
| `Effects.AgainEffect` | diffusion/include/apr_ring.h:364-369 | the pointers that UNSPLICE of a detached chain writes |
| `Effects.CatEffect` | diffusion/include/apr_ring.h:332-339 | the pointers that CONCAT writes, and both rings afterwards |
| `Effects.PreEffect` | diffusion/include/apr_ring.h:348-355 | the pointers that PREPEND writes, and both rings afterwards |
| `Effects.RegardEffect` | diffusion/include/apr_ring.h:43-44 | regarding a chain as two, or a headless ring as a chain or from another node, writes no pointer |
| `Forests.StepRefines` | diffusion/include/apr_ring.h:192-378 | each macro does to all rings, with or without a head, and chains what its sequence step says (a repeated UNSPLICE where that is safe): the named rings change as documented, all others stay, rings stay disjoint and well-formed, no node is lost or invented |
| `Forests.AgainIsSafe` | diffusion/include/apr_ring.h:364-369 | unsplicing a detached chain once more keeps all rings and chains if and only if whatever its stale pointers lead to already skips it |
| `Runs.RunKeepsValid` | diffusion/include/apr_ring.h:192-378 | after any run over any number of heads, headless rings and link fields, every head of the start is still the head of a well-formed ring, all rings are disjoint, and each field's nodes are conserved |
| `Runs.ValidMeans` | diffusion/include/apr_ring.h:61-74 | each link field of a world shows a heap that represents its rings and chains, and no two fields share a cell |
| `Runs.EventKeepsValid` | diffusion/include/apr_ring.h:192-378 | an event writes what its macro writes, changes the forest of its link field as its step says, and keeps all else |
| `Runs.RunMeans` | diffusion/include/apr_ring.h:192-378 | a run is a world, or a run and one more event |
| `Rings.AnyStart` | diffusion/include/apr_ring.h:70-74 | any elements with a ring entry each, whatever it holds, are a world to begin with |
| `Rings.RingOf` | diffusion/include/apr_ring.h:212-233 | ELEM_INIT of any elements and SPLICE_BEFORE of each ring of one link them, in memory and in order, into one headless ring |
| `Runs.RunKeepsOtherLinks` | diffusion/include/apr_ring.h:61-63 | a run that does not name a link field leaves that field's rings and pointers unchanged |
| `Runs.OnOneRing` | diffusion/include/apr_ring.h:61-63 | at any time an element is at one place of one ring of a link field at most |
| `Runs.Perform` | diffusion/include/apr_ring.h:192-378 | the memory's methods carry out any step the sequences allow (and that is safe, if it is a repeated UNSPLICE), as the next event of a run over all link fields |
| `Runs.RingsPassCheck` | diffusion/include/apr_ring.h:444-456 | after any run the consistency check passes from every node of every ring, and every head of the start has one, whatever dangles elsewhere |
| `Dancing.RemovalMeans` | diffusion/include/apr_ring.h:364-369 | a segment is removable when its neighbours point back at it, and its removal joins them |
| `Dancing.RemovalsJoin` | diffusion/include/apr_ring.h:364-369 | removals in a row are the first ones and then the others |
| `Dancing.ReinsertionMeans` | diffusion/include/apr_ring.h:228-233 | a reinsertion puts a segment before the node that its last node points to |
| `Dancing.ReinsertionsJoin` | diffusion/include/apr_ring.h:228-233 | reinsertions in a row start with the last segments |
| `Dancing.RestMeans` | diffusion/include/apr_ring.h:377-378 | what the removals leave are the elements not removed, in order |
| `Dancing.RemoveThenReinsert` | diffusion/include/apr_ring.h:364-378 | segments taken out one after another and spliced back in reverse order, each before the successor it still points to, restore the heap |
| `Dancing.RemoveElements` | diffusion/include/apr_ring.h:377-378 | any distinct elements of a ring can be so removed, in any order, leaving the ring of the rest, and put back |
| `Dancing.RemoveEach` | diffusion/include/apr_ring.h:364-369 | UNSPLICE of the segments in turn takes the memory to the heap without them |
| `Dancing.ReinsertEach` | diffusion/include/apr_ring.h:228-233 | SPLICE_BEFORE in reverse order, at the successor read from the segment's own cell, takes the memory to the heap with them |
| `Dancing.Dance` | diffusion/include/apr_ring.h:228-369 | removal of any such segments and their reinsertion give back every cell of the memory |
| `Dancing.MemoryRestored` | diffusion/include/apr_ring.h:228-369 | so does any removal and reinsertion, however carried out, that wrote ring entries only |
| `Walk.RingUnique` | diffusion/include/apr_ring.h:88-89 | a heap determines the contents of a ring |
| `Walk.NoneDangles` | diffusion/include/apr_ring.h:448-456 | the walk needs no more of a heap than that its pointers lead to nodes |
| `Walk.OnRingMeans` | diffusion/include/apr_ring.h:448-456 | a node is on a ring if and only if some closed walk along next starts there and prev takes each step back, whether or not the walk repeats nodes |
| `Walk.NotMetBefore` | diffusion/include/apr_ring.h:451-455 | the first node the walk meets twice is the start |
| `Walk.FailedCheck` | diffusion/include/apr_ring.h:452-453 | a walk that meets a failing assertion did not start on a ring |
| `Walk.SecondCheckRedundant` | diffusion/include/apr_ring.h:452-453 | a walk whose nodes pass the first assertion and that closes has passed the second |
| `RingLoops.CheckElemConsistency` | diffusion/include/apr_ring.h:448-456 | on any closed heap, corrupted or not, the walk ends, and passes if and only if the start's next-orbit is a cycle on which prev inverts next |
| `RingLoops.CheckConsistency` | diffusion/include/apr_ring.h:444-446 | from a head, it passes if and only if the head is the head of a ring |
| `RingLoops.Foreach` | diffusion/include/apr_ring.h:387-390 | visits exactly the contents, in order, and ends, when the body changes no ring |
| `RingLoops.ForeachRemoving` | diffusion/include/apr_ring.h:387-390 | does so too when the body leaves or removes the current element; what was left stays a ring in order, what was removed is detached, and all else stays |
| `RingLoops.ForeachSafe` | diffusion/include/apr_ring.h:400-403 | with a body that leaves or removes the current element, or moves it to another ring, visits every original element once in order and ends; the rings end as the order-preserving partition and all else stays |
| `RingLoops.SweptMeans` | diffusion/include/apr_ring.h:400-403 | what ForeachSafe and ForeachRemoving end with: each ring, chain and head spelled out |
| `RingLoops.PickedMeans` | diffusion/include/apr_ring.h:400-403 | elements are picked in their order |
| `RingLoops.PickedSplits` | diffusion/include/apr_ring.h:400-403 | what was left, removed and moved together are the original elements |
| `RingLoops.Visit` | diffusion/include/apr_ring.h:322-378 | REMOVE, then INSERT_TAIL on another ring, moves exactly that element; its next leads where it did, unless it was moved: then to the other ring's sentinel, where FOREACH would go on |
| `Brigades.KnownMeans` | diffusion/include/apr_buckets.h:224-232 | a bucket adds the value of its length field to what is known of a list, and nothing if that is -1 |
| `Brigades.ValidMeans` | diffusion/include/apr_buckets.h:224-260 | every element of a brigade is a bucket of 64 bytes of its own, its ring entry first and its length at 24 |
| `Brigades.InsertHead` | diffusion/include/apr_buckets.h:358-362 | the bucket becomes the brigade's first, named by the word behind the brigade's pool pointer |
| `Brigades.InsertTail` | diffusion/include/apr_buckets.h:369-373 | the bucket becomes the brigade's last, named by the word after that |
| `Brigades.Concat` | diffusion/include/apr_buckets.h:380-383 | brigade b's buckets follow a's, b is empty, no other brigade changes |
| `Brigades.Prepend` | diffusion/include/apr_buckets.h:390-393 | brigade b's buckets precede a's, b is empty, no other brigade changes |
| `Brigades.InsertBefore` | diffusion/include/apr_buckets.h:400-404 | the bucket comes just before the named one, or last before the brigade's sentinel |
| `Brigades.InsertAfter` | diffusion/include/apr_buckets.h:411-415 | the bucket comes just after the named one, or first after the brigade's sentinel |
| `Brigades.Remove` | diffusion/include/apr_buckets.h:434 | the bucket leaves its brigade and is detached, no other brigade changes |
| `Brigades.Delete` | diffusion/include/apr_buckets.h:1001-1004 | a bucket on a brigade or a headless ring leaves it, its cells are freed, its brigade's known bytes fall by exactly its length field, or by nothing if that is -1, every other brigade's stay, and no cell outside the bucket and the ring entries changes |
| `Brigades.RemoveDetached` | diffusion/include/apr_buckets.h:434 | removing a bucket leaves every brigade's ring as it was if and only if the places its pointers lead to already skip it, and likewise every other ring and chain |
| `Brigades.InitIsHarmless` | diffusion/include/apr_buckets.h:434-440 | after APR_BUCKET_INIT the removal changes no pointer |
| `Brigades.SecondRemoveDropsAnother` | diffusion/include/apr_buckets.h:434 | removing a bucket twice drops the bucket that was inserted in between |
| `Brigades.DeleteDetached` | diffusion/include/apr_buckets.h:990-1004 | a bucket on no brigade, its pointers harmless, is freed; every brigade, and every other ring and chain that already skips it, keeps its buckets and known bytes, and no cell outside the bucket and the ring entries changes |
| `Brigades.KeptMeans` | diffusion/include/apr_buckets.h:434 | the rings and chains kept are those that do not have the bucket and that its removal leaves as they are |
| `Brigades.LoosenIsSafe` | diffusion/include/apr_buckets.h:990-1004 | so the removal of a bucket on no brigade, its pointers harmless, is a step of a run, once the headless rings and chains it would tear are given up |
| `Brigades.DestroyKeepsValid` | diffusion/include/apr_buckets.h:985-988 | freeing a detached bucket takes away its 64 bytes and nothing else: every other bucket, its place and its length stay |
| `Brigades.StepGain` | diffusion/include/apr_buckets.h:224-237 | each macro keeps all brigades in order and changes the known bytes of each by exactly its gain |
| `Brigades.RunMeans` | diffusion/include/apr_buckets.h:358-440 | a run is a state, or a run and one more step |
| `Brigades.NextGain` | diffusion/include/apr_buckets.h:358-440 | what a run brings is the sum of what its steps bring |
| `Brigades.RunGain` | diffusion/include/apr_buckets.h:358-440 | at every moment of any run a brigade holds what it started with and what the steps so far brought it |
| `Hooks.HookTable.Register` | diffusion/include/apr_hooks.h:143-161 | appends the hook, making the array first if there is none |
| `Hooks.CourseMeans` | diffusion/include/apr_hooks.h:192-202 | each hook is called in the state that the one before it left |
| `Hooks.RunAllMeans` | diffusion/include/apr_hooks.h:222-250 | RUN_ALL ends, in the state and with the value of that hook, at the first value that is neither ok nor decline, or else returns ok |
| `Hooks.RunFirstMeans` | diffusion/include/apr_hooks.h:267-295 | RUN_FIRST ends at the first value that is not decline, or else returns decline |
| `Hooks.TraceMeans` | diffusion/include/apr_hooks.h:238-240 | each hook called is between its INVOKE and its COMPLETE, with its name and value |
| `Hooks.RunVoid` | diffusion/include/apr_hooks.h:179-202 | every hook runs, in order, with its probes |
| `Hooks.RunAll` | diffusion/include/apr_hooks.h:222-250 | state, value and probe trace of running up to the first value that is neither ok nor decline |
| `Hooks.RunFirst` | diffusion/include/apr_hooks.h:267-295 | state, value and probe trace of running up to the first value that is not decline |
| `Hooks.RunAllOptional` | diffusion/include/apr_optional_hooks.h:90-110 | the early-return loop reaches the same state and value and calls the same number of hooks as RUN_ALL's outcome |
| `Hooks.Calls` | diffusion/include/apr_hooks.h:236-244 | the hooks called end with the first whose value stops the run, or are all of them |
| `Hooks.StopsAt` | diffusion/include/apr_hooks.h:241-242 | the first value that does not pass ends the run there |
| `Hooks.RunsOut` | diffusion/include/apr_hooks.h:236-244 | if every value passes, every hook is called |
| `Hooks.FirstIsAll` | diffusion/include/apr_hooks.h:267-295 | RUN_FIRST with decline d is RUN_ALL with ok and decline d |
| `Hooks.AllValue` | diffusion/include/apr_hooks.h:204-206 | RUN_ALL returns ok if and only if no hook stops it, even if all decline, and never decline unless that is ok |
| `Hooks.AllJoin` | diffusion/include/apr_hooks.h:222-250 | running A then B is running A and, only if nothing stopped it, B from the state A left |
| `Hooks.PairAt` | diffusion/include/apr_hooks.h:238-240 | the probes come in INVOKE, COMPLETE pairs in the order of the array |
| `Lines.LineProducer` | src/main.cpp:28-40 | whatever the read sizes, what was sent and the pending line are the stream cut at its newlines |
| `Lines.StreamMeans` | src/main.cpp:32-33 | a read adds to the stream the bytes that it counts, none if it counts 0 or less |
| `Lines.RejoinMeans` | src/main.cpp:34-38 | lines stand for their bytes with a line feed between them |
| `Lines.SplitUnique` | src/main.cpp:33-38 | a stream can be cut at its newlines in one way only |
| `Lines.ChunksDoNotMatter` | src/main.cpp:31-40 | equal streams give equal lines and pending line, however they were read |
| `Lines.SentIsFinal` | src/main.cpp:34-36 | reading on only adds to the lines sent |
| `Align.AlignBit` | diffusion/include/apr_general.h:136-137 | for any boundary, the result has those bits of the wrapped sum that the boundary less one does not have |
| `Align.Pow2Means` | diffusion/include/apr_general.h:135 | powers of two |
| `Align.AlignIsLeast` | diffusion/include/apr_general.h:136-137 | for a power of two, if the addition does not wrap, the result is the least multiple not below the size |
| `Align.AlignWraps` | diffusion/include/apr_general.h:136-137 | if it wraps the result is 0, so the result is at least the size if and only if nothing wraps |
| `Align.AlignIdempotent` | diffusion/include/apr_general.h:136-137 | aligned sizes stay, without wrapping |
| `Align.AlignMonotone` | diffusion/include/apr_general.h:136-137 | larger sizes do not align lower |
| `Align.AlignTwice` | diffusion/include/apr_general.h:136-137 | aligning to a smaller power of two first makes no difference |
| `Align.DefaultIsLeast` | diffusion/include/apr_general.h:140 | the default alignment is to the least multiple of 8 |
| `Align.NotIsComplement` | diffusion/include/apr_general.h:137 | the complement taken bit by bit is the distance from the largest word |
| `Align.MaskClears` | diffusion/include/apr_general.h:137 | the bit mask, taken bit by bit, takes off the remainder |

## Left out

- Functions that are only declared (pools, tables, the Diffusion client, brigade splitting and reading): they have no body here.
- The type-dependent `destroy` callback of a bucket: reached through a pointer; only the removal and the freeing are modelled.
- The consistency check that ends the brigade macros in debug builds: it changes nothing, and passes from every node of every ring (`RingsPassCheck`).
- Links that come to be outside any ring: taking an inner element out of a detached chain joins its neighbours, which the model goes on treating as two chains.
- The printing of the debug ring dump: its walk is the one of the consistency check.
- Words of memory are unbounded integers at byte addresses, and a cell is written whole: pointer arithmetic does not wrap and objects do not overlap.
- CONCAT and PREPEND of a ring with itself, and REMOVE or UNSPLICE by name with arguments that the writes change, other than `APR_RING_FIRST` and `APR_RING_LAST`.
- Hook registration: the sort registration and the debug display have no body here; the array is fixed while a runner is active.
- A hook's arguments are part of the state it transforms, and a function pointer is a number that the program's code gives a meaning.
- LineProducer: the loop is cut after any number of reads; the conversion to wide strings and the pause after an empty read are not part of the model.
- Align: what the bits amount to for boundaries that are not powers of two, and boundary expressions narrower than the size.
