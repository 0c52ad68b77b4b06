# Rings, brigades, hooks and alignment in the Apache Portable Runtime headers

The headers `apr_ring.h`, `apr_buckets.h`, `apr_general.h`, `apr_hooks.h` and `apr_optional_hooks.h` contain
executable code in the form of macros. This project models those macros and proves what they are for.

**The text of the macros.** A macro pastes the text of its arguments at every use. In `Macros` an argument is a
variable or a link read through another argument (`FIRST(hp)` is `NEXT` of the sentinel), a ring macro is the
list of assignments it expands to, and every operand is read when its turn comes. `Execute` is the other
reading, in which arguments are values; `Macros.ByValue` and the module `Rereading` say for which arguments
the two agree.

**Memory.** `Memory.Memory` is a flat memory: a map from addresses to words that the macros assign one word
at a time. The sentinel of a ring is an address computed from the head and need not be the address of anything.
`Holds` relates memory to a `Links.Heap`, in which the sentinels are ordinary nodes; every macro is proved to
have on memory the effect its text has on that heap, and to change nothing else. What layout makes this sound is
stated by `Layout` and proved sufficient. Addresses count pointer-sized, aligned words. Heads are given by
their addresses, which do not depend on links.

**Rings.** `Links` proves the macros right on sequences, their arguments being values: a ring is a cycle of
distinct nodes with mutually inverse links, written as a sequence with the sentinel first if it has one.
`RoundTrips` shows which uses undo each other, down to every link. `Runs` is the state machine: a collection of
rings and loose chains, changed by commands, simulated by the macros over runs of any length. `WordRuns` says
the same of memory.

**Checks, brigades.** `RingCheck` is the debugging loop over links that may be corrupt. `Brigades` has the
bucket lists: the walks, the wrappers, and the deletion of buckets until none is left, with the words of a
freed bucket gone from memory, so that the proofs show none is touched again. `Sharing` is the reference
counting, from the promises of the header alone.

**Alignment, hooks.** `Align` derives the exact behaviour of the mask from its bits. `Hooks` has registration
and the four runners over callbacks that change the state.

**What goes wrong.** The argument of a ring macro must not be a link that the macro itself writes.

- SPLICE_BEFORE(FIRST(hp), ..) and SPLICE_AFTER(LAST(hp), ..) destroy every ring, as the warnings above the
  two macros say. With the first or last element in a variable, or given as the sentinel, they work at the ends
  of a ring and on an empty one. SPLICE_BEFORE(LAST(hp), ..) and SPLICE_AFTER(FIRST(hp), ..) always work.
- REMOVE(FIRST(hp)) destroys every ring that is not empty; REMOVE(LAST(hp)) works.
- apr_bucket_delete(APR_BRIGADE_FIRST(b)) and apr_bucket_delete(APR_BRIGADE_LAST(b)) destroy the wrong bucket,
  always. A bucket must be bound to a variable before it is deleted, and the cleanup loop here does so.
- INSERT_BEFORE(NEXT(e), e), for an element that has been removed, works: the link that is read again is the
  one the first assignment writes, with the value it has.

The comments above the INSERT macros of brigades and buckets speak of a list; the code inserts one bucket.

## Model

| member | source | states |
|---|---|---|
| Macros.ByValue | Trabalho 1/Apache2.2/include/apr_ring.h:192-378 | With variables as arguments, every macro does what it would do if it read each argument once; for CONCAT and PREPEND the second head must not be linked to itself on the LAST side only. |
| Macros.ConcatReread | Trabalho 1/Apache2.2/include/apr_ring.h:332-339 | For every heap: reading FIRST(h2) and LAST(h2) again changes the result of CONCAT if and only if LAST(h2) alone is h2's sentinel, FIRST(h2) is not h1's sentinel, and not both LAST(h1) and PREV of FIRST(h2) are h2's sentinel. |
| Macros.PrependReread | Trabalho 1/Apache2.2/include/apr_ring.h:348-355 | The same for PREPEND, where the remaining case is FIRST(h1) == FIRST(h2). |
| Rereading.SpliceBeforeNext | Trabalho 1/Apache2.2/include/apr_ring.h:228-233 | For every heap: SPLICE_BEFORE(NEXT(p), ..) does what it would do with a variable if and only if NEXT(p) is not linked back to p, or is ep1 itself, or p is epN. |
| Rereading.SpliceAfterPrev | Trabalho 1/Apache2.2/include/apr_ring.h:245-250 | The mirror image: SPLICE_AFTER(PREV(p), ..), with the exact condition. |
| Rereading.SpliceBeforeNextBreaks | Trabalho 1/Apache2.2/include/apr_ring.h:219-224 | For every ring, the empty one included, and every chain that is not on it, SPLICE_BEFORE(NEXT(p), ..) leaves no ring through p. With the sentinel as p this is SPLICE_BEFORE(FIRST(hp), ..), and the warning above the macro is right. |
| Rereading.SpliceAfterPrevBreaks | Trabalho 1/Apache2.2/include/apr_ring.h:236-241 | Likewise SPLICE_AFTER(PREV(p), ..), so SPLICE_AFTER(LAST(hp), ..). |
| Rereading.SplicePastEnds | Trabalho 1/Apache2.2/include/apr_ring.h:228-250 | SPLICE_BEFORE(PREV(p), ..) and SPLICE_AFTER(NEXT(p), ..) do what they would do with a variable, on every ring. |
| Rereading.RemoveNextBreaks | Trabalho 1/Apache2.2/include/apr_ring.h:364-378 | REMOVE(NEXT(p)), so REMOVE(FIRST(hp)), leaves a ring of the intended elements if and only if the ring has no other node than p, where it changes nothing; otherwise no ring goes through p. |
| Rereading.RemovePrev | Trabalho 1/Apache2.2/include/apr_ring.h:364-378 | REMOVE(PREV(p)), so REMOVE(LAST(hp)), does what it would do with a variable, on every ring. |
| Rereading.UnspliceNextBreaks | Trabalho 1/Apache2.2/include/apr_ring.h:364-369 | UNSPLICE(NEXT(p), epN) leaves no ring through p, whatever the segment. |
| Rereading.RemoveFirstExample | Trabalho 1/Apache2.2/include/apr_ring.h:364-378 | The smallest failing ring: after REMOVE(FIRST(hp)) on two elements, FIRST is the second element, LAST the one to be removed, and the second element is not linked back to the head. |
| Links.SpliceBeforeRing | Trabalho 1/Apache2.2/include/apr_ring.h:228-233 | With its place given as a value: a chain of any length that is not on the ring, spliced before any node of any ring, the first element and the sentinel of an empty ring included, ends up just there, in order; at most four nodes' links change. |
| Links.SpliceAfterRing | Trabalho 1/Apache2.2/include/apr_ring.h:245-250 | With its place given as a value: the same after any node; and the heap written is the very one SPLICE_BEFORE the following node would write. |
| Links.SpliceOwnSegment | Trabalho 1/Apache2.2/include/apr_ring.h:228-233 | Why the chain must not be on the target ring: a segment spliced in front of the node that follows it, or of its own first node, closes on itself, and no other node is on a ring any more. |
| Links.SpliceIntoSegment | Trabalho 1/Apache2.2/include/apr_ring.h:228-233 | A segment spliced in front of a later node of its own falls apart into two rings, and no other node is on one. |
| Links.SpliceFurtherOn | Trabalho 1/Apache2.2/include/apr_ring.h:228-233 | A segment spliced in front of any other node of its ring: no node of the ring is on a ring any more. |
| Links.UnspliceRing | Trabalho 1/Apache2.2/include/apr_ring.h:364-369 | With its ends given as values: taking a proper segment out leaves the ring of all other nodes in order; the segment is still a chain, and its two outer links dangle into the ring. Two links change. |
| Links.UnspliceWhole | Trabalho 1/Apache2.2/include/apr_ring.h:364-369 | Unsplicing a whole ring changes nothing. |
| Links.MergeRings | Trabalho 1/Apache2.2/include/apr_ring.h:228-233 | Splicing one entire ring, with or without a head, into another gives one ring with the elements of both. |
| Links.Rotate | Trabalho 1/Apache2.2/include/apr_ring.h:40-45 | A ring can be read starting from any of its nodes; no head is needed. |
| Links.RingUnique | Trabalho 1/Apache2.2/include/apr_ring.h:88-90 | The links determine the ring through a node: two readings that start at the same node are equal. |
| Links.InitRing | Trabalho 1/Apache2.2/include/apr_ring.h:192-195 | Initialising a head makes it an empty ring and leaves the elements it had a chain, with all their links as they were. |
| Links.ConcatRings | Trabalho 1/Apache2.2/include/apr_ring.h:332-339 | Rings s1 and s2 become s1+s2 and an empty ring, for all lengths including zero; no other node's links change. |
| Links.PrependRings | Trabalho 1/Apache2.2/include/apr_ring.h:348-355 | Rings s1 and s2 become s2+s1 and an empty ring, for all lengths including zero; no other node's links change. |
| Links.ConcatWithItself | Trabalho 1/Apache2.2/include/apr_ring.h:332-339 | Why the heads must differ: concatenating a ring with itself keeps its contents if and only if it is empty; otherwise the head ends up empty and the elements form a ring without a head. |
| Links.ContentsUnique | Trabalho 1/Apache2.2/include/apr_ring.h:204-205 | The contents of a head are a function of the links, and EMPTY holds if and only if there are none. |
| RoundTrips.UnspliceUndo | Trabalho 1/Apache2.2/include/apr_ring.h:364-369 | Unsplicing a segment and SPLICE_BEFORE(NEXT(epN), ep1, epN), which reads the stale link again, restores every link, provided only that the two nodes around the segment pointed to it. |
| RoundTrips.UndoRun | Trabalho 1/Apache2.2/include/apr_ring.h:364-378 | Any list of segments, removed one after the other and put back in reverse order through their own stale links, restores every link. |
| RoundTrips.UndoElements | Trabalho 1/Apache2.2/include/apr_ring.h:377-378 | In particular any distinct elements of any number of rings, removed in any order with REMOVE and put back with INSERT_BEFORE(NEXT(e), e). |
| RoundTrips.RingsWhileOut | Trabalho 1/Apache2.2/include/apr_ring.h:377-378 | In between, after any distinct elements of any number of rings have been removed: each ring consists of its other elements, in order, and those removed are on no ring; if all elements of a ring are removed, the last one stays on a ring of its own. |
| RoundTrips.InOrder | Trabalho 1/Apache2.2/include/apr_ring.h:364-378 | The calls of such a run: one UNSPLICE for each segment, in order, and one SPLICE_BEFORE for each, in reverse order. |
| RoundTrips.Split | Trabalho 1/Apache2.2/include/apr_ring.h:364-369 | Unsplicing any non-empty suffix and splicing it onto the tail of a freshly initialised head gives the prefix and the suffix as two rings. |
| RoundTrips.SplitJoin | Trabalho 1/Apache2.2/include/apr_ring.h:332-339 | CONCAT after such a split restores every link; only the second head differs from the start, and it is empty. |
| Runs.StepRefines | Trabalho 1/Apache2.2/include/apr_ring.h:192-378 | Each use of a macro, wherever it is allowed, turns the rings and loose chains represented by the links into the intended ones and leaves all others as they were. |
| Runs.CommandDone | Trabalho 1/Apache2.2/include/apr_ring.h:192-378 | Command by command: which rings and chains the calls leave (taking c out of x+c+y leaves the ring x+y and the chain c; joining leaves s1, c1, c2 and s2 alone, or c2 before c1 for PREPEND; a splice leaves x+c+y), and that all lines not named stay. |
| Runs.RunRefines | Trabalho 1/Apache2.2/include/apr_ring.h:192-378 | Every run of macros, with variables as arguments, over any number of rings never leaves the heap, represents exactly the rings and chains of the abstract run, keeps every node on one line only, and loses or invents none. |
| Runs.RunStates | Trabalho 1/Apache2.2/include/apr_ring.h:192-378 | A run is its commands one after the other, and after every one of them the links represent the lines produced so far. |
| Runs.RunContents | Trabalho 1/Apache2.2/include/apr_ring.h:76-95 | After any run the contents of each head are exactly those of the abstract run. |
| Runs.FromScratch | Trabalho 1/Apache2.2/include/apr_ring.h:207-215 | Runs may start from uninitialised links: every node is then a loose chain of its own. |
| WordRuns.RunCommands | Trabalho 1/Apache2.2/include/apr_ring.h:192-378 | The same run carried out on memory, assignment by assignment: the words hold the rings and chains of the abstract run, and no word outside the entries changes. |
| WordRuns.RemoveAndPutBack | Trabalho 1/Apache2.2/include/apr_ring.h:364-378 | Elements removed and put back in reverse order through their stale links: every word of memory is as it was. |
| WordRuns.UnspliceAndPutBack | Trabalho 1/Apache2.2/include/apr_ring.h:364-378 | The same for segments. |
| WordRuns.SplitAndJoin | Trabalho 1/Apache2.2/include/apr_ring.h:332-369 | Split and CONCAT on memory: only the two words of the second head differ, and they are its sentinel. |
| Memory.Memory.Read | Trabalho 1/Apache2.2/include/apr_ring.h:166-183 | An argument that goes through NEXT and PREV any number of times is read from memory as from the links. |
| Memory.Memory.SetNext | Trabalho 1/Apache2.2/include/apr_ring.h:177 | Assigning NEXT of an argument changes the link of the element it denotes now and no other word. |
| Memory.Memory.SetPrev | Trabalho 1/Apache2.2/include/apr_ring.h:183 | Assigning PREV of an argument changes the link of the element it denotes now and no other word. |
| Memory.Memory.Init | Trabalho 1/Apache2.2/include/apr_ring.h:192-195 | The two assignments through the head are the self-links of the sentinel node. |
| Memory.Memory.ElemInit | Trabalho 1/Apache2.2/include/apr_ring.h:212-215 | The element is linked to itself. |
| Memory.Memory.SpliceBefore | Trabalho 1/Apache2.2/include/apr_ring.h:228-233 | The four assignments in the order of the macro, each operand read when its turn comes, for arguments of any form; the links in memory become those of the expansion, and no word outside the entries changes. |
| Memory.Memory.SpliceAfter | Trabalho 1/Apache2.2/include/apr_ring.h:245-250 | Likewise. |
| Memory.Memory.InsertBefore | Trabalho 1/Apache2.2/include/apr_ring.h:261-262 | SPLICE_BEFORE with one argument as both ends. |
| Memory.Memory.InsertAfter | Trabalho 1/Apache2.2/include/apr_ring.h:273-274 | SPLICE_AFTER with one argument as both ends. |
| Memory.Memory.SpliceHead | Trabalho 1/Apache2.2/include/apr_ring.h:286-288 | SPLICE_AFTER the sentinel address computed from the head. |
| Memory.Memory.SpliceTail | Trabalho 1/Apache2.2/include/apr_ring.h:299-301 | SPLICE_BEFORE the sentinel address computed from the head. |
| Memory.Memory.InsertHead | Trabalho 1/Apache2.2/include/apr_ring.h:311-312 | SPLICE_HEAD of one argument. |
| Memory.Memory.InsertTail | Trabalho 1/Apache2.2/include/apr_ring.h:322-323 | SPLICE_TAIL of one argument. |
| Memory.Memory.Concat | Trabalho 1/Apache2.2/include/apr_ring.h:332-339 | EMPTY is tested, then SPLICE_BEFORE is given FIRST(h2) and LAST(h2) as they are written, then h2 is initialised; for every heap on which the expansion follows only allocated links. |
| Memory.Memory.Prepend | Trabalho 1/Apache2.2/include/apr_ring.h:348-355 | The same for PREPEND. |
| Memory.Memory.Unsplice | Trabalho 1/Apache2.2/include/apr_ring.h:364-369 | The two assignments, each operand read when its turn comes, for arguments of any form. |
| Memory.Memory.Remove | Trabalho 1/Apache2.2/include/apr_ring.h:377-378 | UNSPLICE with one argument as both ends. |
| Memory.Memory.CallAll | Trabalho 1/Apache2.2/include/apr_ring.h:192-378 | A list of macro calls carried out on memory is the run of that list on the links. |
| Memory.SentinelsAreNodes | Trabalho 1/Apache2.2/include/apr_ring.h:97-160 | For structs with two ring entries at any offsets and any heads, memory holds the links of elements and sentinels as those of different nodes, and no sentinel address is taken for an element. |
| Memory.EntriesApart | Trabalho 1/Apache2.2/include/apr_ring.h:61-74 | Two entries of such a layout are the same entry or do not overlap. |
| Memory.OtherEntryUntouched | Trabalho 1/Apache2.2/include/apr_ring.h:145-148 | Whatever is written through one entry of the elements, all links through the other entry stay as they are, both ways. |
| Memory.OtherNodesUntouched | Trabalho 1/Apache2.2/include/apr_ring.h:61-63 | Rings through the same entry that share no node with the ones operated on keep their links. |
| Memory.AroundTheSentinel | Trabalho 1/Apache2.2/include/apr_ring.h:123-129 | In words of memory, last->next->next is the first element and first->prev->prev the last, for every ring and offset. |
| RingCheck.CheckElem | Trabalho 1/Apache2.2/include/apr_ring.h:393-418 | The loop ends on every heap whose links lead somewhere, however corrupt; it finds no fault if and only if the start lies on a ring; a fault it reports is the first along the links; and the test of prev->next is the one that fails if and only if it fails at the start while next->prev holds there. |
| RingCheck.Check | Trabalho 1/Apache2.2/include/apr_ring.h:420-432 | From a head, the check finds no fault if and only if the head has well-defined contents. |
| RingCheck.StartOrNew | Trabalho 1/Apache2.2/include/apr_ring.h:407-416 | While the tests succeed, the node reached next is the start or was never visited, which is why the loop ends. |
| RingCheck.ClosedKept | Trabalho 1/Apache2.2/include/apr_ring.h:192-378 | On a heap whose links all lead somewhere, no macro call follows a link outside, whatever links its arguments are read through, and none leads outside afterwards; so a check is possible at any time. |
| Brigades.Forward | Trabalho 1/Apache2.2/include/apr_buckets.h:321-331 | The documented loop to the sentinel ends and visits every bucket once, in order. |
| Brigades.Backward | Trabalho 1/Apache2.2/include/apr_buckets.h:422-428 | The loop over PREV visits as many buckets as there are, the i-th from the end in the i-th step. |
| Brigades.WalkAfterConcat | Trabalho 1/Apache2.2/include/apr_buckets.h:375-383 | After CONCAT the first brigade has the buckets of both in order, the second none. |
| Brigades.WalkAfterPrepend | Trabalho 1/Apache2.2/include/apr_buckets.h:385-393 | After PREPEND the first brigade has the buckets of the second in front of its own. |
| Brigades.InsertHead | Trabalho 1/Apache2.2/include/apr_buckets.h:358-362 | The bucket, which the macro binds to a variable, comes first, only links of the brigade and the bucket change, and the consistency check of a debugging build never fires. |
| Brigades.InsertTail | Trabalho 1/Apache2.2/include/apr_buckets.h:369-373 | The bucket, which the macro binds to a variable, comes last, only links of the brigade and the bucket change, and the consistency check never fires. |
| Brigades.Concat | Trabalho 1/Apache2.2/include/apr_buckets.h:380-383 | The brigade has both contents, the other is empty, only their links change, and the consistency check never fires. |
| Brigades.Prepend | Trabalho 1/Apache2.2/include/apr_buckets.h:390-393 | Likewise for PREPEND. |
| Brigades.InsertHeadTakesOne | Trabalho 1/Apache2.2/include/apr_buckets.h:353-362 | Given the first bucket of a list, the macro inserts that bucket alone; the rest of the list is on no ring. The comment above it says it inserts the list. |
| Brigades.Destroy | Trabalho 1/Apache2.2/include/apr_buckets.h:949-952 | With the argument read at each use: exactly two calls, first the type's destroy function on the data, then the bucket's free function on the bucket, whose words, and no others, are gone afterwards. |
| Brigades.Delete | Trabalho 1/Apache2.2/include/apr_buckets.h:965-968 | REMOVE of the argument, then these two calls for what the argument denotes by then; only links change besides. |
| Brigades.DeleteVariable | Trabalho 1/Apache2.2/include/apr_buckets.h:965-968 | With a variable as the argument, the bucket deleted is that bucket. |
| Brigades.DeleteFirst | Trabalho 1/Apache2.2/include/apr_buckets.h:965-968 | apr_bucket_delete(APR_BRIGADE_FIRST(b)) as written: on every brigade that has a bucket it destroys another one, or the sentinel, and leaves no ring through the head. |
| Brigades.DeleteLast | Trabalho 1/Apache2.2/include/apr_buckets.h:965-968 | apr_bucket_delete(APR_BRIGADE_LAST(b)) as written: it removes the last bucket but destroys the node before it, which stays on the ring. |
| Brigades.Cleanup | Trabalho 1/Apache2.2/include/apr_buckets.h:668-679 | Binding the first bucket to a variable and deleting it, until the brigade is empty, ends; calls 2i and 2i+1 are the destroy and the free function of the i-th bucket, and there are no others; no freed bucket is read, and no other node's links and no other word change. |
| Align.AlignExact | Trabalho 1/Apache2.2/include/apr_general.h:135-137 | For every width and every power of two below the boundary type's range, the mask computes the low bits of the least multiple; it is the least multiple itself if and only if size <= 2^v - boundary; with equal widths it is 0 otherwise. |
| Align.RoundUpIsLeast | Trabalho 1/Apache2.2/include/apr_general.h:135-137 | Rounding up gives the least multiple of the boundary that is not below the size. |
| Align.AlignIdempotent | Trabalho 1/Apache2.2/include/apr_general.h:136-140 | Aligning an aligned size changes nothing, for every size, wrapped or not, and every width of the boundary. |
| Align.AlignLaws | Trabalho 1/Apache2.2/include/apr_general.h:136-140 | Without wrap-around, alignment is monotone and sub-additive, for every width of the boundary. |
| Align.AndMask | Trabalho 1/Apache2.2/include/apr_general.h:137 | The mask keeps exactly the bits from the boundary's up to the width of its type. |
| Align.BitsOfMask | Trabalho 1/Apache2.2/include/apr_general.h:137 | Bit by bit, the two operators are conjunction and complement in their width. |
| Hooks.HookPoint.Register | Trabalho 1/Apache2.2/include/apr_hooks.h:67-85 | The callback is appended to the list, which the first registration, and no other, makes and hands over for sorting. |
| Hooks.HookPoint.RunVoid | Trabalho 1/Apache2.2/include/apr_hooks.h:103-116 | All callbacks are called in order, each from the state the one before left; none for a null list. |
| Hooks.AfterMeans | Trabalho 1/Apache2.2/include/apr_hooks.h:114-115 | The states of such a run: the first is the initial one, each callback is called in the one its predecessor left, and the last is the result. |
| Hooks.HookPoint.RunAll | Trabalho 1/Apache2.2/include/apr_hooks.h:136-156 | The callbacks called are the prefix up to and including the first result other than ok and decline, which is returned; or all, and ok is. |
| Hooks.AllMeans | Trabalho 1/Apache2.2/include/apr_hooks.h:144-155 | Call by call: every callback gets the state its predecessor left; all results before the last call are ok or decline; the value returned is the last result, which is neither, or ok, and then all have been called and none returned anything else. |
| Hooks.HookPoint.RunFirst | Trabalho 1/Apache2.2/include/apr_hooks.h:173-193 | The callbacks called are the prefix up to and including the first result other than decline, which is returned; or all, and decline is. |
| Hooks.FirstMeans | Trabalho 1/Apache2.2/include/apr_hooks.h:181-192 | Call by call: all results before the last call are decline; the value returned is the last result, which is not, or decline, and then all have been called and returned it. |
| Hooks.RunAllOptional | Trabalho 1/Apache2.2/include/apr_optional_hooks.h:90-110 | The optional-hook loop has the outcome of the external RUN_ALL on the same list, null or not. |
| Hooks.OutcomeUnique | Trabalho 1/Apache2.2/include/apr_hooks.h:144-155 | A list, a rule and a state determine result, final state and callbacks called. |
| Hooks.AllIsFirst | Trabalho 1/Apache2.2/include/apr_hooks.h:181-192 | With ok and decline equal, RUN_ALL is RUN_FIRST, on the null list too. |
| Hooks.RunTwoParts | Trabalho 1/Apache2.2/include/apr_hooks.h:136-156 | Running xs+ys is running xs and then, if it did not stop, ys from the state it left. |
| Sharing.RunKeeps | Trabalho 1/Apache2.2/include/apr_buckets.h:513-521 | Over any run of making, copying, splitting and deleting, and after each of its operations, each count is the number of live buckets referring to the resource, and a resource is released once, when and only when none is left. |
| Sharing.StepKeeps | Trabalho 1/Apache2.2/include/apr_buckets.h:1171-1205 | Each operation keeps that invariant, rejected splits and failed allocations included. |
| Sharing.ReferencesCount | Trabalho 1/Apache2.2/include/apr_buckets.h:513-521 | The references counted are the places that hold a bucket of the resource. |
| Sharing.SplitAtPoint | Trabalho 1/Apache2.2/include/apr_buckets.h:1183-1193 | A split past the end or without room changes nothing; any other leaves the first `point` bytes in the bucket and the rest in a new one just behind it, adds one reference, and moves no other bucket. |
| Sharing.CopyInPlace | Trabalho 1/Apache2.2/include/apr_buckets.h:1196-1205 | The copy has the bytes of the original and stands where it is put; one reference more; without room nothing changes. |
| Sharing.MakeInPlace | Trabalho 1/Apache2.2/include/apr_buckets.h:1153-1169 | The new bucket stands where it is put and is the only one to refer to its resource. |
| Sharing.DeleteLeavesRest | Trabalho 1/Apache2.2/include/apr_buckets.h:1171-1179 | The other buckets keep their order; the resource is released if and only if none of them refers to it. |
| Sharing.SplitKeepsBytes | Trabalho 1/Apache2.2/include/apr_buckets.h:82-87 | A split leaves the bytes of the brigade as they were. |
| Sharing.BytesInPlace | Trabalho 1/Apache2.2/include/apr_buckets.h:82-87 | The bytes of a brigade are those of its buckets, each bucket's in its place. |

## Left out

- Macros.ByValue: not stated for CONCAT and PREPEND with a second head whose LAST alone is its own sentinel; Macros.ConcatReread and Macros.PrependReread say exactly what differs there.
- Brigades.Destroy: the destroy and free functions are recorded as calls; that they write no word of the model except the freed bucket's is assumed.
- Brigades.Cleanup: the body of apr_brigade_cleanup is not part of this model; the loop is what its comment describes, made of the macros, with the first bucket bound to a variable.
- Sharing.StepKeeps: the bodies of the shared bucket functions are not part of this model; buckets of unknown length are left out, and a split point equal to the length counts as inside the bucket, which the header leaves open.
- Hooks.HookPoint.RunAll: callbacks that register further hooks during a run, when the count is read again but the array is not; the same for the other runners.
- Hooks.HookPoint.Register: the debugging output, and the order made by apr_hook_sort_all, whose body is not part of this model.
- Align.AlignExact: signed sizes, and a boundary that is no power of two.
- RingCheck.CheckElem: the printing; an assertion failure and a break are both modelled as the verdict that the loop stops with.
- Arguments that call functions or have other side effects; misaligned or partially overlapping words, `volatile`, and concurrent access to a ring.
- APR_BUCKET_INSERT_BEFORE and APR_BUCKET_INSERT_AFTER, which bind their arguments to variables and wrap the ring macros, and the type tests of buckets.
- Reading, setaside and all functions that are only declared in these headers.
