# Proofs about the BadVPN structures and packet flow, and about the filter matcher

This project models the data-structure and packet-flow layer of the BadVPN sources that
`PacketProcessor/tun2socks-iOS` carries, and the advertisement filter of `SSTestKit/abp.js`, and proves
what that code is for. All paths are those of the repository.

`dafny verify dfyconfig.toml` checks everything.

## What is modelled

Code that works in place is modelled in place: the AVL tree, the fair queue, the circular buffer, the hash
table, the list with iterators, the job list, the packet interfaces, the decoders, parsers and searches are
classes and methods over arrays and fields with the source's own links, loops and branches. Each is proved
against a specification on sequences and maps, and the properties are proved about the specification.

| files | what they hold |
|---|---|
| `AvlTheory`, `AvlRotation`, `AvlPaths`, `AvlSwap`, `AvlRemoval`, `AvlSearch`, `AvlVerifier`, `CAvl` | The AVL engine. Links are indices of an arena, as one instantiation of `CAvl_header.h` has them. `Rep` ties the arena to a tree with right parents, balances, counts and aggregates; a `Ctx` is such a tree with a hole, and every operation is the replacement of what fills one. `Contents()` is the in-order sequence. |
| `FairQueue`, `FairSystem`, `FairRuns`, `FairLengths`, `FairHandlers` | The fair queue over that tree, and the system of queue, output interface, input interfaces and job stack as a state machine: over whole runs, fairness and progress, whose length is sent and charged, and when a busy handler is called. |
| `JobList`, `PacketPassInterface` | The last-in-first-out job list on `SLinkedList`, and the handshake between sender and provider of packets. |
| `ChunkBuffer2`, `PacketBuffer` | The circular buffer of variable-length packets as a queue, and the driver that keeps it filled and drained. |
| `AbpPattern`, `AbpMeaning`, `AbpMatcher` | What a filter pattern is compiled to, and its keywords; which addresses it matches, said on the characters of filter and address; the index by keyword, the two matchers and the result cache. |
| `Chains`, `CHash` | Singly linked buckets, and the chained hash table with grouped equal entries and rehashing. |
| `IteratorRuns`, `IteratorNumbers`, `LinkedList3` | What iterators return over any run of insertions and removals, and the list that does it. |
| `PacketProto`, `BProto`, `Ipv6Text`, `Ipv6Digits`, `Ipv6Grammar`, `Ipv6Mask`, `Substring` | Packet framing, the tagged message format, IPv6 texts and masks, and the two table-driven searches. |
| `Sequences`, `Options`, `Bytes` | What these share. |

## Where a promise does not hold as it is written

- **ChunkBuffer2 and PacketBuffer.** The room offered to the producer is computed in `size_t` and stored in an
  `int` (`ChunkBuffer2.h:177`), and `calc_blocks` only makes sure that the number of *blocks* fits an `int`.
  What `ChunkBuffer2.h:105-134` asserts of it holds in every state if and only if the buffer has at most 2^29
  blocks (`AssertInputExactIff`). `PacketBuffer` meets its promises up to that size, and for every larger size
  that its Init accepts some run of empty packets makes its test for room fail although there is room
  (`Overfill`).
- **Result cache of the matcher.** The cache key is `location + " " + docDomain + " "` (`abp.js:748`). A query
  shares it with another one if and only if its address or its domain holds a space (`KeySharedIff`), and then
  the two are one text split at two spaces (`KeyCollision`). For every such pair there is a filter with which
  asking one first makes the answer to the other wrong (`SharedKeyWrong`, `AskBoth`). For queries without a
  space, and as long as no address or no domain with a space is asked, every answer is right
  (`CombinedMatcher.MatchesAny`); hosts have no spaces, so `FindProxyForURL` is.
- **`^|` at the end of a filter.** The `|` is dropped (`abp.js:287`), which widens the pattern
  (`DropEndWidens`): `|a^|` then matches `a/b` (`DropEndFailsAt`). A pattern matches all addresses as written if
  and only if it does not end so, or says nothing else (`PatternExactIff`); on an address all patterns do if and
  only if it has no separator before its last character (`CompileExactIff`).
- **The filter `#this`.** A filter object has the text `#this` at index 0, to say that it is its own list, and
  `abp.js:588` looks for that text with `==`, which compares a filter by its own text (`abp.js:72`). The filter
  of this text has no keyword; once a second filter without one is added, the search takes it for the mark,
  calls `matches` of the array and throws (`AddThisFirst`: then every search does). When a search throws is
  `ThrowsExactly` and `EitherThrowsExactly`; as long as no filter of this text is added none does.
- **BAVL_Insert.** `BAVL.h:95-107` promises a neighbour in `*ref` whether or not the insertion succeeds; the
  code gives the equal node when it fails. The model follows the code.
- **The run-time verifier of the tree** (`CAvl_impl.h:92-148`) compares each node with its own children. That
  makes a tree sorted if and only if no left child has a right child and no right child a left one
  (`VerifierExact`), which no balanced tree of more than five nodes is (`VerifierTooWeak`); what is proved of
  every operation is that the whole in-order sequence is strictly sorted.

## Conventions

`NULL` is -1. Pointers and links are indices into an arena (`CAvl`, `CHash`, `LinkedList3`) or byte offsets
into a buffer (`ChunkBuffer2`, `PacketProto`, `BProto`). Where the width of an integer matters it is written
out, with an `int` of 32 bits and a `size_t` of 64: wrap-around of the fair queue's times (`Add64`, `Sub64`), the conversion to `int` in
`ChunkBuffer2`, 16-, 32- and 64-bit little-endian fields of the formats. The index, count and rank types of
the tree are bounded by `countMax`. A failed assertion of the source is a precondition here only where the
source demands it of its callers; the other assertions are proved, each where it stands, or as an invariant or
a condition of what is called there.

## Model

| member | source | states |
|---|---|---|
| AvlRotation.DeltaExact | PacketProcessor/tun2socks-iOS/structure/CAvl_impl.h:343-349 | In any tree with one subtree whose height changed by `deltac`, the expression max(deltac, b) - max(0, b) is the exact height change of the subtree above it, the new balance is the true height difference, and it stays within one level |
| AvlRotation.SingleRotation | PacketProcessor/tun2socks-iOS/structure/CAvl_impl.h:352-367 | Rotating and setting the two balance factors leaves a subtree whose links, parents, balances, counts and aggregates are all right, with the nodes in the old order |
| AvlRotation.DoubleRotation | PacketProcessor/tun2socks-iOS/structure/CAvl_impl.h:368-386 | Two rotations and the three balance factors set after them leave a subtree whose links, parents, balances, counts and aggregates are all right |
| AvlRotation.SingleInOrder | PacketProcessor/tun2socks-iOS/structure/CAvl_impl.h:166-193 | A single rotation keeps the in-order sequence |
| AvlRotation.DoubleInOrder | PacketProcessor/tun2socks-iOS/structure/CAvl_impl.h:368-386 | A double rotation keeps the in-order sequence |
| AvlRotation.LiftedPending | PacketProcessor/tun2socks-iOS/structure/CAvl_impl.h:393-410 | The `delta` passed up is the exact height change of the subtree now in that place, whether a rotation happened or not |
| AvlRotation.HolePending | PacketProcessor/tun2socks-iOS/structure/CAvl_impl.h:506-533 | A subtree put in a hole whose height differs by at most one is exactly what rebalance may be called for |
| AvlTheory.InOrderPlug | PacketProcessor/tun2socks-iOS/structure/CAvl_impl.h:92-148 | A tree is what stands before a hole, what fills it and what stands behind it: replacing one subtree changes only its stretch of the sequence |
| CAvl.CAvl.Rotate | PacketProcessor/tun2socks-iOS/structure/CAvl_impl.h:166-193 | Only the links, counts and aggregates of the rotation change; the root is replaced exactly when the rotated node was the root |
| CAvl.CAvl.Rebalance | PacketProcessor/tun2socks-iOS/structure/CAvl_impl.h:330-411 | From any tree with a height change of one level in one place: links, parents, balances, counts and aggregates of the whole tree are right afterwards, the in-order sequence is unchanged, and no other entry of the arena is touched |
| CAvl.CAvl.Insert | PacketProcessor/tun2socks-iOS/structure/CAvl_impl.h:452-533 | The tree stays sorted and balanced; it fails exactly if an equal node is present, naming that node and changing nothing; otherwise the node stands at its place and `ref` is the neighbour the descent ended at |
| CAvl.CAvl.InsertAt | PacketProcessor/tun2socks-iOS/structure/CAvl_impl.h:537-599 | The sequence gets the node at exactly that index, and the tree stays balanced with right counts and aggregates |
| CAvl.CAvl.Remove | PacketProcessor/tun2socks-iOS/structure/CAvl_impl.h:603-627 | The sequence loses exactly one position, that of the node; the tree stays balanced with right counts and aggregates; entries outside the tree are untouched |
| CAvl.CAvl.SwapForRemove | PacketProcessor/tun2socks-iOS/structure/CAvl_impl.h:248-328 | The two nodes change places and every other entry keeps its fields apart from links to the two, in the adjacent and in the general case |
| AvlSwap.SwappedRep | PacketProcessor/tun2socks-iOS/structure/CAvl_impl.h:248-328 | After the swap, every subtree without the two nodes is exactly the tree it was |
| AvlSwap.SwappedCtx | PacketProcessor/tun2socks-iOS/structure/CAvl_impl.h:248-328 | After the swap, the path to the removed node is the old path with the one node in the place of the other |
| AvlRemoval.CutSwapped | PacketProcessor/tun2socks-iOS/structure/CAvl_impl.h:609-622 | After the swap with its predecessor the node has at most one child, and taking it out leaves the sequence without exactly its position |
| CAvl.CAvl.ReplaceSubtreeFixAssoc | PacketProcessor/tun2socks-iOS/structure/CAvl_impl.h:217-246 | The only child takes the node's place; all aggregates and counts above are right again, and what remains is a height change of -1 pending at the parent |
| AvlRemoval.CutPending | PacketProcessor/tun2socks-iOS/structure/CAvl_impl.h:217-246 | The loss of one level under right ancestors is what rebalance may be called for |
| CAvl.CAvl.Lookup | PacketProcessor/tun2socks-iOS/structure/CAvl_impl.h:631-656 | Returns an equal node exactly if there is one, else a neighbour of the place the key would have, and nothing only from the empty tree |
| CAvl.CAvl.LookupExact | PacketProcessor/tun2socks-iOS/structure/CAvl_impl.h:658-683 | Returns an equal node, or nothing exactly if no node is equal |
| CAvl.CAvl.GetFirstGreater | PacketProcessor/tun2socks-iOS/structure/CAvl_impl.h:685-702 | The first node of the sequence greater than the key, or none if there is none |
| CAvl.CAvl.GetLastLesser | PacketProcessor/tun2socks-iOS/structure/CAvl_impl.h:704-721 | The last node of the sequence less than the key, or none |
| CAvl.CAvl.GetFirstGreaterEqual | PacketProcessor/tun2socks-iOS/structure/CAvl_impl.h:723-740 | The first node of the sequence not less than the key, or none |
| CAvl.CAvl.GetLastLesserEqual | PacketProcessor/tun2socks-iOS/structure/CAvl_impl.h:742-761 | The last node of the sequence not greater than the key, or none |
| CAvl.CAvl.GetFirst | PacketProcessor/tun2socks-iOS/structure/CAvl_impl.h:763-770 | The first node of the sequence, or none if it is empty |
| CAvl.CAvl.GetLast | PacketProcessor/tun2socks-iOS/structure/CAvl_impl.h:772-779 | The last node of the sequence, or none if it is empty |
| CAvl.CAvl.GetNext | PacketProcessor/tun2socks-iOS/structure/CAvl_impl.h:781-799 | One step forward in the sequence, none from the last node |
| CAvl.CAvl.GetPrev | PacketProcessor/tun2socks-iOS/structure/CAvl_impl.h:801-819 | One step back in the sequence, none from the first node |
| CAvl.CAvl.Count | PacketProcessor/tun2socks-iOS/structure/CAvl_impl.h:837-840 | The length of the sequence |
| CAvl.CAvl.IndexOf | PacketProcessor/tun2socks-iOS/structure/CAvl_impl.h:842-860 | The index at which the sequence holds the node |
| CAvl.CAvl.GetAt | PacketProcessor/tun2socks-iOS/structure/CAvl_impl.h:862-887 | The node at an index, none behind the end: the inverse of IndexOf |
| CAvl.CAvl.AssocSum | PacketProcessor/tun2socks-iOS/structure/CAvl_impl.h:893-900 | The in-order product of all values, for any associative operation with identity, commutative or not |
| CAvl.CAvl.ExclusiveAssocPrefixSum | PacketProcessor/tun2socks-iOS/structure/CAvl_impl.h:902-922 | The in-order product of exactly the values before the node |
| AvlSearch.PrefixStep | PacketProcessor/tun2socks-iOS/structure/CAvl_impl.h:909-919 | Each step of that walk up extends the product to the left by a whole subtree and its parent, in the right order |
| CAvl.CAvl.FindLastExclusiveAssocPrefixSumLesserEqual | PacketProcessor/tun2socks-iOS/structure/CAvl_impl.h:924-945 | With monotone prefixes, the last node whose prefix does not exceed the target, or none |
| AvlSearch.SortedInsert | PacketProcessor/tun2socks-iOS/structure/CAvl_impl.h:470-512 | A new node between the lesser and the greater ones keeps the whole sequence strictly sorted |
| AvlSearch.SortedRemove | PacketProcessor/tun2socks-iOS/structure/CAvl_impl.h:603-627 | Leaving out one node keeps it strictly sorted |
| AvlVerifier.SortedChildren | PacketProcessor/tun2socks-iOS/structure/CAvl_impl.h:92-148 | A strictly sorted tree passes the run-time verifier's comparisons |
| AvlVerifier.VerifierExact | PacketProcessor/tun2socks-iOS/structure/CAvl_impl.h:92-148 | The run-time verifier, which compares a node with its own children only, makes a tree sorted for every order if and only if no left child has a right child and no right child a left one; the invariant proved of the operations is the stronger, whole order |
| AvlVerifier.StraightSorted | PacketProcessor/tun2socks-iOS/structure/CAvl_impl.h:92-148 | A tree of that shape which passes the comparisons is strictly sorted |
| AvlVerifier.TwistedPasses | PacketProcessor/tun2socks-iOS/structure/CAvl_impl.h:92-148 | For every other tree, an order of its nodes in which it passes the comparisons and is not sorted |
| AvlVerifier.VerifierTooWeak | PacketProcessor/tun2socks-iOS/structure/CAvl_impl.h:92-148 | So for every balanced tree of more than five nodes there is an order in which the verifier accepts it unsorted |
| FairQueue.WrapExact | PacketProcessor/tun2socks-iOS/flow/PacketPassFairQueue.c:79-116 | In unsigned 64-bit arithmetic the wrap-around subtraction followed by the addition gives the true integer time + amount - subtract, inside 1..FAIRQUEUE_MAX_TIME |
| FairQueue.RenormalisationExact | PacketProcessor/tun2socks-iOS/flow/PacketPassFairQueue.c:79-116 | A finished packet moves its flow to the true time less what all are lowered by; all times stay within 0..FAIRQUEUE_MAX_TIME, differences among queued flows are kept, and the tree order is still right without touching the tree |
| FairQueue.OutputDoneInv | PacketProcessor/tun2socks-iOS/flow/PacketPassFairQueue.c:182-202 | A finished packet keeps the invariant of the queue: the tree holds exactly the queued flows, sorted by time, and none is behind the flow in service |
| FairQueue.ScheduleInv | PacketProcessor/tun2socks-iOS/flow/PacketPassFairQueue.c:118-137 | Picking a flow keeps the invariant, and the flow picked is the one with the least time |
| FairQueue.ScheduleJobInv | PacketProcessor/tun2socks-iOS/flow/PacketPassFairQueue.c:139-151 | The schedule job keeps the invariant, whether something is queued or not |
| FairQueue.InputSendInv | PacketProcessor/tun2socks-iOS/flow/PacketPassFairQueue.c:153-180 | A packet from a flow keeps the invariant in all its cases: idle, in service, just served, schedule job pending or not |
| FairQueue.FlowInitInv | PacketProcessor/tun2socks-iOS/flow/PacketPassFairQueue.c:296-321 | A new flow keeps the invariant |
| FairQueue.FlowFreeInv | PacketProcessor/tun2socks-iOS/flow/PacketPassFairQueue.c:323-351 | Freeing a flow keeps the invariant, also while the queue is being freed and the flow is in service |
| FairQueue.NeverEqual | PacketProcessor/tun2socks-iOS/flow/PacketPassFairQueue.c:39-47 | No two different flows compare equal, so the insertion whose result is asserted cannot fail |
| FairQueue.ComparatorTotal | PacketProcessor/tun2socks-iOS/flow/PacketPassFairQueue.c:39-47 | Comparing by time, then by identity, is a strict total order at all times |
| FairQueue.PickedFirst | PacketProcessor/tun2socks-iOS/flow/PacketPassFairQueue.c:39-47 | The first queued flow has the least time, and of those with that time the least identity |
| FairQueue.TakenOffExact | PacketProcessor/tun2socks-iOS/flow/PacketPassFairQueue.c:88-101 | Nothing is taken off unless the finished flow would exceed FAIRQUEUE_MAX_TIME; then it is the least queued time, or that flow's own if nothing is queued |
| FairQueue.SendTime | PacketProcessor/tun2socks-iOS/flow/PacketPassFairQueue.c:52-77 | A flow that sends keeps its time if it was just served or nothing else is there; otherwise it gets the later of its own time and that of the flow in service, or, with none in service, the least time of those queued or just served |
| FairQueue.FairQueue.Create | PacketProcessor/tun2socks-iOS/flow/PacketPassFairQueue.c:219-266 | Fails exactly if MTU and packet weight together exceed FAIRQUEUE_MAX_TIME; otherwise the queue is empty and idle and its invariant holds |
| FairQueue.FairQueue.GetCurrentTime | PacketProcessor/tun2socks-iOS/flow/PacketPassFairQueue.c:52-77 | The time of the flow in service; if there is none, the least of those queued and the one just served; 0 if there is nobody |
| FairQueue.FairQueue.IncrementSentFlow | PacketProcessor/tun2socks-iOS/flow/PacketPassFairQueue.c:79-116 | The loop over all flows and the addition leave exactly the renormalised times |
| FairQueue.FairQueue.ScheduleFirst | PacketProcessor/tun2socks-iOS/flow/PacketPassFairQueue.c:118-137 | Over the AVL tree of this project: takes the first flow out of the tree and sends its packet |
| FairQueue.FairQueue.ScheduleJobHandler | PacketProcessor/tun2socks-iOS/flow/PacketPassFairQueue.c:139-151 | Forgets the last served flow and picks the next one if there is one |
| FairQueue.FairQueue.InputHandlerSend | PacketProcessor/tun2socks-iOS/flow/PacketPassFairQueue.c:153-180 | Queues the flow with its length in the tree at its place in virtual time (what that time is says SendTime, what becomes of the length FairLengths); sends at once exactly if nothing is sent and no schedule job is pending |
| FairQueue.FairQueue.OutputHandlerDone | PacketProcessor/tun2socks-iOS/flow/PacketPassFairQueue.c:182-217 | The flow has been served: times are updated, it becomes the previous flow, its busy handler is taken and called at the end |
| FairQueue.FairQueue.InitFlow | PacketProcessor/tun2socks-iOS/flow/PacketPassFairQueue.c:296-321 | The state becomes that of the queue with one idle flow more, at time 0 |
| FairQueue.FairQueue.FreeFlow | PacketProcessor/tun2socks-iOS/flow/PacketPassFairQueue.c:323-351 | Takes the flow out of the tree, the list and the roles it plays |
| FairRuns.BusySpan | PacketProcessor/tun2socks-iOS/flow/PacketPassFairQueue.c:362-370 | A flow is busy from the step that hands its packet to the output until the packet is done, when its own done job is set, or until it is freed with the queue; nothing else begins or ends it |
| FairSystem.JobReady | PacketProcessor/tun2socks-iOS/flow/PacketPassFairQueue.c:139-217 | In every reachable state the first pending job finds what its handler asserts: no assertion of the queue, of its output or of its inputs can fail |
| FairSystem.NextInv | PacketProcessor/tun2socks-iOS/flow/PacketPassFairQueue.c:118-351 | Queue, output interface, input interfaces and job stack stay consistent with each other under every action in every order |
| FairRuns.Safe | PacketProcessor/tun2socks-iOS/flow/PacketPassFairQueue.c:118-351 | Every state that a run of these actions leads to meets all these invariants |
| FairRuns.SafeFromStart | PacketProcessor/tun2socks-iOS/flow/PacketPassFairQueue.c:219-351 | In particular every state that can be reached from a queue that Init has accepted, without flows and with an idle output |
| FairRuns.ServiceStays | PacketProcessor/tun2socks-iOS/flow/PacketPassFairQueue.c:182-217 | A flow that sends again from its done call is back in the queue before the schedule job picks the next one, because pending jobs run last in, first out |
| FairRuns.StepFair | PacketProcessor/tun2socks-iOS/flow/PacketPassFairQueue.c:79-116 | One step changes how far one backlogged flow is ahead of another by exactly the service given, and never beyond max(before, packet weight + MTU) |
| FairRuns.Fair | PacketProcessor/tun2socks-iOS/flow/PacketPassFairQueue.c:118-217 | Over any run in which two flows stay backlogged, the gap of their times is at most max(gap before, packet weight + MTU), and their weighted service differs by a constant however long the run |
| FairRuns.Joins | PacketProcessor/tun2socks-iOS/flow/PacketPassFairQueue.c:153-180 | A flow that becomes backlogged leads any flow in service by at most the larger of 0 and the lead it had, and it is not behind the least of those queued, in service or just served |
| FairRuns.FairLead | PacketProcessor/tun2socks-iOS/flow/PacketPassFairQueue.c:118-217 | Over any run the lead of one backlogged flow over another stays within the larger of what it was and one packet |
| FairRuns.JoinsFair | PacketProcessor/tun2socks-iOS/flow/PacketPassFairQueue.c:118-217 | So a flow that becomes backlogged never leads by more than 0, the lead it had, or one packet, and gets no more service than that allows, over any run that follows |
| FairRuns.NewFlow | PacketProcessor/tun2socks-iOS/flow/PacketPassFairQueue.c:296-321 | While a flow is in service, the first packet of a new flow is queued at exactly the time of that flow |
| FairLengths.NextLens | PacketProcessor/tun2socks-iOS/flow/PacketPassFairQueue.c:118-180 | Under every action: a queued flow keeps the length of its input, a flow in service is charged that of its input, and the output has the same length while it is not idle |
| FairLengths.NextAsSent | PacketProcessor/tun2socks-iOS/flow/PacketPassFairQueue.c:153-180 | Under every action, the length at every input that has a packet is that of the last send there |
| FairLengths.HandedOver | PacketProcessor/tun2socks-iOS/flow/PacketPassFairQueue.c:118-137 | In every state of every run from the beginning, the length on the output, which its provider is handed, is that of the last send of the flow in service |
| FairLengths.ServiceIs | PacketProcessor/tun2socks-iOS/flow/PacketPassFairQueue.c:182-202 | Over any run the service charged to a flow is the packet weight times its completed packets plus the lengths with which these were sent |
| FairHandlers.StepSet | PacketProcessor/tun2socks-iOS/flow/PacketPassFairQueue.c:203-214 | A busy handler is set by SetBusyHandler and by nothing else; it is unset by the same call, by being called, and is not set on a new flow |
| FairHandlers.OneShot | PacketProcessor/tun2socks-iOS/flow/PacketPassFairQueue.c:203-214 | Over any run, between two calls of the busy handler of a flow it was set again |
| FairHandlers.SetCalled | PacketProcessor/tun2socks-iOS/flow/PacketPassFairQueue.c:203-214 | A busy handler that is set, and not unset before, is called when the packet is done |
| FairRuns.CompletionLag | PacketProcessor/tun2socks-iOS/flow/PacketPassFairQueue.c:182-202 | Each completed packet of another flow strictly lowers the sum of max(0, T + 1 - time) for a waiting flow of time T |
| FairRuns.StepLag | PacketProcessor/tun2socks-iOS/flow/PacketPassFairQueue.c:52-180 | Nothing else ever raises that sum, as long as no flow is added |
| FairRuns.NoStarvation | PacketProcessor/tun2socks-iOS/flow/PacketPassFairQueue.c:118-202 | A flow cannot wait while more packets are completed than that sum |
| FairRuns.SomethingMoves | PacketProcessor/tun2socks-iOS/flow/PacketPassFairQueue.c:118-202 | While a flow waits, the output has a packet or the schedule job is pending, which then starts one |
| Jobs.BeforeNew | PacketProcessor/tun2socks-iOS/base/BPending.c:137-154 | A job set now runs before every other pending job |
| Jobs.BeforePush | PacketProcessor/tun2socks-iOS/base/BPending.c:137-154 | Setting a job keeps the order of the others |
| Jobs.BeforePop | PacketProcessor/tun2socks-iOS/base/BPending.c:66-88 | Running a job keeps the order of the others |
| Jobs.SetOnce | PacketProcessor/tun2socks-iOS/base/BPending.c:137-171 | No job is ever in the list twice, however often it is set |
| Jobs.MarkMeans | PacketProcessor/tun2socks-iOS/structure/SLinkedList_impl.h:32-44 | An entry is in the list exactly if it is not linked to itself |
| Jobs.ChainRemoveLater | PacketProcessor/tun2socks-iOS/structure/SLinkedList_impl.h:128-142 | Unlinking an entry other than the first leaves a right list of the others, with the `prev` of the first never read |
| Jobs.JobList.Set | PacketProcessor/tun2socks-iOS/base/BPending.c:137-154 | The job is first in the list, and in it only once |
| Jobs.JobList.Unset | PacketProcessor/tun2socks-iOS/base/BPending.c:156-171 | The job is not in the list, the others keep their order |
| Jobs.JobList.IsSet | PacketProcessor/tun2socks-iOS/base/BPending.c:173-176 | True exactly if the job is in the list |
| Jobs.JobList.TakeJob | PacketProcessor/tun2socks-iOS/base/BPending.c:66-88 | Takes out the job set last, which is then no longer pending |
| Jobs.JobList.RemoveEntry | PacketProcessor/tun2socks-iOS/structure/SLinkedList_impl.h:128-142 | Takes one entry out of the doubly linked list; the mark of the others stays right |
| PacketPassInterface.SendConsistent | PacketProcessor/tun2socks-iOS/flow/PacketPassInterface.h:181-198 | A send keeps: operation job pending exactly in OPERATION_PENDING, done job exactly in DONE_PENDING, cancel job only in BUSY |
| PacketPassInterface.DoneConsistent | PacketProcessor/tun2socks-iOS/flow/PacketPassInterface.h:149-162 | The provider being done keeps the same, and no cancel job is left over |
| PacketPassInterface.CancelConsistent | PacketProcessor/tun2socks-iOS/flow/PacketPassInterface.h:200-227 | A cancel keeps the same, in every state and also when repeated |
| PacketPassInterface.RunConsistent | PacketProcessor/tun2socks-iOS/flow/PacketPassInterface.c:32-68 | A job that runs finds the state it asserts and keeps the same |
| PacketPassInterface.BetweenSends | PacketProcessor/tun2socks-iOS/flow/PacketPassInterface.h:149-227 | In every history, between one send and the next there is exactly one done call, at most one operation call and at most one cancel call |
| PacketPassInterface.CancelBeforeOperation | PacketProcessor/tun2socks-iOS/flow/PacketPassInterface.h:200-227 | A cancel taken before the operation job ran means that the provider never sees that packet |
| PacketPassInterface.SendAt | PacketProcessor/tun2socks-iOS/flow/PacketPassInterface.h:181-198 | A send happens only when the interface is idle |
| PacketPassInterface.OperationLength | PacketProcessor/tun2socks-iOS/flow/PacketPassInterface.c:32-43 | In every history, an operation call carries the length of the last send before it |
| PacketPassInterface.PacketPassInterface.KeptLength | PacketProcessor/tun2socks-iOS/flow/PacketPassInterface.h:181-198 | While a packet waits for its operation or is with the provider, the stored length is that of the last send |
| PacketPassInterface.PacketPassInterface.NeverWrong | PacketProcessor/tun2socks-iOS/flow/PacketPassInterface.h:149-227 | The history of every run of the object is one of those |
| PacketPassInterface.PacketPassInterface.SenderSend | PacketProcessor/tun2socks-iOS/flow/PacketPassInterface.h:181-198 | The operation job is set on top of the job list, the state is OPERATION_PENDING, the length is kept, and the send enters the history with its length |
| PacketPassInterface.PacketPassInterface.ProviderDone | PacketProcessor/tun2socks-iOS/flow/PacketPassInterface.h:149-162 | Unsets the cancel job, sets the done job and the state |
| PacketPassInterface.PacketPassInterface.SenderRequestCancel | PacketProcessor/tun2socks-iOS/flow/PacketPassInterface.h:200-227 | Only the first request counts; before the operation it turns into a done call, during it into a cancel call |
| PacketPassInterface.PacketPassInterface.RunJob | PacketProcessor/tun2socks-iOS/flow/PacketPassInterface.c:32-68 | Moves the state, then makes the call that belongs to the job, for an operation with the length that was sent |
| ChunkBuffer2.CalcBlocksExact | PacketProcessor/tun2socks-iOS/structure/ChunkBuffer2.h:203-223 | The two division guards refuse exactly the sizes whose product does not fit an int |
| ChunkBuffer2.FreeIsFree | PacketProcessor/tun2socks-iOS/structure/ChunkBuffer2.h:81-90 | Whatever is written to the free region, the stored packets stay as they are |
| ChunkBuffer2.LenRoundTrip | PacketProcessor/tun2socks-iOS/structure/ChunkBuffer2.h:57-79 | The length in a header is read back as it was written |
| ChunkBuffer2.NeverImpossible | PacketProcessor/tun2socks-iOS/structure/ChunkBuffer2.h:154-183 | Whether a full packet fits behind an empty buffer depends on the size alone, so with room for one the branch that "should never be possible" is not reached |
| ChunkBuffer2.Capacity | PacketProcessor/tun2socks-iOS/structure/ChunkBuffer2.h:203-223 | With a size from calc_blocks(mtu, num) and fewer than num stored packets there is room for one more full packet, wherever the wrap point is |
| ChunkBuffer2.OfferStable | PacketProcessor/tun2socks-iOS/structure/ChunkBuffer2.h:154-183 | The place offered to the producer stays the same across any number of consumes |
| ChunkBuffer2.AssertInputIff | PacketProcessor/tun2socks-iOS/structure/ChunkBuffer2.h:105-134 | In which states the assertion about the offered room, which compares with the unconverted product, holds: exactly if the bytes of the free blocks fit an int |
| ChunkBuffer2.AssertInputExactIff | PacketProcessor/tun2socks-iOS/structure/ChunkBuffer2.h:105-134 | It holds in every state of a buffer if and only if the buffer has at most 2^29 blocks (or cannot hold a packet at all); the empty buffer breaks it otherwise |
| ChunkBuffer2.OfferCanBeNegative | PacketProcessor/tun2socks-iOS/structure/ChunkBuffer2.h:203-243 | calc_blocks allows larger buffers: this one, empty, offers a negative room |
| ChunkBuffer2.ChunkBuffer2.constructor | PacketProcessor/tun2socks-iOS/structure/ChunkBuffer2.h:225-243 | The buffer holds no packet, and what is asserted of it holds; what is asserted of the offered room holds exactly within that size |
| ChunkBuffer2.ChunkBuffer2.Asserted | PacketProcessor/tun2socks-iOS/structure/ChunkBuffer2.h:92-150 | In every reachable state what is asserted of the indices and of the output holds, and what is asserted of the input exactly if the free bytes fit an int |
| ChunkBuffer2.ChunkBuffer2.WriteInput | PacketProcessor/tun2socks-iOS/structure/ChunkBuffer2.h:245-263 | Writing to the offered place keeps every stored packet |
| ChunkBuffer2.ChunkBuffer2.SubmitPacket | PacketProcessor/tun2socks-iOS/structure/ChunkBuffer2.h:245-278 | The buffer is a queue of byte packets: the bytes written are appended as one packet, in both cases of the wrap; an offered output stays |
| ChunkBuffer2.ChunkBuffer2.ConsumePacket | PacketProcessor/tun2socks-iOS/structure/ChunkBuffer2.h:280-315 | The first packet is dropped, the others stay; the offered input place stays and the free room does not shrink |
| ChunkBuffer2.ChunkBuffer2.OutputIsFirst | PacketProcessor/tun2socks-iOS/structure/ChunkBuffer2.h:185-201 | What is offered to the consumer is the oldest packet, byte for byte, and nothing exactly if there is none |
| ChunkBuffer2.ChunkBuffer2.UpdateInput | PacketProcessor/tun2socks-iOS/structure/ChunkBuffer2.h:154-183 | Offers the place behind the next header and the free bytes, converted to int; nothing if a full packet could never fit or nothing is free |
| ChunkBuffer2.ChunkBuffer2.UpdateOutput | PacketProcessor/tun2socks-iOS/structure/ChunkBuffer2.h:185-201 | Establishes the invariant that is asserted of the output offer |
| PacketBuffer.PacketBuffer.constructor | PacketProcessor/tun2socks-iOS/flow/PacketBuffer.c:84-123 | A receive is outstanding at once; the invariant (received = sent + stored, a receive outstanding exactly when a full packet fits, a send exactly when something is stored, and the offered room never less than the MTU while a receive is outstanding) holds exactly if the offered room, converted to int, is at least the MTU, and in particular for at most 2^29 blocks |
| PacketBuffer.PacketBuffer.InputHandlerDone | PacketProcessor/tun2socks-iOS/flow/PacketBuffer.c:40-61 | The packet received is stored last, nothing is lost or repeated, and an outstanding send still sends the same bytes; the invariant holds again exactly if the test for room finds the room there is, which it does up to 2^29 blocks |
| PacketBuffer.PacketBuffer.OutputHandlerDone | PacketProcessor/tun2socks-iOS/flow/PacketBuffer.c:63-82 | What was sent is the oldest packet, byte for byte; an outstanding receive still writes to the same place; the invariant holds again exactly if the test for room finds the room there is |
| PacketBuffer.PacketBuffer.NeverStuck | PacketProcessor/tun2socks-iOS/flow/PacketBuffer.c:40-82 | In every reachable state a receive or a send is outstanding, and a receive whenever fewer than num packets are stored |
| PacketBuffer.PacketBuffer.RoomTest | PacketProcessor/tun2socks-iOS/flow/PacketBuffer.c:52-60 | The test of the room in bytes never finds room that is not there, and up to 2^29 blocks is the test for a full packet in blocks |
| PacketBuffer.Overfill | PacketProcessor/tun2socks-iOS/flow/PacketBuffer.c:40-61 | For every size beyond that which Init accepts: as long as the test finds room, empty packets come in, and after finitely many of them the buffer has room for a full packet and the test says it has not |
| PacketBuffer.PacketBuffer.RoomForOne | PacketProcessor/tun2socks-iOS/flow/PacketBuffer.c:92-109 | Fewer than num packets leave room for another one |
| AbpPattern.CompileKeeps | SSTestKit/abp.js:280-295 | Collapsing stars and dropping leading and trailing ones changes nothing about which addresses match; what is left is the dropped `\|` behind a `^` |
| AbpPattern.DropEndWidens | SSTestKit/abp.js:287-287 | With that `\|` dropped, every address the pattern as written matches is still matched |
| AbpPattern.CompileExact | SSTestKit/abp.js:287-287 | A pattern that does not end in `^\|`, and every pattern on an address without a separator before its last character, matches exactly as written |
| AbpPattern.CompileExactIff | SSTestKit/abp.js:287-287 | All patterns match an address exactly as written if and only if the address has no separator before its last character |
| AbpPattern.DropEndFails | SSTestKit/abp.js:287-287 | For every other address, a pattern ending in `^\|` that matches it against what is written |
| AbpPattern.PatternExactIff | SSTestKit/abp.js:287-287 | A pattern matches all addresses exactly as written if and only if it does not end in `^\|` or consists of nothing but `*` and `^` before the `\|` |
| AbpPattern.PatternFails | SSTestKit/abp.js:287-287 | For every other pattern, an address that it matches against what is written |
| AbpPattern.FoundSound | SSTestKit/abp.js:546-546 | Every keyword the search finds is a maximal run of at least three keyword characters, enclosed as the expression demands |
| AbpPattern.FoundComplete | SSTestKit/abp.js:546-546 | Every such run is found |
| AbpPattern.KeywordMatched | SSTestKit/abp.js:529-566 | Every candidate keyword of a pattern is one of the words of every address that the pattern matches, with literals, `*`, `^` and anchors |
| AbpMeaning.MatchesExact | SSTestKit/abp.js:287-287 | For every pattern text: an address is matched if and only if the characters between the bars take stretches of it one behind the other, `*` any without a line end, `^` one dividing character or the end, another character itself up to case; beginning where the bars in front allow it, and ending at the end if a bar there is not behind a `^` |
| AbpMeaning.SplitUp | SSTestKit/abp.js:287-287 | Every text is such a pattern |
| AbpMeaning.HostStartExact | SSTestKit/abp.js:287-287 | Where a match of `\|\|` may begin: behind a scheme of letters, digits, `_` and `-`, a colon, all the slashes there are, and nothing or something without a slash that ends in a dot |
| AbpMeaning.HostExact | SSTestKit/abp.js:287-287 | `\|\|h^` matches `scheme://rest` if and only if `rest` is w + x + y, where w is empty or ends in a dot behind something and has no slash, x is h up to case, and y is empty or starts with an ASCII character that is no letter, digit, `_`, `-`, `.` or `%` |
| AbpMeaning.PlainExact | SSTestKit/abp.js:287-287 | A text without `*`, `^` and bars matches exactly the addresses that contain it up to case; with a bar in front those that start with it, with a bar at the end those that end with it |
| AbpMeaning.WordsExact | SSTestKit/abp.js:601-601 | The words of an address are its maximal runs of at least three letters, digits and `%`, in small letters |
| AbpMeaning.CandidatesExact | SSTestKit/abp.js:546-546 | The candidates of a pattern are those of its words with a character on either side that is no star |
| AbpMatcher.FilterExact | SSTestKit/abp.js:312-319 | A filter matches a query if and only if its text matches the address character by character and it is active on the domain |
| AbpMatcher.FiledWhereLookedUp | SSTestKit/abp.js:599-622 | So a filter that matches an address is filed under a word of it or under the empty keyword |
| AbpMatcher.AddFiled | SSTestKit/abp.js:481-502 | Adding keeps the index right: each filter in exactly the list of its keyword, once |
| AbpMatcher.RemoveFiled | SSTestKit/abp.js:503-528 | Removing keeps the index right: the filter is in no list, every other in its own |
| AbpMatcher.NoHit | SSTestKit/abp.js:599-622 | If nothing under the words of an address matches, no filter at all does |
| AbpMatcher.NoThis | SSTestKit/abp.js:582-598 | Without a filter of the text `#this` no search throws |
| AbpMatcher.ThrowsExactly | SSTestKit/abp.js:582-622 | With it, a search throws if and only if a second filter has no keyword, so that the two are in one list, and there is no hit before: none under a word of the address, none earlier in that list |
| AbpMatcher.EitherThrowsExactly | SSTestKit/abp.js:719-745 | The search through both matchers throws if and only if no whitelist filter matches and the search for a blocking filter throws |
| AbpMatcher.AddThisFirst | SSTestKit/abp.js:582-598 | After `#this` and any second filter without a keyword have been added, every search throws, whatever is asked |
| AbpMatcher.Matcher.FindKeyword | SSTestKit/abp.js:529-566 | A candidate whose list is shortest, the longest of these, or the empty keyword |
| AbpMatcher.Matcher.Add | SSTestKit/abp.js:481-502 | The matcher holds exactly one filter text more, or the same if it was there |
| AbpMatcher.Matcher.Remove | SSTestKit/abp.js:503-528 | The matcher holds exactly that text less |
| AbpMatcher.Matcher.CheckEntryMatch | SSTestKit/abp.js:582-598 | A matching filter of the list, or none exactly if none matches; it throws exactly if the filter of the text `#this` stands in a list of two or more with no match before it |
| AbpMatcher.Matcher.MatchesAny | SSTestKit/abp.js:599-622 | The indexed search, if it answers, agrees with a scan over all filters; when it throws is said exactly, and without a filter `#this` it never does |
| AbpMatcher.CombinedMatcher.constructor | SSTestKit/abp.js:623-634 | No filter on either side, nothing in the cache, and the cache invariant holds |
| AbpMatcher.CombinedMatcher.Add | SSTestKit/abp.js:642-657 | One filter text more on its side, and the cache forgotten |
| AbpMatcher.CombinedMatcher.Remove | SSTestKit/abp.js:658-673 | That filter text less, and the cache forgotten |
| AbpMatcher.CombinedMatcher.MatchesAnyInternal | SSTestKit/abp.js:719-745 | One pass over the words of the address gives a matching whitelist filter if there is one, else a matching blocking filter if there is one, else nothing; when it throws instead is said exactly |
| AbpMatcher.CombinedMatcher.MatchesAny | SSTestKit/abp.js:746-762 | Through the cache, for any run of calls: the answer is right for the first query with the same key since the filters changed or the cache was full; it is right for this one if it has no space at all, or if no address or no domain asked so far, and not this one's, has a space. It throws exactly if nothing is cached and the search throws, never without a filter `#this`, and then leaves everything as it was |
| AbpMatcher.CombinedMatcher.FindProxyForURL | SSTestKit/abp.js:773-778 | The proxy is used exactly if no whitelist filter and some blocking filter matches, in particular for every address as long as no host has a space; it throws as matchesAny does |
| AbpMatcher.KeyCollision | SSTestKit/abp.js:748-748 | Two queries have the same cache key if and only if they are the same, or one text split into address and domain at two different spaces |
| AbpMatcher.KeySharedIff | SSTestKit/abp.js:748-748 | A query shares its key with another one if and only if its address or its domain holds a space |
| AbpMatcher.SharedKeyWrong | SSTestKit/abp.js:746-762 | For every two different queries with the same key there is a filter with which no answer is right for both |
| AbpMatcher.AskBoth | SSTestKit/abp.js:746-762 | With that filter, asking one of them first makes the cached answer to the other one wrong |
| CHash.InsertedGood | PacketProcessor/tun2socks-iOS/structure/CHash_impl.h:106-154 | An entry put before the first equal one of its bucket, or in front if there is none, becomes the first of its key; every other key keeps its entries |
| CHash.CutGood | PacketProcessor/tun2socks-iOS/structure/CHash_impl.h:156-176 | Unlinking an entry removes it from its key's entries; order and every other key stay |
| CHash.NextOfGroup | PacketProcessor/tun2socks-iOS/structure/CHash_impl.h:199-215 | Equal entries are adjacent: the next entry of a bucket is the next one of the key, or the key has no more |
| CHash.RehashKeeps | PacketProcessor/tun2socks-iOS/structure/CHash_impl.h:217-282 | Spreading the buckets over a multiple of their number puts every entry in its right bucket, keeps equal ones adjacent, and keeps every key's entries in order |
| CHash.EntriesComplete | PacketProcessor/tun2socks-iOS/structure/CHash_impl.h:178-197 | An entry is in the table exactly if it is among the entries of its key, in the bucket of its hash |
| CHash.CHash.constructor | PacketProcessor/tun2socks-iOS/structure/CHash_impl.h:81-99 | No entry under any key, and at least one bucket even if none was asked for |
| CHash.CHash.Insert | PacketProcessor/tun2socks-iOS/structure/CHash_impl.h:106-128 | Fails exactly if an equal entry is there, naming the first and changing nothing; else the key has this one entry |
| CHash.CHash.InsertMulti | PacketProcessor/tun2socks-iOS/structure/CHash_impl.h:130-154 | The entry becomes the first of its key |
| CHash.CHash.Remove | PacketProcessor/tun2socks-iOS/structure/CHash_impl.h:156-176 | The key's entries lose exactly this one, and the table holds it no more |
| CHash.CHash.Lookup | PacketProcessor/tun2socks-iOS/structure/CHash_impl.h:178-197 | The first entry of the key, or none |
| CHash.CHash.GetNextEqual | PacketProcessor/tun2socks-iOS/structure/CHash_impl.h:199-215 | The next entry of the key, or none: after Lookup, repeated calls give all entries of the key, each once |
| CHash.CHash.MultiplyBuckets | PacketProcessor/tun2socks-iOS/structure/CHash_impl.h:217-282 | Fails, changing nothing, exactly if the new size does not fit or the memory is not granted; otherwise the buckets are the rehashed ones; every key's entries are as before in both cases |
| CHash.CHash.Verify | PacketProcessor/tun2socks-iOS/structure/CHash_impl.h:284-310 | The run-time check succeeds exactly on the tables that meet the invariant |
| IteratorRuns.StepOk | PacketProcessor/tun2socks-iOS/structure/LinkedList3.h:197-360 | Every operation keeps: no node twice in the list, and every iterator on a node of the list or at its end |
| IteratorRuns.StepPending | PacketProcessor/tun2socks-iOS/structure/LinkedList3.h:197-360 | What each operation does to the nodes an iterator still has ahead: an insertion adds at most the new node, a removal takes out at most the freed one, only its own step moves it |
| IteratorRuns.PendingStart | PacketProcessor/tun2socks-iOS/structure/LinkedList3.h:300-316 | A new iterator has ahead of it the list from its node on, or backwards the list up to it from its end, or nothing at the end |
| IteratorRuns.ReturnsOnlyPending | PacketProcessor/tun2socks-iOS/structure/LinkedList3.h:333-360 | Over any run an iterator returns only nodes that were ahead or inserted since, and never a freed node |
| IteratorRuns.ReturnsOnce | PacketProcessor/tun2socks-iOS/structure/LinkedList3.h:333-360 | It returns no node twice |
| IteratorRuns.MissesNone | PacketProcessor/tun2socks-iOS/structure/LinkedList3.h:333-360 | It misses no node that was ahead and is not freed |
| IteratorRuns.ReturnsInOrder | PacketProcessor/tun2socks-iOS/structure/LinkedList3.h:333-360 | It returns nodes in list order: at every moment of the run at which two of the nodes returned are in the list, the one returned first comes first |
| IteratorNumbers.AnyRun | PacketProcessor/tun2socks-iOS/structure/LinkedList3.h:197-360 | A run in which freed nodes come back is, with the insertions numbered, a run in which every insertion brings something new, and the iterator returns the nodes of the numbers it returns there |
| IteratorNumbers.EachInsertionOnce | PacketProcessor/tun2socks-iOS/structure/LinkedList3.h:333-360 | So, whatever comes back, the iterator returns the nodes of different insertions, and a node no more often than it was in the list and has been inserted since |
| LinkedList3.LinkedList3.InitLonely | PacketProcessor/tun2socks-iOS/structure/LinkedList3.h:197-202 | The links spell the list of just that node, without iterators on it; only that node is written |
| LinkedList3.OthersKept | PacketProcessor/tun2socks-iOS/structure/LinkedList3.h:197-360 | Each operation writes only nodes of its list and iterators on it, so that other lists over the same nodes and iterators stay what they are |
| LinkedList3.LinkedList3.InitAfter | PacketProcessor/tun2socks-iOS/structure/LinkedList3.h:204-215 | The links spell the list with the node behind the other; iterators stay where they are |
| LinkedList3.LinkedList3.InitBefore | PacketProcessor/tun2socks-iOS/structure/LinkedList3.h:217-228 | The links spell the list with the node before the other |
| LinkedList3.LinkedList3.Free | PacketProcessor/tun2socks-iOS/structure/LinkedList3.h:230-243 | The loop moves every iterator off the node and ends; the list loses exactly that node |
| LinkedList3.LinkedList3.IteratorInit | PacketProcessor/tun2socks-iOS/structure/LinkedList3.h:300-316 | The iterator joins the chain of its node |
| LinkedList3.LinkedList3.IteratorFree | PacketProcessor/tun2socks-iOS/structure/LinkedList3.h:318-331 | The iterator leaves the chain of its node; no other chain changes |
| LinkedList3.LinkedList3.IteratorNext | PacketProcessor/tun2socks-iOS/structure/LinkedList3.h:333-360 | Returns the node the iterator is on and moves it to the neighbour in its direction, from the one chain to the other |
| PacketProto.ParseEncoded | PacketProcessor/tun2socks-iOS/protocol/packetproto.h:43-66 | A packet is read back from its encoding, whatever follows |
| PacketProto.ParseSound | PacketProcessor/tun2socks-iOS/flow/PacketProtoDecoder.c:46-105 | What the decoder takes for a packet is an encoded packet within the limit |
| PacketProto.LengthHeader | PacketProcessor/tun2socks-iOS/protocol/packetproto.h:47-62 | The 16-bit little-endian length is read back as written |
| PacketProto.LittleEndian | PacketProcessor/tun2socks-iOS/flow/PacketProtoEncoder.c:58-58 | The first header byte is the low one and the second the high one, for the decoder and for the encoder |
| PacketProto.FirstPackets | PacketProcessor/tun2socks-iOS/flow/PacketProtoDecoder.c:46-105 | If such a stream starts with some encoded packets, these are its first packets |
| PacketProto.NoError | PacketProcessor/tun2socks-iOS/flow/PacketProtoDecoder.c:46-105 | On a stream of encoded packets, whatever follows it, a packet is taken for too large only where one is, and nothing is left when the stream ends |
| PacketProto.AnyRun | PacketProcessor/tun2socks-iOS/flow/PacketProtoDecoder.c:46-182 | Over every run, of whatever bytes and with resets anywhere: the bytes received since the last reset or error are the encoding of the packets emitted since, followed by the pending bytes |
| PacketProto.RunFaithful | PacketProcessor/tun2socks-iOS/flow/PacketProtoDecoder.c:46-128 | A run over a stream of packets and perhaps a bad header behind them: received bytes = encoding of the emitted packets + the pending bytes to its end, or the bad header has been reported |
| PacketProto.RoundTrip | PacketProcessor/tun2socks-iOS/flow/PacketProtoDecoder.c:46-182 | For every list of packets within the limits and every split of its encoding into chunks, the decoder emits exactly those packets in order, without error; so it does anew after a reset or an error |
| PacketProto.BadHeader | PacketProcessor/tun2socks-iOS/flow/PacketProtoDecoder.c:46-105 | If a packet that is too large follows, the packets emitted when the error is reported are exactly those before it |
| PacketProto.PacketProtoDecoder.constructor | PacketProcessor/tun2socks-iOS/flow/PacketProtoDecoder.c:130-166 | The decoder starts with a receive of positive length inside its buffer |
| PacketProto.PacketProtoDecoder.ProcessData | PacketProcessor/tun2socks-iOS/flow/PacketProtoDecoder.c:46-105 | Meets that specification; each receive it issues has positive length inside the buffer, also across the move to the front |
| PacketProto.PacketProtoDecoder.InputHandlerDone | PacketProcessor/tun2socks-iOS/flow/PacketProtoDecoder.c:107-119 | The chunk is appended to the pending bytes and the first whole packet, if there is one, is handed on: the step that the round trip is proved about |
| PacketProto.PacketProtoDecoder.OutputHandlerDone | PacketProcessor/tun2socks-iOS/flow/PacketProtoDecoder.c:121-128 | The packet handed on is forgotten and the pending bytes are looked at again: the other step of the round trip |
| PacketProto.PacketProtoDecoder.Clear | PacketProcessor/tun2socks-iOS/flow/PacketProtoDecoder.c:176-182 | The pending bytes are forgotten, everything else stays |
| PacketProto.PacketProtoEncoder.InputHandlerDone | PacketProcessor/tun2socks-iOS/flow/PacketProtoEncoder.c:51-64 | The packet is the encoding of what the input wrote behind the header: the low byte of the length at 0, the high byte at 1; the rest of the buffer is untouched |
| PacketProto.PacketProtoEncoder.Pass | PacketProcessor/tun2socks-iOS/flow/PacketProtoEncoder.c:40-64 | What the input writes at the place it is asked to write to is what a decoder reads from the packet sent |
| Substring.BuildTable | PacketProcessor/tun2socks-iOS/misc/substring.h:6-21 | Each entry of the table is the longest proper border of its prefix |
| Substring.FindSubstring | PacketProcessor/tun2socks-iOS/misc/substring.h:23-43 | The leftmost occurrence, or none exactly if there is none |
| Substring.BuildTableReverse | PacketProcessor/tun2socks-iOS/misc/substring.h:45-60 | The table is the table of the word read backwards: longest proper borders of its suffixes |
| Substring.FindSubstringReverse | PacketProcessor/tun2socks-iOS/misc/substring.h:62-82 | The rightmost occurrence, or none exactly if there is none |
| Substring.BorderOfBorder | PacketProcessor/tun2socks-iOS/misc/substring.h:9-19 | The shorter borders of a prefix are the borders of its longest one: falling back along the table skips nothing |
| Substring.OccursRev | PacketProcessor/tun2socks-iOS/misc/substring.h:62-82 | Occurrences in the text read backwards are the occurrences |
| BProto.ParseEncoded | PacketProcessor/tun2socks-iOS/generated/bproto_msgproto.h:471-539 | A field is read back from its encoding, whatever follows |
| BProto.ParseSound | PacketProcessor/tun2socks-iOS/generated/bproto_msgproto.h:541-692 | What is read as a field is the encoding of that field |
| BProto.FieldBytes | PacketProcessor/tun2socks-iOS/generated/bproto_msgproto.h:471-539 | Where in a field its identity, type code, length and payload stand, each number with its low byte first |
| BProto.WideVal | PacketProcessor/tun2socks-iOS/generated/bproto_msgproto.h:857-921 | A 64-bit number is its two halves, the low one in front |
| BProto.MessagePrefix | PacketProcessor/tun2socks-iOS/generated/bproto_msgproto.h:541-692 | If a message starts with some encoded fields, these are its first fields |
| BProto.EntriesMessage | PacketProcessor/tun2socks-iOS/generated/bproto_msgproto.h:541-692 | The fields of a message are determined by its bytes |
| BProto.OnlyReading | PacketProcessor/tun2socks-iOS/generated/bproto_msgproto.h:541-692 | A buffer has at most one reading, and is accepted exactly if that has an address and at most one key and one password |
| BProto.RoundTrip | PacketProcessor/tun2socks-iOS/generated/bproto_msgproto.h:452-692 | Whatever fields are written, in whatever order, are accepted and read back unchanged |
| BProto.Parser.Init | PacketProcessor/tun2socks-iOS/generated/bproto_msgproto.h:541-692 | Succeeds exactly on the accepted buffers; then every field is unread |
| BProto.Parser.GotEverything | PacketProcessor/tun2socks-iOS/generated/bproto_msgproto.h:694-703 | True exactly if every field has been read to its last value |
| BProto.Parser.GetAddr | PacketProcessor/tun2socks-iOS/generated/bproto_msgproto.h:705-769 | Returns the next address of the buffer, skipping other fields between, and fails exactly if all have been read |
| BProto.Parser.GetKey | PacketProcessor/tun2socks-iOS/generated/bproto_msgproto.h:781-845 | Returns the key if it is there and unread, skipping other fields, and fails exactly if not |
| BProto.Parser.GetPassword | PacketProcessor/tun2socks-iOS/generated/bproto_msgproto.h:857-921 | Returns the password as the 64-bit number that was written, and fails exactly if there is none unread |
| BProto.Parser.ResetAddr | PacketProcessor/tun2socks-iOS/generated/bproto_msgproto.h:771-774 | All addresses are unread again |
| BProto.Parser.ForwardAddr | PacketProcessor/tun2socks-iOS/generated/bproto_msgproto.h:776-779 | All addresses count as read |
| BProto.Writer.AddAddr | PacketProcessor/tun2socks-iOS/generated/bproto_msgproto.h:471-494 | What is in the buffer is the message written so far with one address field more |
| BProto.Writer.AddKey | PacketProcessor/tun2socks-iOS/generated/bproto_msgproto.h:496-519 | What is in the buffer is the message written so far with a key field more; allowed once |
| BProto.Writer.AddPassword | PacketProcessor/tun2socks-iOS/generated/bproto_msgproto.h:521-539 | What is in the buffer is the message written so far with a password field more; allowed once |
| BProto.Writer.Finish | PacketProcessor/tun2socks-iOS/generated/bproto_msgproto.h:461-469 | What was written is accepted by the parser and read back as it was written |
| Ipv6Mask.MaskFromPrefix | PacketProcessor/tun2socks-iOS/misc/ipaddr6.h:244-262 | The mask has exactly its first `prefix` bits set |
| Ipv6Mask.PrefixFromMask | PacketProcessor/tun2socks-iOS/misc/ipaddr6.h:264-302 | Returns the length of the mask, and fails exactly if the bytes are no mask |
| Ipv6Mask.MaskUnique | PacketProcessor/tun2socks-iOS/misc/ipaddr6.h:244-302 | Masks and their lengths determine each other, so the two conversions are inverse |
| Ipv6Mask.MaskExact | PacketProcessor/tun2socks-iOS/misc/ipaddr6.h:244-262 | Byte by byte: all ones, then one byte with its highest bits set, then zeros |
| Ipv6Mask.BitWorth | PacketProcessor/tun2socks-iOS/misc/ipaddr6.h:244-262 | The first bit of a byte is its highest |
| Ipv6Mask.AddrsInNetwork | PacketProcessor/tun2socks-iOS/misc/ipaddr6.h:304-326 | True exactly if the first `netprefix` bits of the two addresses are the same |
| Ipv6Text.ParseText | PacketProcessor/tun2socks-iOS/misc/ipaddr6.h:71-205 | Any printed form of an address, with any run of zeros compressed, is read back as that address |
| Ipv6Text.ParseTextIfaddr | PacketProcessor/tun2socks-iOS/misc/ipaddr6.h:207-230 | An address printed with its prefix length is read back as both |
| Ipv6Text.TextIs | PacketProcessor/tun2socks-iOS/misc/ipaddr6.h:354-371 | The printed form is the blocks with colons between them, or, with a run of at least two left out, what is before it and what is after it with two colons between |
| Ipv6Digits.TextPlain | PacketProcessor/tun2socks-iOS/misc/ipaddr6.h:354-371 | Every printed form consists of colons and of the characters of 0123456789abcdef, and no block of it begins with a zero that could be left out |
| Ipv6Digits.HexDigitExact | PacketProcessor/tun2socks-iOS/misc/parse_number.h:83-104 | A character has the digit value k exactly if it is the k-th of 0123456789abcdef or of 0123456789ABCDEF, and none exactly if it is in neither |
| Ipv6Digits.DecDigitExact | PacketProcessor/tun2socks-iOS/misc/parse_number.h:65-81 | A character has the decimal value k exactly if it is the k-th of 0123456789 |
| Ipv6Digits.ParseLower | PacketProcessor/tun2socks-iOS/misc/ipaddr6.h:71-205 | Every text, address or not, is read as the same text in small letters |
| Ipv6Digits.PrefixExact | PacketProcessor/tun2socks-iOS/misc/ipaddr6.h:207-219 | A prefix length is any decimal number, also with leading zeros, whose value is at most 128, and nothing else |
| Ipv6Digits.IfaddrExact | PacketProcessor/tun2socks-iOS/misc/ipaddr6.h:221-230 | What is read as an address with a prefix length is exactly an address, a slash, and a prefix length |
| Ipv6Text.TextSize | PacketProcessor/tun2socks-iOS/misc/ipaddr6.h:66-66 | Every printed form fits IPADDR6_PRINT_MAX, with a prefix length and the end of the string |
| Ipv6Text.LargestRun | PacketProcessor/tun2socks-iOS/misc/ipaddr6.h:331-351 | Finds the first longest run of zero blocks |
| Ipv6Text.PrintAddr | PacketProcessor/tun2socks-iOS/misc/ipaddr6.h:328-372 | Compresses exactly the first longest run of at least two zero blocks; parsing the result gives the address back, and it fits the buffer |
| Ipv6Text.ParseAddr | PacketProcessor/tun2socks-iOS/misc/ipaddr6.h:71-205 | The in-place parser accepts exactly the texts the reading function accepts, and stores the address it gives, each block with its high byte first |
| Ipv6Grammar.ParseExact | PacketProcessor/tun2socks-iOS/misc/ipaddr6.h:71-205 | Those texts are exactly: eight blocks, or two colons somewhere and at most eight blocks, the last two perhaps as four decimal numbers, a block being hexadecimal digits of a value up to 65535, by their places in 0123456789abcdef and 0123456789ABCDEF; and they are read as what they say |
| Ipv6Grammar.DoneExact | PacketProcessor/tun2socks-iOS/misc/ipaddr6.h:135-146 | The eight blocks are those written, or those before the two colons, then zeros, then those behind them |
| Ipv6Grammar.Scan4Exact | PacketProcessor/tun2socks-iOS/misc/ipaddr6.h:156-205 | The embedded form is exactly four decimal numbers up to 255, without leading zeros, with dots between them, and is read as these numbers |
| Ipv6Text.ParseFour | PacketProcessor/tun2socks-iOS/misc/ipaddr6.h:156-195 | Reads four decimal numbers up to 255 without leading zeros, exactly as the reading function does |

## Left out

- Allocation failure (apart from that of `CHash_MultiplyBuckets`), logging, debug objects and counters, the reactor, sockets, timers and all platform code: diagnostics and I/O. Allocation succeeds.
- `BAVL.h`, `IndexedList.h` and the `SAvl` wrappers are the same tree under other names; `CAvl` stands for them.
- CAvl.CAvl.Insert: the comparator is a total order on the nodes, as the tree's users must supply; `Remove` does not mention it, and `SortedRemove` says that order is kept.
- PacketBuffer.PacketBuffer.InputHandlerDone: nothing is claimed of what follows once the invariant is broken, which happens only beyond 2^29 blocks; `PacketBuffer.c` would then violate an assertion of `ChunkBuffer2.h`.
- AbpMatcher.CombinedMatcher.MatchesAny: exactness for the query itself is claimed only where no different query with the same key can have been asked, because the cache key does not tell such queries apart.
- Filters of `abp.js`: how a text becomes a filter (options, `@@`, raw expressions between slashes), whether a raw expression matches, and whether a filter is active on a domain are given by an abstract `World`; comment and invalid filters are never added. Letters are ASCII: case folding beyond it is not modelled. `isSlowFilter` and `getKeywordForFilter` are one-line lookups.
- FairRuns.Fair: while one of the two flows is idle nothing is claimed; what it may gain by that when it sends again is said by `Joins` and `JoinsFair`, unless nothing is queued, sent or just finished, when the current time falls back to 0.
- The fair queue's flows are compared by number where the source compares addresses; FAIRQUEUE_MAX_TIME is a parameter below 2^64; flow inputs do not enable cancel, while the output may; jobs of other parties are kept abstract.
- PacketPassInterface: `EnableCancel`, `HasCancel` and `GetMTU` only set or return a field; of a packet the length is modelled, not where its bytes are.
- Jobs.JobList.RemoveEntry: of `SLinkedList` only what the job list uses is modelled; appending and inserting in the middle are not.
- LinkedList3: the getters for the neighbours and for the ends of the list are left out; a list is joined neither with another one nor split.
- PacketProto: the handshakes of the stream and packet interfaces are not modelled; a step is a chunk received, a packet sent or a reset.
- BProto: `BProto.h` is not part of this model; the type codes are a parameter, distinct and below 2^16, a field header is two 16-bit numbers, and a data length has 32 bits. Other messages are instances of the same template, and so are the Reset and Forward functions of key and password.
- BProto.Writer.AddAddr: the payload is written together with its header, where the source hands out a pointer to be filled later; AddKey likewise.
- Ipv6Text.PrintAddr: the text is returned as a string; the bound on its length stands for the buffer it is printed to.
- The UTF-8 and UTF-16 helpers, checksums, byte order, vectors, the other linked lists and number formatting: separate small helpers.
