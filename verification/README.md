# A verified model of a distributed publish/subscribe router

Nodes of this router form a mesh. Subscribers announce their interests as Bloom filters, each node merges what it hears
and passes it on, and publications follow the merged filters back to the subscribers. This project models the hard logic
of that router in Dafny and proves what it promises. `dafny verify dfyconfig.toml` checks all of it.

| files | what they model |
|---|---|
| `MeshNode`, `MeshProtocol`, `Walks` | mesh ids, muting of links, and why a detected loop is a loop |
| `Topics`, `TopicFilter`, `TopicSegments`, `TopicRouting` | the topic matcher, the items put in a Bloom filter, what both mean for segments, and why the filter has no false negatives |
| `Words`, `BitVectors` | bit vectors with a cached population count, and the similarity-preserving hash |
| `CountVectors` | incremental union and intersection of a multiset of bit vectors |
| `Tally`, `Interests` | the interests a node counts and the interests it sends |
| `Routing` | routing over any number of hops |
| `RunLength`, `RunLengthDecoder` | the run-length codec and the serialization of bit vectors |
| `HistoryTree`, `HistoryList`, `HistoryModel`, `PublicationHistory` | the publication history: a search tree and a sorted list over the same records in memory |
| `PublishRequests` | the life of reference-counted publish requests |
| `DeltaSync` | delta synchronization of interests over a link that loses, repeats and reorders messages |
| `Cbor`, `CborBuffers` | the CBOR codec, byte strings wrapped in place, and the recursive skipper |
| `Gcm` | feeding a list of buffers to a block cipher in place |
| `Ttl` | the time to live of publications along a chain of forwarders |

Where the program changes objects in place, the model has a class with the same fields, and each method is proved against
a specification function or a plain statement of the new state. What the program promises is then proved about those
specifications, for all inputs, all runs and all reachable states.

How some things are represented:

- A machine word is a sequence of 64 booleans, least significant first, so that shifts, rotations and masks are exact.
- A mesh id is a number, and a ghost map records which node drew it; no two nodes ever draw the same id.
- A message that has been sent stays in the network for ever, so it may be delivered never, late, or many times.
- A UUID of a publication is its rank in the order of comparison, and an address is a number.
- A node holds its two count vectors as objects; which subscriptions and stored vectors were counted is ghost state.
- The hash that turns a topic item into bit positions is an arbitrary function, and so is the cipher.
- The load factor is compared in integers: `100 * count + 1` against `30 * length` and `70 * length`.
- The clock, the choices of the network and the outcomes of sends are parameters.
- A transmit buffer in `Gcm` is an array that holds the bytes written so far.
- In the history, four fields of a record are grouped in one value (`Rec`), and what memory holds at one moment is a map from
  records to cells.

## What does not hold, and when it does

These are results about the code as it is. Each one is proved by a member that exhibits the failing inputs, and wherever
there is one, the exact condition under which the code does what it promises is proved for all inputs.

- The cached count of the complement of a bit vector can be wrong: it stays right after `DPS_BitVectorComplement` if and only
  if it was known and positive before, or zero for a vector without any bits (`BitVectors.BitVector.Complement`).
- A bit vector whose run-length code is longer than itself cannot be serialized at all. The code falls back to the raw form
  only when the buffer is too short, not when the encoder overflows. Every vector with each fourth bit set is
  such a vector (`RunLengthDecoder.EveryFourthCannotBeSerialized`); serialization with enough room succeeds exactly when the
  code is not longer (`RunLengthDecoder.Serialize`). When the encoder stops, it has already written the one of the code that
  does not fit. This lies within the bytes of the vector exactly under the condition of `RunLength.RunLengthEncode`,
  and behind them for a vector of the default length with every fourth bit set (`RunLengthDecoder.EveryFourthReachesBehind`).
- The run-length decoder ends when its window of 64 bits has no ones, and asserts that there are no more bytes then. Data that
  has been received need not be like that. The decoder does what the data means if and only if no ones are left behind such a
  window; the assertion holds if and only if no bytes are left; without it, what is cut off is an error that is
  not reported (`RunLengthDecoder.RunLengthDecode`; `RunLengthDecoder.LateOneIsCutOff` gives nine such bytes). Data that
  was encoded is never cut off (`RunLengthDecoder.RoundTrip`).
- A new vector into which a complement has been deserialized has a cached count of one more than its length
  (`RunLengthDecoder.Deserialize`).
- Needs can change while interests do not. Then no update is sent, and the assertion in `DPS_UpdateOutboundInterests` that the
  two agree does not hold. This happens on subscribing and on unsubscribing exactly when the interests of the subscription are
  among those of all others and its needs do not include theirs (`Routing.NeedsDriftExactlyWhen`, and
  `Routing.SubscribeAndUpdate` for the methods of a node; `Routing.DriftingRun` is a run). It also happens when another remote
  sends, replaces or withdraws interests, or is deleted, again exactly under a condition on these
  (`Routing.StoringDriftsExactlyWhen`, `Routing.DeletedIsWithdrawn`; `Routing.HearAndUpdate` for the methods). After subscribing, the neighbour
  rejects publications of the new subscription (`Routing.StaleNeedsReject`); after unsubscribing it
  still needs less than it is due, and nothing is lost. Routing is proved for chains in which every node has stored at least the interests and at most the
  needs that the next one computes for it.
- A subscription that a full count vector refuses stays linked. Removing it takes out a vector that was not added: the counts
  match the sources afterwards if and only if the removed subscription was counted, or nothing is counted any more
  (`Interests.Node.Unsubscribe`; `Interests.RefusedThenRemoved` is the run). Likewise for what is stored for a
  remote (`Interests.Node.ClearInbound`). When such a remote is sent an update, what it has told is taken out and put back: the
  pair it is sent lacks the interests that are counted just once among its own, and the maintained union gains those that
  are not counted. `Interests.Node.UpdateOutbound` says exactly when each is right, `Interests.Node.UpdateInbound` the same for
  what it sends next.
- A node can stop waiting for an acknowledgement although the other end lacks its update, which is then not sent again; the next
  keep-alive message makes all revisions agree, and the two ends stay different (`DeltaSync.GivingUpLoses`). This is exactly what
  can go wrong with deltas (`DeltaSync.RunKeepsInvExactlyWhen`). It has three causes. A SUB arrives meanwhile, because the two
  have met (`DeltaSync.CollisionDesynchronizes`) or because the first SAK of a link, with the interests of the other node, was
  lost, and the SUB that is therefore sent again counts as a collision (`DeltaSync.LostHandshakeDesynchronizes`). A SAK without
  interests that arrives late makes the node forget that it is a SUB that it has to send again; it sends a SAK, and waits
  no more (`DeltaSync.RepeatedAckDesynchronizes`). A late SAK with interests is acknowledged, which ends the wait as well.
- The first interests of an unknown sender are taken for a repetition exactly if they come with revision 0, and an assertion
  that they are not fails (`MeshNode.FirstIsRepeatedExactlyWhen`). A node that has had no interests since the link was made
  keeps the link alive with such a SUB.
- Unmuting forgets what a remote was sent by setting it to nothing, so that the next SUB is still a delta. The two ends agree
  after it exactly when the receiver has nothing stored (`DeltaSync.UnmutingSynchronizesExactlyWhen`).
- The time to live in a forwarded publication is computed with unsigned numbers and cut off to 16 bits. It exceeds the
  one received exactly in certain periods of hours after the expiration, the first of which begins almost three hours after it
  (`Ttl.InflatesExactlyWhen`, `Ttl.ForwardedGrowsExactlyWhen`).
- `CBOR_DecodeInt` takes the most negative 65-bit number for 0 and is exact on all other numbers that it accepts
  (`Cbor.DecodedIntIsExact`). `CBOR_EncodeBytes` is inverted by decoding exactly when the length fits into 32 bits
  (`Cbor.BytesRoundTrip`). `CBOR_Skip` counts a tag as an item of its own; it skips exactly one value if and only if
  there is no tag in that value at any depth (`Cbor.SkipIsExact`).
- `CBOR_EndWrapBytes` bounds the move of the data one byte too far: when exactly one byte of room is missing, the last byte of
  the data is written behind the buffer before the error is returned; in all other cases nothing is written there
  (`CborBuffers.TxBuffer.EndWrapBytes`).
- The subscriptions `+` and `#` put nothing in a filter, and no other subscription does so (`TopicRouting.EmptyFilter`). If
  that is all a node has to tell, nothing is stored for it, and no publication reaches it although all of them match `#`
  (`Routing.LoneHashIsNotServed`). Beside other subscriptions it is served exactly with those publications that share a bit
  with the interests of the others (`Routing.EmptyFilterServedExactlyWhen`).
- A subscription can match a publication whose filter lacks one of its items. For every list of separators, this happens for
  some pair of topics if and only if `+` is a separator and so is some ordinary character
  (`TopicRouting.NoItemLostExactlyWhen`); with some hash, the filter then rejects the publication
  (`TopicRouting.LostItemRejects`). For all other lists, there are no false negatives
  (`TopicRouting.FilterHasNoFalseNegatives`).

Where comments and code of the program disagree, the model follows the code:

- `Ceil_Log2` (src/bitvec.c:536-556) rounds down, not up.
- The description of loop detection (src/sub.c:709-728) speaks of an outbound mesh id that is recorded; there is no such field.
- `DPS_BitVectorFuzzyHash` (src/bitvec.h:155) is said to return the population count; it returns a status.
- The message about the number of hashes (src/bitvec.c:186) gives a limit of 16; the limit is 8.
- The lifetime of history records (src/history.c:41-43) is said to be in nanoseconds; it is in milliseconds.
- The examples of run-length codes (src/bitvec.c:521-530) show the number with its most significant bit first; the code writes
  the least significant one first.
- `CBOR_Skip` is said to skip a data item; for a tag it skips the head alone (src/cbor.c:818-829).

## Model

| member | source | states |
|---|---|---|
| Walks.RevisitMeansCycle | src/sub.c:721-728 | a walk over links that never turns straight back and visits a node twice proves a cycle of at least three different nodes (or a self-link) |
| Walks.TwoWalksMeanCycle | src/sub.c:725-727 | two such walks between the same ends that arrive over different last hops prove a cycle: the step from "another path" to "a loop" |
| MeshNode.Lookup | src/dps.c:585-598 | the first remote with an address, or the end of the list when there is none |
| MeshNode.MinMeshId | src/dps.c:412-426 | the least of the node's own id and the ids heard from active and linking remotes other than the excluded one; it is one of them |
| MeshNode.Node.FindMinMeshId | src/dps.c:412-426 | the loop over the remotes finds exactly that minimum |
| MeshNode.Node.LookupRemote | src/dps.c:585-598 | the loop finds exactly that remote |
| MeshNode.Node.HasLoop | src/sub.c:729-736 | a loop is reported when the id differs from the one last heard from the sender, and is the node's own or that of another remote in the mesh and the least of these |
| MeshNode.Node.AddRemote | src/dps.c:619-649 | a known remote is returned; an unknown one is added at the head with the greatest mesh id |
| MeshNode.DeletedMeans | src/dps.c:370-410 | deleting takes away exactly the remote with the address: it is not found any more, and every other one still is |
| MeshNode.Node.DeleteRemote | src/dps.c:370-410 | the search for the record in front of it ends, and afterwards the list holds exactly the remotes with other addresses, in order; an unknown address changes nothing |
| MeshNode.Node.UnlinkRemote | src/sub.c:684-707 | a remote that unlinks is acknowledged with its new revision, with interests only if it was being unmuted, and then deleted; an unknown one is ignored |
| MeshNode.Node.MuteRemote | src/dps.c:530-549 | a remote that is neither muted nor unlinking is in the state Muted and at the head afterwards, the others follow in their order; otherwise nothing changes |
| MeshNode.Node.UnmuteRemote | src/dps.c:551-583 | a muted or unmuting remote is unmuting, the node has a fresh mesh id, and a SUB with the request and the new minimal id goes out unless the network refuses; other remotes change nothing |
| MeshNode.Node.SendSubscription | src/sub.c:261-447 | the SUB carries the minimum that excludes its receiver, and the flags of the remote's state |
| MeshNode.Node.SendSubscriptionAck | src/sub.c:449-655 | the SAK has the flags of the state before it is sent; it asks for a SAK if interests are due, and always when it completes unmuting, but never after a collision |
| MeshNode.Node.DiscardMessage | src/sub.c:989-993 | discarding deletes a remote that was added for the message, and changes nothing else |
| MeshNode.Node.DecodeSubscription | src/sub.c:742-1007 | the handler of both message kinds does what the protocol's step function says, which is also written out: a message that is looked at and indicates muting or shows a loop leaves its sender muted at the head, keeps the others, and is answered by a SAK that says so; a request to unmute leaves its sender active; any other one is recorded in its place. Says exactly when the assertion that first interests are no repetition holds |
| MeshNode.Node.ProcessMessage | src/sub.c:918-932 | the unmute request, the mute indication and the loop test of a message that is not stale, with the two ways it is discarded; what comes of each is written out in `MeshNode.ReceiveMeans` |
| MeshNode.Node.FinishMessage | src/sub.c:933-987 | the acknowledgement, the recorded mesh id, and the change from new or unmuting to active |
| MeshNode.LoopMutes | src/sub.c:926-928 | every message that is looked at, from a sender that is not silenced or unlinking, and that indicates muting or shows a loop, mutes its sender: it is at the head in the state Muted, the others stay as they were, and the SAK, if one is due, has the mute flag |
| MeshNode.NoLoopKeeps | src/sub.c:933-987 | any other message leaves all remotes in their places and records revision and mesh id of the sender, which becomes active if it was new; the SAK says whether it is muted already |
| MeshNode.UnmuteUnmutes | src/dps.c:551-583 | the request to unmute makes a silenced sender active, with a fresh mesh id, a SUB with the same request and the least id, and a SAK |
| MeshNode.StaleIsIgnored | src/sub.c:904-908 | a message with an older revision than the one before changes nothing and is not answered |
| MeshNode.UnlinkDeletes | src/sub.c:684-707 | a SUB that unlinks takes away exactly its sender, and one SAK is sent to it |
| MeshNode.FirstIsRepeatedExactlyWhen | src/sub.c:913-957 | that assertion fails if and only if a SUB that does not unlink comes with revision 0 from an unknown sender, and does not mute it |
| MeshNode.NoneStaysNew | src/sub.c:984-993 | after every message no remote is left in the state of a new one |
| MeshProtocol.MinMeshIdTrail | src/sub.c:716-719 | whatever id a node sends to a neighbour has come from the node that drew it, along a walk that never turns back and ends with this hop |
| MeshProtocol.ReceiveInv | src/sub.c:742-1007 | handling any message keeps every remembered id and every sent id traceable to its origin |
| MeshProtocol.StepInv | src/sub.c:709-728 | every action of any node keeps the invariant: linking, unlinking, deleting, unmuting, sending, resending, and delivery of any message ever sent |
| MeshProtocol.RunInv | src/sub.c:709-728 | the invariant holds after every run, whatever messages are lost, repeated or reordered |
| MeshProtocol.LoopMeansTwoRoutes | src/sub.c:721-728 | when the loop test fires, the same id has reached the node from its origin over two different walks with different last hops |
| MeshProtocol.LoopMeansCycle | src/sub.c:729-736 | when the loop test fires, the links that have existed contain a cycle |
| MeshProtocol.LoopDetectionSound | src/sub.c:709-728 | in every reachable state of every run, the loop test fires only if the links contain a cycle |
| MeshProtocol.StepQuiet | src/sub.c:918-932 | without a cycle, no action mutes or unmutes a remote or sends such an indication |
| MeshProtocol.AcyclicMeshNeverMutes | src/sub.c:926-928 | on every run of a mesh whose links never form a cycle, no remote is ever muted and no mute or unmute indication is ever sent |
| BitVectors.SquashMonotone | src/bitvec.c:382-389 | folding a superset into one word gives a superset |
| BitVectors.SmearMonotone | src/bitvec.c:395-409 | so does the sequence of rotations |
| BitVectors.FuzzyHashMonotone | src/bitvec.h:142-146 | the hash of a superset is a superset of the hash, for vectors of any length |
| BitVectors.FuzzyHashZero | src/bitvec.c:391-394 | the hash is empty exactly when the vector is |
| BitVectors.HashBits | src/bitvec.c:369-417 | every bit of every word of the hash: in the first three it is set exactly if a bit of the vector is set at one of the written-out distances from it, around the word; in the fourth, if it is below the number of ones, or there are more than 62 |
| Words.PopCountZero | src/bitvec.c:219-233 | a count of zero means that all chunks are zero, and the other way round: the basis of every shortcut |
| BitVectors.BitVector.IsClear | src/bitvec.c:219-233 | right whether or not the count is cached, and the cache stays right |
| BitVectors.BitVector.CountBits | src/bitvec.c:235-246 | the population count, cached afterwards |
| BitVectors.BitVector.Dup | src/bitvec.c:248-255 | copies the value and a right cache, also onto itself |
| BitVectors.BitVector.Clone | src/bitvec.c:257-265 | a fresh vector of equal value |
| BitVectors.SetAll | src/bitvec.c:287-293 | exactly the old bits and the selected ones are set |
| BitVectors.BitVector.BloomInsert | src/bitvec.c:274-295 | exactly the bits that the hashes select are added |
| BitVectors.BitVector.BloomTest | src/bitvec.c:297-315 | true exactly when all selected bits are set |
| BitVectors.BitVector.Equals | src/bitvec.c:322-342 | equality of lengths and of all bits |
| BitVectors.BitVector.IncludesAll | src/bitvec.c:344-367 | true exactly when the vector is not empty and has all bits of the other; the cached zero is a sound shortcut |
| BitVectors.BitVector.SetFuzzyHash | src/bitvec.c:369-417 | stores the hash and leaves both caches right; what is stored is written out bit by bit |
| BitVectors.BitVector.Union | src/bitvec.c:419-431 | the bits of both |
| BitVectors.BitVector.Intersection | src/bitvec.c:433-455 | the common bits, also when an operand is the result, with both zero shortcuts |
| BitVectors.BitVector.Xor | src/bitvec.c:457-487 | the differing bits, also in place, and whether the operands were equal |
| BitVectors.BitVector.Fill | src/bitvec.c:853-860 | all bits are set and the cache is right |
| BitVectors.BitVector.Clear | src/bitvec.c:862-868 | no bit is set, also when the zero shortcut skips the work |
| BitVectors.BitVector.Complement | src/bitvec.c:870-879 | the complement, and the exact condition under which the cache is right afterwards |
| BitVectors.BitVector.Set | src/bitvec.c:921-930 | the given bits if the length fits, and otherwise no change |
| CountVectors.CountersMean | src/bitvec.c:1071-1092 | a bit is in the union of all members exactly when its counter is positive, and in the intersection exactly when the counter equals a positive number of entries |
| CountVectors.ShiftedBits | src/bitvec.c:1005-1011 | the loop that shifts a chunk looks at every bit and stops early only when the rest is zero |
| CountVectors.CountVector.Add | src/bitvec.c:987-1020 | one more member; counters, entries and maintained union stay exact; refused exactly when full; what it does to counters that are not right, wrapping around, is stated too |
| CountVectors.CountVector.Del | src/bitvec.c:1022-1060 | one member fewer, and all stays exact; refused exactly when empty; deleting what is not a member always leaves the vector wrong |
| CountVectors.CountVector.DelChunk | src/bitvec.c:1036-1050 | counters of the chunk's bits go down by one, around zero, and the result has exactly the bits that reached zero |
| CountVectors.CountVector.PutBack | src/dps.c:450-473 | when any vector has been deleted and added again, all is as before if and only if no union is maintained or all bits of the vector were counted |
| CountVectors.CountVector.PutOther | src/sub.c:666-679 | when another vector than the deleted one is added, nothing is as before |
| CountVectors.CountVector.LowersUnion | src/dps.c:450-456 | the union in the meantime is that of all members if and only if no bit of the deleted vector was counted just once |
| CountVectors.CountVector.LowersIntersection | src/dps.c:460-466 | the intersection in the meantime is that of all members if and only if no bit that the deleted vector lacks was counted by all other entries or by all entries; of one entry, if it had no bits |
| CountVectors.CountVector.ToUnion | src/bitvec.c:1062-1069 | a fresh vector with the bits that some member has, or nothing if no union is maintained |
| CountVectors.CountVector.ToIntersection | src/bitvec.c:1071-1092 | a fresh vector with the bits that every member has, and none without members; skipping chunks with an empty union is sound |
| CountVectors.CountVector.ChunkIntersection | src/bitvec.c:1078-1087 | the bits of one chunk that all entries have |
| Interests.TalliedUnion | src/dps.c:455 | the union of what the count vector holds is the union of the local subscriptions and of what is stored for the remotes |
| Interests.TalliedIntersection | src/dps.c:464 | likewise for the intersection of needs |
| Interests.Node.Subscribe | src/sub.c:1121-1127 | a subscription is linked, and counted exactly when the count vectors are not full; the counts match what was counted |
| Interests.Node.Unsubscribe | src/sub.c:140-184 | that subscription is gone; the counts match the remaining sources if and only if it was counted, or nothing is counted any more |
| Interests.RefusedThenRemoved | src/sub.c:165-173 | on a full node, subscribing and unsubscribing changes no source and spoils the counts |
| Interests.FullNode | src/sub.c:1121-1127 | subscribing often enough fills the count vectors of a new node |
| Interests.Node.ClearInbound | src/dps.c:346-362 | what was stored for a remote is gone; the counts match if and only if it was counted, or nothing is |
| Interests.Node.DeletePeer | src/dps.c:385-410 | the remote and its contribution are gone; the counts match under the same condition |
| Interests.Node.AddPeer | src/dps.c:619-649 | a remote that nothing is known of joins at the head and contributes nothing |
| Interests.Node.UpdateInbound | src/sub.c:660-682 | what a SUB spells out, or what its delta leads to, is stored unless it is empty, and counted exactly when there is room; if what was stored before had been refused by full count vectors, the counts match afterwards if and only if the same pair is stored again and all its interests were counted for others; bit by bit, a delta toggles what was stored |
| Interests.Node.ComputePair | src/dps.c:450-473 | the pair for a remote is the union and the intersection of all other counted sources; vectors are taken out of the count vectors and put back, which end as they began. If what is stored for the remote was refused: exactly when each half of the pair is right, and when the counts end as they began |
| Interests.Node.UpdateOutbound | src/dps.c:428-528 | only this remote's outbound part changes: new pair, delta against the old one, and a revision that goes up exactly if the interests have changed or none were sent before; fails exactly if what is stored for the remote was refused and nothing is counted; if it was refused, exactly when each half of what is sent is right, and when the counts stay so |
| Interests.UpdateArrives | src/dps.c:482-516 | what is sent after an update, whole or as a delta, leads to exactly the new pair at an other end that has stored the one before |
| Interests.OutPairWithout | src/dps.c:450-473 | without what a remote contributed, the counts yield exactly the union and the intersection of the other sources |
| Interests.KeptWithout | src/sub.c:144-161 | removing a subscription removes one of those that are counted exactly if it is counted |
| Interests.NodeAdd | src/sub.c:1121-1127 | adding a source and its vectors keeps the match; adding the source alone breaks it |
| Interests.NodeRemove | src/sub.c:165-173 | removing a source and its vectors keeps the match, and the vectors are there to be removed |
| Interests.NodeClear | src/dps.c:346-362 | what a remote contributed can be taken out and put back without loss |
| Interests.NodeFill | src/sub.c:674-680 | counting what is stored keeps the match; storing without counting breaks it |
| Interests.SameLive | src/sub.c:165-173 | interests and needs always have equally many contributions, so the two count vectors fill up together |
| Routing.PassesMatch | src/dps.c:811-816 | the three calls on scratch vectors decide the routing test |
| Routing.CoversAccepts | src/dps.c:811-816 | a pair that asks for no more than a non-empty filter and its hash accepts every publication with all bits of the filter |
| Routing.OutPairCovers | src/dps.c:450-473 | whatever one source of a node covers, the pair sent to any other neighbour covers |
| Routing.HeardCovers | src/dps.c:804-816 | whatever a pair covers is covered by a stored one with at least its interests and at most its needs |
| Routing.ChainCovers | src/dps.c:450-473 | the pair that every node of a chain sends towards the publisher covers the subscription at the other end |
| Routing.EveryHopAccepts | src/dps.c:811-820 | over any number of hops, no node drops a publication that has all bits of a subscriber's non-empty filter |
| Routing.MatchingPublicationIsRouted | src/topics.c:207-263 | from strings to the last hop: if the topics of a publication match those of a subscription with a non-empty filter, every node in between sends it on |
| Routing.HashesDiffer | src/bitvec.c:410-414 | the hash tells smaller from larger counts until it saturates |
| Routing.PairWithSub | src/dps.c:450-473 | one more subscription adds its interests to the pair of a remote and leaves of the needs only its own |
| Routing.PairWithHeard | src/dps.c:450-473 | so does one more pair that another remote has sent |
| Routing.NeedsDriftExactlyWhen | src/dps.c:487-501 | subscribing and unsubscribing change the needs without changing the interests, so that no update is sent, if and only if the interests of the subscription are among those of all others and its needs do not include theirs; only after subscribing is what was sent before too little |
| Routing.HeardDriftExactlyWhen | src/dps.c:487-501 | the same for a pair that another remote sends or withdraws, whatever its needs are |
| Routing.ReplacedDriftExactlyWhen | src/dps.c:487-501 | when another remote sends one pair after another, the needs of the others drift if and only if the interests of the two differ only in bits that are asked for anyway, and the needs in a bit that all others need (or at all, if there are no others) |
| Routing.StoringDriftsExactlyWhen | src/sub.c:660-682 | the exact condition for whatever is stored for a remote: for the first time, in the place of something else, or not any more |
| Routing.DeletedIsWithdrawn | src/dps.c:385-410 | as far as the other remotes are concerned, deleting a remote is withdrawing what it has told |
| Routing.HearAndUpdate | src/dps.c:487-516 | the methods of a node send no update to a remote after another one has sent interests, although the pair has changed, exactly under that condition |
| Routing.SubscribeAndUpdate | src/dps.c:487-516 | the methods of a node send no update for a changed pair exactly under that condition |
| Routing.StaleNeedsReject | src/dps.c:491-497 | the pair sent before then rejects the publications of the new subscription, and otherwise accepts them; the pair that is due always accepts them |
| Routing.DriftingRun | src/dps.c:491-497 | a run of a node with one neighbour in which this happens |
| Routing.EmptyFilterServedExactlyWhen | src/dps.c:804-820 | a remote with a subscription that has an empty filter is sent a publication exactly if the publication shares a bit with the other interests there |
| Routing.EmptyFilterAlone | src/sub.c:671-680 | nothing is stored and nothing sent if that is all it has to tell |
| Routing.LoneHashIsNotServed | src/topics.c:207-263 | so a node whose one subscription is `#` is sent nothing although every publication matches |
| Topics.CheckMeans | src/topics.c:44-96 | in an accepted topic every wildcard fills a whole segment, `#` comes last, and publications have none |
| Topics.CheckExactlyWhen | src/topics.c:44-96 | for ordinary separators, exactly the topics that the documentation describes pass the check |
| Topics.CheckWildcarding | src/topics.c:44-96 | the loop decides the check; for ordinary separators a topic is accepted if and only if all wildcards fill segments, only subscriptions have any, `#` comes last, and it does not end in a separator; the first wildcard is found |
| Topics.MatchLiteral | src/topics.c:253-258 | comparing characters decides equality of a whole literal segment and then goes on after it |
| Topics.MatchIsSegMatch | src/topics.c:237-261 | the pointer loop decides the segment relation: equal literal segments, `+` for one segment, a final `#` for a non-empty rest, equal separators |
| Topics.MatchTopicString | src/topics.c:207-263 | answers exactly for valid topics, for any separators, with the rule for matching without wildcards; with ordinary separators the answer is the segment relation; for ordinary separators, exactly which topics are invalid |
| Topics.MatchTopicList | src/topics.c:265-292 | the answer is that every subscription topic is matched by some publication topic; it is given whenever no list is empty and all topics are valid |
| TopicFilter.AddTopic | src/topics.c:118-191 | accepts exactly the valid topics, and the filter gains exactly the bits of the topic's items; for ordinary separators, exactly which topics are accepted is written out |
| TopicFilter.AddSegments | src/topics.c:158-187 | the loop with its segment buffer inserts the prefixes and the segment items |
| TopicFilter.AddSegment | src/topics.c:165-177 | the buffer holds the separators, the segment and the separator after it when it is inserted |
| TopicFilter.AddWildItems | src/topics.c:180-187 | rewriting the buffer from its end inserts an item for `+` and one for every place of `#` |
| TopicSegments.SegMatchMeans | src/topics.c:237-261 | what the matcher decides, in terms of lists of segments: with a final `#`, the segments before it match and the next one is not empty; otherwise there are equally many segments, and each is matched by `+` or equal, with the same separator after it |
| TopicSegments.ItemsAre | src/topics.c:118-191 | exactly which items a topic puts in a filter, in terms of segments: for a publication the topic, its prefixes that end in a separator, one item for each segment but the first, and those for `+` and `#`; for a subscription with wildcards what precedes the first one, and one item for each later segment but a `+` with something after it |
| TopicRouting.LoopCovered | src/topics.c:158-179 | from matching separators on, every item of the subscription is an item of the publication |
| TopicRouting.PrefixCovered | src/topics.c:150-152 | what precedes the first wildcard is a prefix that the publication inserts |
| TopicRouting.PlainMatch | src/topics.c:237-261 | whatever the separators are, a subscription without wildcards matches only itself |
| TopicRouting.HashSeparator | src/topics.c:118-191 | with `#` among the separators, but not `+`, every item of a matching subscription is an item of the publication |
| TopicRouting.WildSeparators | src/topics.c:44-96 | if all separators are wildcard characters, a subscription with wildcards has no items |
| TopicRouting.ItemsCovered | src/topics.c:118-191 | every item of a subscription that the matcher accepts is an item of the publication, unless `+` and an ordinary character are separators |
| TopicRouting.ListItemsCovered | src/topics.c:265-292 | likewise for lists of topics |
| TopicRouting.FilterHasNoFalseNegatives | src/topics.c:207-292 | for any hash, the filter of a publication has all bits of the filter of every subscription that it matches |
| TopicRouting.EmptyFilter | src/topics.c:147-152 | whatever the separators are, exactly the subscriptions `+` and `#` put nothing in a filter |
| TopicRouting.PlusLosesItem | src/topics.c:158-187 | with `+` and an ordinary separator, there is a subscription that matches a publication without having all its items there |
| TopicRouting.NoItemLostExactlyWhen | src/topics.c:118-191 | for every list of separators, no item is ever lost if and only if `+` is not a separator or no ordinary character is one |
| TopicRouting.LostItemRejects | src/topics.c:193-205 | a lost item can lose the publication: with some hash, the filter lacks a bit |
| RunLength.Log2Byte | src/bitvec.c:542-544 | taking off a byte takes 8 off the rounded-down logarithm |
| RunLength.FloorLog2 | src/bitvec.c:539-555 | the logarithm, rounded down, of every 16-bit number but 0 |
| RunLength.CodeMeans | src/bitvec.c:476-516 | the code of a run bit by bit: as many zeros as the number has bits, a one, and the number, adjusted to its range, least significant bit first |
| RunLength.ShortCodes | src/bitvec.c:521-530 | the codes of the five shortest runs |
| RunLength.NextOne | src/bitvec.c:591-628 | one turn of the chunk loop emits the code of the run up to the next one |
| RunLength.NoMoreOnes | src/bitvec.c:584-629 | the zeros left over in a chunk carry on into the next one |
| RunLength.PutRun | src/bitvec.c:597-625 | the code of one run is appended, and fails exactly when it does not end within the length; the one of the code may be written behind it, and nothing else |
| RunLength.NextCodeFits | src/bitvec.c:605-613 | whether the next code fits, and at which bit the encoder stops otherwise |
| RunLength.PutChunk | src/bitvec.c:590-629 | all ones of a chunk are appended, or the code is too long |
| RunLength.RunLengthEncode | src/bitvec.c:558-635 | succeeds exactly when there is room and the code is not longer than the vector, and then the bytes are the code and zeros up to a full byte; writes nothing behind the bytes of the vector if and only if the one with which it stops lies within them |
| RunLength.RleSize | src/bitvec.c:881-919 | the size computed without encoding is that of the code for the same choice of complement |
| RunLengthDecoder.Refill | src/bitvec.c:656-660 | the window holds all bits up to a full byte, as long as there are any |
| RunLengthDecoder.DecodedStep | src/bitvec.c:669-690 | a code taken off the 64-bit window is the next code of the stream, also when the window is not full |
| RunLengthDecoder.RunLengthDecode | src/bitvec.c:639-697 | decoding through the window is decoding the stream, with the same error for ones beyond the end, if and only if the decoder does not come to an empty window while ones follow, and then it reports no error for what is one; the assertion on an empty window holds exactly if all has been loaded |
| RunLengthDecoder.DecodedExactlyWhen | src/bitvec.c:651-696 | for every stream and every place in it: the window decoder does what the stream means exactly when it cuts off no one, and what it cuts off is always an error |
| RunLengthDecoder.LateOneIsCutOff | src/bitvec.c:661-664 | nine bytes, 64 zeros and then a one: taken for a vector of zeros, although no vector is long enough for the one |
| RunLengthDecoder.ReadCode | src/bitvec.c:669-686 | reading a code gives back the run |
| RunLengthDecoder.RoundTrip | src/bitvec.c:558-697 | decoding gives back every vector that was encoded, which is also what the stream means; nothing is cut off, and the assertion on an empty window holds |
| RunLengthDecoder.Serialize | src/bitvec.c:709-777 | with enough room, what is written is the raw vector or the code of the vector or of its complement, by load; it fails exactly when there is not enough room or the code is longer than the vector; the flags are determined by the number of ones as written out |
| RunLengthDecoder.Deserialize | src/bitvec.c:808-851 | into the vector itself: what the data means, with the errors for a wrong length and for wrong codes, if and only if the data is not cut short; the cached count of a new vector is right afterwards exactly if the data was not a complement |
| RunLengthDecoder.SerializationRoundTrip | src/bitvec.c:709-851 | every vector that can be serialized is deserialized to the same bits, under every choice of flags, and never cut short |
| RunLengthDecoder.EveryFourthCannotBeSerialized | src/bitvec.c:727-755 | a vector with every fourth bit set is sparse enough for the codec and can never be serialized |
| RunLengthDecoder.EveryFourthReachesBehind | src/bitvec.c:605-613 | at the default length, encoding it writes a bit behind its bytes |
| HistoryTree.InsShape | src/history.c:97-123 | attaching a leaf where the search ends yields the tree with that leaf, with right parent pointers |
| HistoryTree.SpliceShape | src/history.c:160-177 | moving up the only child yields the tree without the record |
| HistoryTree.ReplaceShape | src/history.c:153-177 | taking over all pointers of a record yields the tree with the replacement in its place |
| HistoryTree.InnerNeighbours | src/history.c:137-147 | the rightmost record on the left, and the leftmost on the right, are next in order and have at most one child |
| HistoryTree.InsOrdered | src/history.c:98-109 | insertion keeps the search order |
| HistoryTree.SpliceOrdered | src/history.c:160-177 | so does removing a record with at most one child, which takes away nothing else |
| HistoryTree.ReplaceOrdered | src/history.c:132-159 | so does putting a neighbour in the place of a record |
| HistoryList.PutListing | src/history.c:183-219 | linking between the right neighbours keeps the list sorted, linked both ways, and without repetition |
| HistoryList.DropListing | src/history.c:221-239 | linking the neighbours to each other removes exactly the record |
| PublicationHistory.History.constructor | src/history.c:368-383 | an empty history stands for the empty map |
| PublicationHistory.History.Find | src/history.c:52-67 | finds the record of an id exactly when there is one |
| PublicationHistory.History.Search | src/history.c:94-110 | ends at the record with the id, or at the place where it belongs |
| PublicationHistory.History.Insert | src/history.c:92-124 | adds the record, or returns the one with the same id and changes nothing |
| PublicationHistory.History.FindReplacement | src/history.c:130-147 | the replacement is next in order, on the side that the id selects |
| PublicationHistory.History.Remove | src/history.c:126-178 | exactly that record leaves the tree, which stays a search tree with right parent pointers, in all cases of children and root |
| PublicationHistory.History.LastBefore | src/history.c:200-207 | walking back from the latest finds the last record that does not expire later |
| PublicationHistory.History.LinkPub | src/history.c:183-219 | the record is in the list, which stays sorted by expiration, with right ends and count |
| PublicationHistory.History.UnlinkPub | src/history.c:221-239 | exactly that record leaves the list, with right ends and count |
| PublicationHistory.History.DeletePubHistory | src/history.c:252-267 | the map loses the id; reports whether it was there |
| PublicationHistory.History.FreshenHistory | src/history.c:269-295 | above the threshold, the map keeps exactly the records that have not expired; otherwise nothing changes; with at most ten records nothing is removed |
| PublicationHistory.History.NoteAddr | src/history.c:325-345 | an address is noted once, with the greatest sequence number and the least hop count |
| PublicationHistory.History.UpdatePubHistory | src/history.c:297-350 | the map's entry for the id is created or amended, and tree, list and count stay consistent; the record expires ten seconds after the time to live that is given |
| PublicationHistory.History.PublicationIsStale | src/history.c:352-366 | decides staleness on the map |
| PublicationHistory.History.PublicationReceivedFrom | src/history.c:419-445 | decides on the map whether a publication came from an address, or was sent to its source |
| PublicationHistory.History.SoonestFirst | src/history.c:277-290 | the first record of the list is the first to expire of all records in the map |
| PublicationHistory.History.CountIsSize | src/history.c:274 | the count is the number of publications in the map |
| HistoryModel.StaleMeansSeen | src/history.c:352-366 | after any calls, a publication is stale for a sequence number exactly when one at least as great has been seen since its record was created |
| HistoryModel.KeptExactlyUntil | src/history.c:270-346 | over all calls: a record that is not updated or deleted again is kept for the time to live in seconds and ten more, and exactly until the history, with more than ten records, is freshened then; as long as it is kept, the publication is stale |
| HistoryModel.CameFromMeansSeen | src/history.c:419-445 | likewise for what has been received from one address |
| HistoryModel.HopsMeanSeen | src/history.c:325-344 | over all calls: the number of hops noted for an address is the least over which the publication has come from there since its record was made |
| HistoryModel.AddressesAreBounded | src/history.c:325-345 | after any calls, a record has one entry per address and none with a later sequence number than its own |
| PublishRequests.VerdictMeans | src/pub.c:1082-1087 | the status of a request is success exactly when some send succeeded, and otherwise that of the last send |
| PublishRequests.Publication.PublishCompletion | src/pub.c:1315-1341 | the callback runs exactly when nothing refers to the request, and reports a request without a route as success |
| PublishRequests.Publication.SendComplete | src/pub.c:1074-1095 | one reference fewer and one more result |
| PublishRequests.Publication.SendPublication | src/pub.c:1124-1289 | a send is in flight and holds request and publication, or has completed, or nothing has changed |
| PublishRequests.Publication.SendNext | src/dps.c:761-844 | the first queued request is sent as planned: its results grow by the statuses of the sends that complete at once, in order, and each other send is in flight; it is retained exactly if it has not expired, in the place of the one retained before; other requests keep results and flights |
| PublishRequests.Publication.SendPubs | src/dps.c:742-866 | all queued requests are sent in order, each as planned for it and no other one; what stays retained is the last one, or the one retained before, unless it has expired; without it the publication expires |
| PublishRequests.Publication.Drain | src/pub.c:292-310 | a freed publication without references drops all its queued requests, each with its callback |
| PublishRequests.Publication.FreePublication | src/pub.c:261-313 | the publication is taken off the node, and drained only when nothing refers to it |
| PublishRequests.Publication.IncRef | src/pub.c:315-318 | one more holder |
| PublishRequests.Publication.DecRef | src/pub.c:320-326 | one holder fewer; a freed publication is drained with the last one |
| PublishRequests.Publication.ExpirePub | src/pub.c:1343-1352 | a local publication is marked expired, any other one is freed |
| PublishRequests.Publication.OnNetSendComplete | src/pub.c:1097-1108 | the send is no longer in flight; the callback has run exactly if that was the last hold, or the publication is drained; its status is added to the results of the request, and to no other |
| PublishRequests.Publication.PublishBegin | src/pub.c:1792-1826 | which times to live are refused, and the flags that result otherwise |
| PublishRequests.Publication.PublishEnd | src/pub.c:1831-1845 | the accepted request is last in the queue, or completed at once if the publication was freed meanwhile |
| PublishRequests.Publication.PublishFail | src/pub.c:1832-1844 | a request that is not accepted leaves all others as they were |
| PublishRequests.Publication.UpdatePubs | src/dps.c:1039-1071 | the retained request goes back to the send queue when there is someone to send to; no request is lost or duplicated |
| PublishRequests.Publication.DestroyPublication | src/pub.c:1881-1903 | the publication is freed unless it is listed and came from another node, and then nothing changes |
| PublishRequests.Publication.AtMostOnce | src/pub.c:1315-1341 | in every reachable state the callback of a request has run at most once, and exactly when the request is neither queued nor retained nor in flight; the reference count is the number of these places |
| PublishRequests.Publication.AllComplete | src/pub.c:286-310 | when a freed publication has no references, the callbacks of all requests ever accepted have run |
| PublishRequests.Publication.OneRetained | src/dps.c:830-839 | at most one request is retained, and it is not in the send queue |
| PublishRequests.Publication.StatusMeans | src/pub.c:1082-1087 | in every reachable state, the status of a request that was not dropped is that of its sends |
| DeltaSync.RevisionsAgreeMeansSynced | src/dps.c:482-516 | from the first SUB of a link on, or from any state of an established one, after any loss, repetition and reordering: as long as no node gives up, the interests at one end are those sent by the other whenever the revisions agree; the sender is at most one revision ahead |
| DeltaSync.StartsInv | src/dps.c:1832-1849 | a link on which nothing has been sent, and an established one with old messages still under way, satisfy the invariant behind it |
| DeltaSync.TickKeepsInv | src/dps.c:982-1000 | sending a change, or keeping the link alive, keeps the invariant |
| DeltaSync.ResendKeepsInv | src/dps.c:968-981 | so does sending again, unless a node gives up by it |
| DeltaSync.SubKeepsInv | src/sub.c:874-974 | so does delivering any SUB that was ever sent, also to a node that does not know its sender |
| DeltaSync.SakKeepsInv | src/sub.c:1030-1077 | so does delivering any SAK that was ever sent, with interests or without |
| DeltaSync.StepKeepsInvExactlyWhen | src/sub.c:449-655 | every step keeps the invariant if and only if no node gives up in it |
| DeltaSync.RunKeepsInvExactlyWhen | src/sub.c:901-974 | on every run, the invariant holds all the time if and only if no node gives up |
| DeltaSync.TickTells | src/dps.c:482-516 | from every reachable state: when the node at one end has other interests than it has sent, more or fewer, a SUB goes out, and when it arrives the other end has exactly these |
| DeltaSync.HandshakeTells | src/sub.c:956-965 | without losses, the first messages of a link tell each end all interests of the other, and nobody waits after them |
| DeltaSync.GivingUpLoses | src/dps.c:968-981 | after a node has given up, the next keep-alive message makes the revisions agree, while the interests differ as they did |
| DeltaSync.BehindDiffers | src/dps.c:482-516 | and they do differ while a delta that is not empty is under way |
| DeltaSync.RetrySynchronizes | src/dps.c:942-983 | from every reachable state, one SUB that gets through when it is sent again synchronizes its direction and ends the wait |
| DeltaSync.CollisionKeepsOrLoses | src/sub.c:885-889 | after a collision the revisions agree, and the interests exactly if they did before |
| DeltaSync.CollisionDesynchronizes | src/sub.c:643-645 | a run with a collision after which a SUB is never taken into account |
| DeltaSync.LostHandshakeDesynchronizes | src/sub.c:888-891 | a run in which the first SAK of a link is lost, after which one node never learns the interests of the other |
| DeltaSync.RepeatedAckDesynchronizes | src/sub.c:976 | a run in which an old SAK arrives again, after which a lost SUB is not sent again |
| DeltaSync.RemoteNode.UpdateOutboundInterests | src/dps.c:482-516 | the interests are those to be sent, and there is a change, with a new revision, exactly if they are not those that were sent before; delta and flag |
| DeltaSync.UnmutingSynchronizesExactlyWhen | src/dps.c:551-583 | after the SUB that unmutes a link, the two ends agree if and only if the receiver has nothing stored |
| DeltaSync.RemoteNode.SendSubscription | src/sub.c:426-441 | the message brings every receiver up to date that has everything or lacks just this update; a SAK is pending, and the count of resends starts over unless one was |
| DeltaSync.RemoteNode.SendSubscriptionAck | src/sub.c:449-655 | a node whose latest update has been received stops waiting when it gets this; if it carries interests it brings every receiver up to date that lacks just these, and the sender waits for a SAK itself, otherwise it waits no more |
| DeltaSync.RemoteNode.UpdateInboundInterests | src/sub.c:660-682 | the delta is applied to what is stored; clear interests are not stored |
| DeltaSync.RemoteNode.DecodeSubscription | src/sub.c:874-974 | stale messages are ignored, repeated ones acknowledged without effect, new ones stored; an unknown sender is sent the node's own interests; after a collision no interests are sent |
| DeltaSync.RemoteNode.DecodeSubscriptionAck | src/sub.c:1030-1077 | takes the interests that it carries and acknowledges them, ends the wait exactly if it acknowledges the current revision, and moves the inbound revision |
| DeltaSync.RemoteNode.SendSubsTimer | src/dps.c:936-1001 | while a SAK is pending, sends the last message again, a SUB or a SAK, three times from the second round on, and then gives the remote up; otherwise sends exactly on a change of interests or to keep the link alive |
| Cbor.NumberOfBigEndian | src/cbor.c:149-185 | big-endian bytes give back the number |
| Cbor.HeadRoundTrip | src/cbor.c:69-185 | decoding a head gives back the major type and the 64-bit number, whatever surrounds it |
| Cbor.HeadIsShortest | src/cbor.c:52-67 | no head that decodes to the number is shorter (section 4.2.1 of RFC 8949) |
| Cbor.ExampleNumbers | src/cbor.c:69-110 | numbers from the examples in Appendix A of RFC 8949 |
| Cbor.ExampleLongNumbers | src/cbor.c:69-110 | and long ones |
| Cbor.ExampleItems | src/cbor.c:226-256 | byte strings, text, arrays, maps and tags likewise |
| Cbor.IntRoundTrip | src/cbor.c:226-233 | every signed 64-bit number is decoded as encoded |
| Cbor.DecodedIntIsExact | src/cbor.c:473-498 | a decoded integer is the one that the bytes stand for, except exactly for the most negative 65-bit number |
| Cbor.BytesRoundTrip | src/cbor.c:235-242 | a byte string is decoded as encoded exactly when its length fits into 32 bits |
| Cbor.Skip | src/cbor.c:798-873 | on arbitrary bytes skipping ends, and on success it has consumed at least one byte and no more than there are |
| Cbor.SkipItems | src/cbor.c:833-847 | skipping many items consumes at least one byte for each |
| Cbor.SkipWithTags | src/cbor.c:798-873 | to skip the encoding of a nested value, followed by anything, takes one item and one more for each tag in it |
| Cbor.SkipIsExact | src/cbor.c:798-873 | skipping consumes exactly the encoding of a nested value if and only if it has no tag at any depth |
| Cbor.SkipLeavesTaggedValue | src/cbor.c:818-829 | of a tagged value only the tag is skipped |
| CborBuffers.TxBuffer.EncodeUint | src/cbor.c:69-110 | the shift and store sequences write the head and nothing else, or fail without a trace when there is no room |
| CborBuffers.TxBuffer.Copy | src/cbor.c:117-128 | the data is appended if there is room |
| CborBuffers.TxBuffer.EncodeBytes | src/cbor.c:235-242 | succeeds exactly when head and data fit, and appends them; otherwise leaves the head alone, if that fits, or nothing |
| CborBuffers.TxBuffer.ReserveBytes | src/cbor.c:244-256 | the head is written, and room for the data is left as it was |
| CborBuffers.TxBuffer.StartWrapBytes | src/cbor.c:258-269 | the head for the hint is written, if head and hinted length fit |
| CborBuffers.TxBuffer.EndWrapBytes | src/cbor.c:271-302 | with enough room the head for the actual length replaces the one for the hint, and the data is moved intact whether the head grows, shrinks or stays; otherwise which error is returned, and whether a byte behind the buffer has been written |
| CborBuffers.WrapBytes | src/cbor.c:258-302 | wrapping with any hint leaves the same bytes as encoding directly |
| CborBuffers.RxBuffer.PeekHead | src/cbor.c:149-185 | the number of a head put together from its bytes, with the errors for missing bytes and reserved heads |
| CborBuffers.RxBuffer.ReadUint | src/cbor.c:187-201 | whatever number was encoded there with the expected type is read, and exactly its head is consumed; after an error nothing is |
| CborBuffers.RxBuffer.ReadBytes | src/cbor.c:533-574 | reads a byte or text string and moves behind it |
| CborBuffers.RxBuffer.SkipItem | src/cbor.c:798-873 | the recursive method, with its position advanced in place, does what skipping means |
| CborBuffers.RxBuffer.SkipMany | src/cbor.c:833-847 | the counting loop skips as many items as announced, or stops at the first error |
| Gcm.BorrowBytes | src/gcm.c:32-55 | the next 16 bytes across buffers, empty ones included, or all that are left |
| Gcm.ReturnBytes | src/gcm.c:57-79 | bytes go back to the very places they came from, the rest is untouched, and the place advances |
| Gcm.EncryptBlocks | src/gcm.c:113-122 | the whole blocks of a buffer are fed and encrypted in place |
| Gcm.EncryptAcross | src/gcm.c:123-136 | a block that spans buffers is fed and put back encrypted |
| Gcm.Encrypt | src/gcm.c:110-141 | for any list of buffers, the pieces fed are the contents in order, all but the last are whole blocks, the loop ends, and the buffers hold the encryption of their contents as one sequence |
| Gcm.EncryptedAt | src/gcm.c:113-136 | that encryption keeps the length and enciphers every byte at its own position of the stream |
| Gcm.PartOfWhole | src/gcm.c:110-141 | each buffer's contents are its own part of that sequence, so the output lands on the same boundaries |
| Ttl.InTime | src/pub.h:102 | until the end of the last second, the time to live is the time left, rounded up |
| Ttl.TooLate | src/pub.h:102 | afterwards, what the wrapped difference comes to, exactly |
| Ttl.InflatesExactlyWhen | src/pub.h:102 | the computed time to live exceeds the received one if and only if the seconds by which the publication is late, modulo 65536, are at least 10224 and fewer than 42991 less the time to live |
| Ttl.IgnoredWhenLate | src/pub.c:1143-1153 | for almost three hours after its expiration a publication is silently ignored |
| Ttl.InflatedWhenVeryLate | src/pub.h:102 | at the end of that time it would be sent with the longest time to live |
| Ttl.ForwardedMeans | src/pub.c:1139-1155 | what a forwarder sends: 0 and -1 for publications that are not retained or have expired, otherwise the time that is left, rounded up, as long as there is some, and nothing for almost three hours then |
| Ttl.ChainGetsThrough | src/pub.h:102 | along every chain of forwarders in time the publication gets through, and what is left of its time to live is what they have not used up, give or take less than a second for each |
| Ttl.ForwardedGrowsExactlyWhen | src/pub.c:1139-1155 | a forwarder sends a greater time to live than it received exactly in those periods |
| Ttl.ChainNeverInflates | src/pub.c:860-867 | along every chain of forwarders that do not send in those periods the time to live never exceeds that of the publisher, so the receiver's check accepts it |
| Ttl.VeryLateIsRejected | src/pub.c:860-867 | a publication that is sent on at the end of that time is rejected by the next node |

## Left out

- MeshNode.Node.DecodeSubscription: a message whose map is malformed or lacks mandatory keys is discarded before this model begins; of failing sends only that of the SUB for unmuting is a case of its own, because a message that is sent and lost behaves like one that is not sent.
- Interests.Node.Subscribe: a topic that the filter refuses and failing allocations are left out; they return before anything is linked.
- Routing.EveryHopAccepts: requires that each node has stored at least the interests and at most the needs that its neighbour computes, which `Routing.StaleNeedsReject` shows to be needed; a pair that has arrived as it was sent is such a pair (`Routing.SentIsHeard`).
- RunLengthDecoder.RunLengthDecode: a shift by 64 bits, which C leaves undefined, reads as zero; the run it belongs to is longer than any vector, so the input is rejected in either case.
- Gcm.Encrypt: the authentication tag, the keys, the nonce and errors of the cipher library are left out, and so is decryption, which goes through the same two helpers. After the last buffer the code loads the base of one behind the list (src/gcm.c:137-138) and does not use it; the model sets the place to 0 instead.
- DeltaSync.RevisionsAgreeMeansSynced: muting, unmuting (which has a property of its own), unlinking, sends that the network refuses, and the deletion of a remote and its return are left out; needs are sent whole and are not part of a delta.
- PublishRequests.Publication.SendPublication: the deletion of a remote after a failed send, and which remotes are sent to, are the subject of `MeshNode` and `Routing`; here the outcomes are parameters.
- PublishRequests.Publication.SendNext: a request with a negative time to live and no expiration does not come up in the program; the model leaves its expiration unset.
- Ttl.ChainNeverInflates: a publisher counts as the first forwarder when it resends what it has retained.
- Topics.MatchTopicString: missing arguments (null pointers) are left out here and everywhere else.
- The width of revisions, sequence numbers and expiration times (32 and 64 bits): they are unbounded, except in `Ttl`, whose subject is the wrap-around.
- Allocation failure, byte-order swapping, rounding of the load factor, and floats, which the CBOR model carries as opaque bytes.
- The hash (SHA-256) and how bit positions are taken from it.
- The choice of the return path in `DPS_LookupPublisherForAck`, freeing a whole history, and the callbacks of handlers.
- The handling of decoded publications apart from their time to live, their history and their routing; copies of publications; acknowledgements.
- Locks, threads, timers, the event loop, transports, address resolution, discovery, registration and the key store.
- COSE, JSON, CoAP, the language bindings, and the remaining CBOR helpers (sizes, peeking, booleans, UUIDs and range checks), which are range tests around what is modelled here.
