# A Dafny model of the trin Portal Network client

The project models the parts of trin whose behaviour is hardest to see from the code, and states and
proves what they guarantee.

- **Identifiers and distance** (`Bytes.dfy`, `Distance.dfy`): byte strings as integers, the XOR metric,
  its 32-bit prefix, its logarithm, and identifiers drawn for a chosen bucket.
- **The history store** (`HistoryStorage.dfy`, `HistoryRuns.dfy`, `HistoryStore.dfy`): the
  capacity-limited table that evicts the content farthest from the node and shrinks its radius. One
  prune is a relation, because the SQL order leaves ties open; runs are arbitrary sequences of openings
  and puts over one database; the class takes only steps of that relation.
- **Header proofs** (`Merkle.dfy`, `Accumulator.dfy`): right-sparse Merkle trees, their proofs, and the
  master accumulator. The hash is a parameter. Soundness does not assume it injective, which no hash on
  256-bit words is: from an accepted proof of a wrong header a function computes a collision.
- **The wire codec** (`Ssz.dfy`, `Wire.dfy`) and the **uTP payload codec** (`Payload.dfy`).
- **The exchange of content** (`OfferAccept.dfy`, `Gossip.dfy`, `GossipTrace.dfy`, `Replies.dfy`).
- **Requests in flight** (`Requests.dfy`), **iterative queries** (`FindNodeQuery.dfy`,
  `QueryStages.dfy`, `QueryOutcomes.dfy`), and two recorders: the **light-client update table** (`LightClientUpdates.dfy`) and
  the **query trace** (`QueryTrace.dfy`).
- `Sorting.dfy`, `NodeRecords.dfy` and `Wrappers.dfy` hold what several of these share.

`dafny verify dfyconfig.toml` checks the whole project.

## What turned out not to hold

Where a property one would expect fails, the code is kept as it is, a lemma gives an input, and another
says exactly when the property holds.

- The row returned by the farthest query is the farthest one exactly when no two rows share the greatest
  4-byte prefix (`HistoryStorage.QueryIsExactIffNoTie`; input: `HistoryStorage.FarthestMissed`).
- Restarting at the same capacity keeps the rows and the radius always when the store is strictly under
  capacity, over capacity exactly when no two rows share the farthest prefix, and at exactly the capacity
  exactly when the radius is the one opening sets (`HistoryRuns.RestartStability`; inputs:
  `HistoryRuns.TieBreaksRestart`, `HistoryRuns.FullExactlyResets`).
- The proof that `construct_proof` makes for a header of a shorter epoch, such as the last one before the
  merge, is rejected unless the hash collides: it always appends the full epoch size
  (`Accumulator.ConstructedProofAccepted`, `Accumulator.ShortEpochProofFails`; input:
  `Accumulator.ShortEpochExample`). Another length word would not help, because the leaf tree pads with
  hashed pairs of zeros where SSZ pads with zeros (`Accumulator.ShortEpochTreeDiffers`).
- Decoding a message and encoding it again gives the same bytes, except exactly for PING and PONG payloads
  beyond 2048 bytes, which are silently cut (`Wire.MessageCanonical`; input: `Wire.OversizedPingExample`).
- The content payload decoder panics exactly on payloads that end inside the length of an item
  (`Payload.PanicsExactly`), and what it accepts is re-encoded to the same bytes exactly when no length has
  a redundant last byte (`Payload.PayloadCanonical`; inputs for both: `Payload.ForeignPayloads`).
- A receiver that accepts only part of an offer rejects what it is then sent, because it compares the
  number of values with the number of all offered keys (`OfferAccept.ExchangeAligned`; input:
  `OfferAccept.PartialAcceptExample`). The comment at portalnet/src/overlay_service.rs:1688 calls these keys
  the accepted ones.
- A transfer reported by traced gossip carried the item exactly when the first accept bit was set
  (`GossipTrace.TransferCarriesItem`; input: `GossipTrace.EmptyTransferExample`).
- The FINDNODES reply has as many connected candidates as there are, up to the limit of 32, exactly when
  those within the limit are all connected or those beyond it all disconnected, because the limit is applied
  first (`Replies.LimitCountsDisconnected`; input: `Replies.CrowdedOutExample`).
- A FINDNODES answer makes progress as the comment at portalnet/src/find/iterators/findnodes.rs:98-102 says
  exactly under `ProgressAgrees`, a condition on the known and the reported peers
  (`QueryStages.ProgressAsDocumented`), and a query is in the documented stage throughout a run exactly when
  all its answers satisfy that condition (`QueryStages.StagesAreDocumented`). The code differs in three ways:
  a closer peer that is not reported last is missed, the already known closest peer counts as progress, and
  so does any known peer while fewer than `num_results` are known (inputs: `QueryStages.ProgressExamples`).
- A query with nobody waited for can always go on, exactly if its parallelism is positive or it knows nobody
  (`QueryStages.NeverStuck`); without parallelism nobody is ever asked (`QueryStages.NobodyAsked`).

The length word of a header proof is little-endian (`Accumulator.LengthWord`), although the comment at
trin-validation/src/accumulator.rs:224 calls it big-endian. A peer that does not respond in time is not failed, as
the comment at portalnet/src/find/iterators/findnodes.rs:205 says: it becomes unresponsive, and its answer
still counts (`QueryOutcomes.TakenExactly`).

## Assumptions

- The content table holds only rows of one network; the size query sums all networks.
- Database, lock and channel operations succeed; sizes are exact naturals.
- Time, randomness and the decisions of other threads are parameters or arbitrary choices: the store is
  any store at each point where a lock is taken anew, `choose_multiple` is any choice without replacement,
  request identifiers are fresh.
- A node record is a node id, a sequence number and its RLP bytes; its codec is a parameter with the round
  trip, or the converse, as an explicit hypothesis. Content ids are a function of content keys.
- The routing table's `nodes_by_distances`, which is in another crate, yields the entries of the buckets
  asked for, bucket by bucket in the order given, up to its limit.
- The SSZ library is modelled after the "Serialization" and "Deserialization" sections of the SSZ
  specification, and `tree_hash_root` after its "Merkleization" section.

## Model

| member | source | states |
|---|---|---|
| Distance.ComputeDistance | ethportal-api/src/types/distance.rs:67-75 | the byte loop yields the distance on which all laws below are stated |
| Distance.DistanceIsXor | ethportal-api/src/types/distance.rs:67-75 | the bytewise result read big-endian is the exclusive or of the two 256-bit integers, and fits 256 bits |
| Bytes.XorBit | ethportal-api/src/types/distance.rs:70-72 | each binary digit of the exclusive or is set exactly when the operands' digits differ |
| Distance.MetricSymmetric | ethportal-api/src/types/distance.rs:169-177 | distance(x, y) = distance(y, x) for all ids |
| Distance.MetricIdentity | ethportal-api/src/types/distance.rs:158-166 | distance is zero exactly for equal ids |
| Distance.MetricTriangle | ethportal-api/src/types/distance.rs:179-194 | triangle inequality over unbounded naturals, no overflow case discarded |
| Distance.MetricUnidirectional | ethportal-api/src/types/distance.rs:67-75 | for each id and each 256-bit distance exactly one id is that far |
| Distance.MetricInjective | ethportal-api/src/types/distance.rs:67-75 | two ids equally far from a third are equal |
| Distance.Log2Correct | ethportal-api/src/types/distance.rs:23-33 | log2 is k exactly when 2^(k-1) <= d < 2^k, and undefined exactly for zero |
| Distance.ByteVectorToU32 | trin-storage/src/utils.rs:84-96 | the first four bytes big-endian, or zero for shorter input |
| Distance.SqlKeyIsTop32 | trin-storage/src/sql.rs:27-31 | the SQL key (a or b) minus (a and b) on prefixes equals the top 32 bits of the full distance |
| Distance.Random32ByteArray | ethportal-api/src/utils/bytes.rs:59-83 | leading zero bytes, the drawn first byte, then the random fill |
| Distance.MaskedRandomRange | ethportal-api/src/utils/bytes.rs:59-83 | the array read big-endian has exactly the requested number of leading zero bits |
| Distance.MaskedRandomCovers | ethportal-api/src/utils/bytes.rs:59-83 | every array with that many leading zero bits can be drawn |
| Distance.RandomNodeIdHitsBucket | ethportal-api/src/types/node_id.rs:9-18 | for every bucket, local id and random draw, the generated id is at distance d with 2^i <= d < 2^(i+1), so log2 gives i+1 |
| HistoryStorage.QueryMaximisesPrefix | trin-storage/src/sql.rs:27-31 | rows the query may return are exactly those whose distance has the greatest top 32 bits |
| HistoryStorage.QueryIsExactIffNoTie | trin-history/src/storage.rs:433-471 | every row the query may return is truly farthest exactly when no two rows share the greatest prefix |
| HistoryStorage.FarthestMissed | trin-history/src/storage.rs:433-471 | of any two items with one prefix, alone in the table, the query may return the nearer |
| HistoryStorage.PruneBounds | trin-history/src/storage.rs:250-303 | a prune keeps a sub-table; does nothing within capacity; leaves at least min(initial, capacity) bytes; leaves the total within capacity or such that dropping the farthest row goes below it; and leaves the radius at a farthest kept row, or zero |
| HistoryStorage.PruneEvictsFarthest | trin-history/src/storage.rs:254-291 | every evicted item has prefix distance at least that of every kept item |
| HistoryStorage.PruneCanStartWith | trin-history/src/storage.rs:250-293 | whichever farthest row is found first, the prune ends in some state, having removed that row or taken its distance as radius |
| HistoryStorage.PutStoresOrEvicts | trin-history/src/storage.rs:212-245 | a put within the radius ends with the item stored, first value kept, or with a full store in which nothing is farther by prefix |
| HistoryStore.ContentStore.constructor | trin-history/src/storage.rs:90-127 | opening leaves an empty table with the full radius, or zero at zero capacity, and otherwise prunes from the full radius |
| HistoryStore.ContentStore.TotalSize | trin-history/src/storage.rs:406-428 | the sum of all row sizes |
| HistoryStore.ContentStore.FindFarthest | trin-history/src/storage.rs:433-471 | a row of greatest SQL key, none exactly for the empty table |
| HistoryStore.ContentStore.Prune | trin-history/src/storage.rs:250-293 | terminates, never misses the farthest id or underflows, takes a prune step, and returns the number of rows removed |
| HistoryStore.ContentStore.Put | trin-history/src/storage.rs:212-245 | outside the radius an error with both distances and no change; otherwise insert-or-ignore followed by a prune step |
| HistoryStore.ContentStore.IsKeyWithinRadiusAndUnavailable | trin-history/src/storage.rs:60-80 | Store exactly when the distance is within the radius and the id is not in the table |
| HistoryRuns.RunIsSafe | trin-history/src/storage.rs:90-293 | in every state of every run: each item's prefix distance is at most the radius's; the store is within capacity or over it by less than its farthest item; every stored value was put under that id |
| HistoryRuns.StepKeepsSafe | trin-history/src/storage.rs:90-293 | each single put or opening keeps the safety of the next row, and a put neither widens the radius nor empties a full store below capacity |
| HistoryRuns.OpenStoreOnlyTightens | trin-history/src/storage.rs:212-293 | while a store is open the top 32 bits of the radius never grow, and once full it never falls below capacity |
| HistoryRuns.RowsNeverRewritten | trin-storage/src/sql.rs:16-18 | while an item stays in the database, across puts and restarts, its row does not change |
| HistoryRuns.NothingLostWithoutNeed | trin-history/src/storage.rs:90-293 | in every run a row disappears only if the store is full without it and keeps nothing farther by prefix, and none appears but the item put |
| HistoryRuns.UnderCapacityFullRadius | trin-history/src/storage.rs:90-293 | in every state of every run a store strictly under capacity advertises the full radius |
| HistoryRuns.RestartStability | trin-history/src/storage.rs:655-698 | reopening at the same capacity changes nothing, however ties fall, exactly when the store is under capacity, or over it with no farthest prefix shared, or at it with the radius that opening sets |
| HistoryRuns.UniqueMeansStable | trin-history/src/storage.rs:250-293 | over capacity with one farthest prefix, reopening changes nothing |
| HistoryRuns.TieMeansUnstable | trin-history/src/storage.rs:250-293 | over capacity with a shared farthest prefix, some order of ties changes rows or radius |
| HistoryRuns.TieBreaksRestart | trin-history/src/storage.rs:250-293 | a run of two items with one prefix whose restart may change rows or radius |
| HistoryRuns.FullExactlyResets | trin-history/src/storage.rs:250-293 | a run that ends at exactly the capacity with a reduced radius, which a restart makes the full one again |
| Merkle.CreateIsMerkleize | trin-validation/src/merkle/proof.rs:71-102 | the sparse tree built top-down has the root of the zero-padded chunks hashed bottom-up |
| Merkle.PushLeafAppends | trin-validation/src/merkle/proof.rs:106-162 | pushing a leaf gives the tree of the longer list, MerkleTreeFull exactly at 2^depth leaves, and DepthTooSmall at depth zero |
| Merkle.PushLeafRefused | trin-validation/src/merkle/proof.rs:113-158 | the errors for leaves, finalized nodes and trees that are not filled from the left |
| Merkle.GenerateProof | trin-validation/src/merkle/proof.rs:294-329 | the loop with its final reversal yields the leaf and its siblings bottom-up, or the error for a finalized node |
| Merkle.MerkleRootFromBranch | trin-validation/src/merkle/proof.rs:377-394 | the loop folds the branch from the lowest bit of the index up |
| Merkle.ProofComplete | trin-validation/src/merkle/proof.rs:414-435 | for every tree and leaf the generated proof is for that leaf, has one word per level and verifies against the root |
| Merkle.ProofSound | trin-validation/src/merkle/proof.rs:362-394 | a branch verifying against the root of any chunks proves the chunk at its index, or the extractor returns a hash collision |
| Merkle.RootBindsChunks | trin-validation/src/merkle/proof.rs:362-394 | two lists of chunks with one root agree at every index, or a collision is computed |
| Accumulator.VerifierPath | trin-validation/src/accumulator.rs:236-241 | the generalized index makes the verifier hash the record path at depth 14 and then the left child of the root |
| Accumulator.ValidationOutcomes | trin-validation/src/accumulator.rs:94-122 | without a proof exactly headers beyond block 15537393 pass; with one exactly those up to it whose fifteen words lead to the root of epoch number / 8192, and an unknown epoch panics |
| Accumulator.ChunkIsLittleEndian | trin-validation/src/accumulator.rs:204-207 | the leaf of a total difficulty is the number in little-endian |
| Accumulator.AcceptedHeaderIsRecorded | trin-validation/src/accumulator.rs:94-122 | an accepted pre-merge header has the block hash of record number % 8192 of epoch number / 8192, and the first proof word is its total difficulty, whatever the words; otherwise a collision is computed |
| Accumulator.ConstructProof | trin-validation/src/accumulator.rs:182-233 | panics exactly if record number % 8192 is missing, fails exactly if its hash differs, and otherwise returns the siblings of its hash leaf followed by the length word |
| Accumulator.ProveLeaf | trin-validation/src/accumulator.rs:212-232 | tree, proof, leaf assertion and length conversion all succeed on the leaves of a matching record |
| Accumulator.ProofOfRecord | trin-validation/src/accumulator.rs:212-232 | the result has exactly fifteen words and the proved leaf is the block hash |
| Accumulator.FullTreeHash | trin-validation/src/accumulator.rs:199-215 | for a full epoch the two-leaves-per-record tree has the root of the SSZ list of records |
| Accumulator.LeavesPairUp | trin-validation/src/accumulator.rs:199-210 | hashing the leaves in pairs gives the roots of the records |
| Accumulator.ConstructedRoot | trin-validation/src/accumulator.rs:212-241 | the verifier folds the constructed proof, with any last word, to the leaf tree combined with that word, for any epoch |
| Accumulator.ConstructedProofAccepted | trin-validation/src/accumulator.rs:94-122 | for every full epoch at the header's index and every pre-merge header in it the constructed proof is accepted |
| Accumulator.ShortEpochProofFails | trin-validation/src/accumulator.rs:224-228 | for a shorter epoch the constructed proof is accepted only if two given pairs of root and length word, of different lengths, collide |
| Accumulator.ShortEpochTreeDiffers | trin-validation/src/accumulator.rs:199-215 | for a shorter epoch the proof with any last word, the true length included, is accepted only if a pair of zeros hashes to zero or a collision can be computed |
| Accumulator.ShortEpochExample | trin-validation/src/accumulator.rs:224-228 | a one-record epoch whose constructed proof is rejected |
| Accumulator.LengthWord | trin-validation/src/accumulator.rs:224-228 | the length word is 0x0020 followed by zeros |
| Ssz.AppendList | ethportal-api/src/types/portal_wire.rs:471-483 | appending with running offsets and a separate item buffer produces the SSZ list encoding |
| Ssz.ListRoundTrip | ethportal-api/src/types/portal_wire.rs:426-430 | every list of byte strings, empty ones included, decodes from its encoding |
| Ssz.ListCanonical | ethportal-api/src/types/portal_wire.rs:492-494 | whatever the list decoder accepts is the encoding of what it returns |
| Ssz.BitsRoundTrip | ethportal-api/src/types/portal_wire.rs:578-582 | every bitlist up to its maximum length decodes from its encoding |
| Ssz.BitsCanonical | ethportal-api/src/types/portal_wire.rs:578-582 | accepted bitlist bytes are the encoding of the bits, within the maximum length |
| Ssz.U16sRoundTrip | ethportal-api/src/types/portal_wire.rs:414-418 | every list of distances decodes from its encoding |
| Ssz.U16sCanonical | ethportal-api/src/types/portal_wire.rs:414-418 | accepted bytes are the encoding of the distances returned |
| Wire.MessageRoundTrip | ethportal-api/src/types/portal_wire.rs:240-267 | every message of all eight variants, within the limits of its fields and 32-bit offsets, decodes from its encoding to itself |
| Wire.ContentRoundTrip | ethportal-api/src/types/portal_wire.rs:514-520 | every CONTENT union value decodes from its encoding |
| Wire.MessageCanonical | ethportal-api/src/types/portal_wire.rs:111-121 | re-encoding a decoded message gives the same bytes exactly when no oversized PING or PONG payload was cut |
| Wire.ContentCanonical | ethportal-api/src/types/portal_wire.rs:514-520 | accepted CONTENT bytes are the encoding of what they decode to |
| Wire.OversizedPingExample | ethportal-api/src/types/portal_wire.rs:116-120 | a PING of 2049 payload bytes decodes with its last byte dropped |
| Wire.PingVectors | ethportal-api/src/types/portal_wire.rs:642-678 | the bytes of PING and PONG with sequence number one |
| Wire.FindNodesVector | ethportal-api/src/types/portal_wire.rs:680-693 | the bytes of FINDNODES |
| Wire.FindContentVector | ethportal-api/src/types/portal_wire.rs:731-744 | the bytes of FINDCONTENT for every key |
| Wire.OfferVector | ethportal-api/src/types/portal_wire.rs:792-805 | the bytes of an OFFER of one key |
| Wire.EmptyNodesVector | ethportal-api/src/types/portal_wire.rs:695-710 | the bytes of NODES without records |
| Wire.NodesVector | ethportal-api/src/types/portal_wire.rs:712-729 | the layout of NODES with two records |
| Wire.ConnectionIdVector | ethportal-api/src/types/portal_wire.rs:746-759 | the bytes of CONTENT with a connection id |
| Wire.RawContentVector | ethportal-api/src/types/portal_wire.rs:761-774 | the bytes of CONTENT with any content inline |
| Wire.AcceptVector | ethportal-api/src/types/portal_wire.rs:807-825 | the bytes of an ACCEPT of eight bits |
| Wire.EnrsVector | ethportal-api/src/types/portal_wire.rs:776-790 | the layout of CONTENT with two records |
| Payload.ReadVarint | portalnet/src/utils/portal_wire.rs:57-70 | trying prefixes of one to five bytes reads the first terminated varint, refuses values beyond 32 bits, and panics on a buffer that ends first |
| Payload.VarintRoundTrip | portalnet/src/utils/portal_wire.rs:79-94 | every 32-bit length is read back with its width, whatever follows |
| Payload.EncodeContentPayload | portalnet/src/utils/portal_wire.rs:36-53 | fails exactly when an item exceeds 32-bit size, and otherwise concatenates length-prefixed items |
| Payload.DecodeContentPayload | portalnet/src/utils/portal_wire.rs:7-29 | reads items until the payload is consumed, with the first error met |
| Payload.PayloadRoundTrip | portalnet/src/utils/portal_wire.rs:128-142 | every list of items of 32-bit size decodes from its payload |
| Payload.PanicsExactly | portalnet/src/utils/portal_wire.rs:57-70 | decoding panics exactly if the payload is whole items followed by one to four continuation bytes |
| Payload.PayloadCanonical | portalnet/src/utils/portal_wire.rs:7-29 | accepted bytes are the encoding of the items exactly when every length is as short as it can be |
| Payload.ForeignPayloads | portalnet/src/utils/portal_wire.rs:57-70 | a payload that panics, and one that is accepted and re-encoded differently |
| Payload.PayloadVectors | portalnet/src/utils/portal_wire.rs:128-142 | the payload bytes of two items and of a two-byte varint |
| OfferAccept.HandleOffer | portalnet/src/overlay_service.rs:1197-1262 | more than eight keys or an unparsable key is refused; otherwise bit i says whether key i is wanted, with connection id zero when none is, and an error when some is but the asker is unknown |
| OfferAccept.BitMeansPutAdds | portalnet/src/overlay_service.rs:1228-1234 | a bit is set exactly if a put of that item into the store, with room for it, would add it |
| OfferAccept.ProvideRequestedContent | portalnet/src/overlay_service.rs:2085-2122 | fails on an unparsable key; otherwise looks up exactly the accepted keys, each in the store as it is then, failing on a missing one |
| OfferAccept.LookedUpIsSelected | portalnet/src/overlay_service.rs:1588-1605 | an offer answered from the store sends what a populated offer of those values sends, and fails exactly if an accepted key is no longer stored |
| OfferAccept.ProcessAcceptUtpPayload | portalnet/src/overlay_service.rs:1667-1791 | decodes, with the errors and the panic of the decoder, compares lengths, validates each pair, stores the wanted valid ones and gossips all valid ones |
| OfferAccept.ProcessedPairs | portalnet/src/overlay_service.rs:1697-1780 | a pair is gossiped exactly when it is a valid key and value at one index, and stored exactly when its content is also within the radius and not in the store then |
| OfferAccept.ProcessedInOrder | portalnet/src/overlay_service.rs:1697-1780 | both lists follow the order of the offer, with one entry for each index that qualifies |
| OfferAccept.SelectedLength | portalnet/src/overlay_service.rs:1592-1598 | the filtered values are as many as the offered ones exactly when every bit is set, and are then all of them |
| Sorting.SelectedExactly | portalnet/src/overlay_service.rs:1592-1598 | filtering by the accept bits keeps each value whose bit is set, once, at the place given by the set bits before it |
| OfferAccept.ExchangeAligned | portalnet/src/overlay_service.rs:1686-1695 | the receiver's length check passes exactly when every key was accepted, and then value i comes with key i |
| OfferAccept.ExchangeEndToEnd | portalnet/src/overlay_service.rs:1197-1791 | over the bytes of OFFER, ACCEPT and the payload: the length check passes exactly when every key was accepted, and then everything stored or re-gossiped is a key with the value it was offered with |
| OfferAccept.PartialAcceptExample | portalnet/src/overlay_service.rs:1688-1695 | one of two items accepted: one value arrives for two keys |
| Gossip.SelectRandomEnrs | portalnet/src/gossip.rs:240-245 | as many as asked or available, without replacement |
| Gossip.SelectGossipRecipients | portalnet/src/gossip.rs:254-271 | min(8, available) recipients, none of the others closer than one of the first four |
| Gossip.CalculateInterestedEnrs | portalnet/src/gossip.rs:197-237 | the same, among the connected peers whose radius strictly covers the content |
| Gossip.InterestedMember | portalnet/src/gossip.rs:204-225 | a record is a candidate exactly when a connected entry holds it and its radius strictly exceeds the distance |
| Gossip.RecipientsAreEligible | portalnet/src/gossip.rs:204-271 | in a table with unique ids the recipients are min(8, candidates) distinct connected peers, strictly within radius, and no candidate outside the first four is closer than one of them |
| Gossip.PropagateGossip | portalnet/src/gossip.rs:41-110 | one offer per chosen peer holding its items in input order, every chosen peer served, and the count returned is the number of offers |
| Gossip.PushToAll | portalnet/src/gossip.rs:68-80 | each recipient gains the item once per time chosen, nobody else changes |
| Gossip.SendOffers | portalnet/src/gossip.rs:86-110 | one command per group, with the group's items |
| Gossip.OfferCounts | portalnet/src/gossip.rs:68-80 | a peer's offer holds an item exactly as often as the peer was chosen for it |
| Gossip.ItemsInOrder | portalnet/src/gossip.rs:68-80 | the items of a peer chosen at most once per item are those it was chosen for, in input order |
| GossipTrace.ProcessAccept | portalnet/src/overlay_service.rs:1528-1664 | every path sends exactly one boolean on the result channel, true exactly when some bit is set, the payload was written, and nothing selected is too large |
| GossipTrace.TransferredExactly | portalnet/src/overlay_service.rs:1528-1664 | the same condition for the value that is sent |
| GossipTrace.TransferCarriesItem | portalnet/src/overlay_service.rs:1599-1605 | a reported transfer carried the item exactly when the first bit was set, and otherwise nothing |
| GossipTrace.EmptyTransferExample | portalnet/src/overlay_service.rs:1599-1605 | bits for which a transfer is reported though nothing was sent |
| GossipTrace.TracePropagateGossip | portalnet/src/gossip.rs:116-194 | the three lists are the peers queued, accepting and reached, in order |
| GossipTrace.TracedPeers | portalnet/src/gossip.rs:148-192 | a peer is offered exactly if one of its offers was queued, accepting exactly if an answer set a bit, and reached exactly if a payload was also written |
| GossipTrace.WhereExact | portalnet/src/gossip.rs:148-192 | a peer is in a list exactly when one of its outcomes qualifies |
| GossipTrace.TraceOrdering | portalnet/src/gossip.rs:148-192 | transferred is a subsequence of accepted, accepted of offered, offered of the recipients |
| Replies.PopWhileSszBytesLenGt | portalnet/src/overlay_service.rs:2644-2648 | the longest prefix whose SSZ size fits |
| Replies.SizeIsEncodedLength | portalnet/src/overlay_service.rs:2644-2648 | the size compared is the length of the records' SSZ encoding |
| Replies.NodesFound | portalnet/src/overlay_service.rs:2382-2409 | the own record exactly for distance zero, otherwise connected entries at the log distances asked for, and all of these if the limit is not exceeded |
| Replies.NodesInOrder | portalnet/src/overlay_service.rs:2382-2409 | the records found are in order of their log distance, whatever the order and repetitions of the request |
| Replies.LimitCountsDisconnected | portalnet/src/overlay_service.rs:2396-2402 | when the limit costs no connected record |
| Replies.CrowdedOutExample | portalnet/src/overlay_service.rs:2396-2402 | two full buckets of disconnected entries hide a connected one |
| Replies.HandleFindNodes | portalnet/src/overlay_service.rs:1074-1101 | the longest fitting prefix of the records found for the distances, without the asker's |
| Replies.HandleFindContent | portalnet/src/overlay_service.rs:1104-1194 | an error for an invalid key; small content inline, large content by connection id (an error for an unknown asker), otherwise the longest fitting prefix of the closest records without the asker's |
| Replies.RepliesFit | ethportal-api/src/types/portal_wire.rs:41-68 | no NODES or CONTENT reply of these handlers exceeds 1171 bytes |
| Replies.ContentReplyIsClosest | portalnet/src/overlay_service.rs:2412-2433 | the records sent are those of connected entries other than the asker's, sorted by distance, and no such entry left out is closer |
| Replies.ClosestNodesCount | portalnet/src/overlay_service.rs:2426-2430 | min(32, connected) candidates are considered |
| Requests.OverlayService.ProcessRequest | portalnet/src/overlay_service.rs:1008-1020 | the request enters the table as it is given, and a task is started |
| Requests.OverlayService.TaskFinished | portalnet/src/overlay_service.rs:1350-1369 | the task queues one response under its request id |
| Requests.OverlayService.ReceiveResponse | portalnet/src/overlay_service.rs:522-544 | the first queued response always finds its request, removes it from the table and is paired with it |
| Requests.HistoryFromEvents | portalnet/src/overlay_service.rs:1008-1020 | the requests sent and responses reported are those of the events, a response after its request |
| Requests.EveryResponseFindsItsRequest | portalnet/src/overlay_service.rs:522-544 | over all interleavings: the table holds a request exactly if it was issued, as issued, and is not answered; every answer pairs a request as issued, responder and destination included, with the response its own task reported later; none is answered twice and no response goes unmatched |
| Requests.RunInvariant | portalnet/src/overlay_service.rs:986-1022 | in every reachable state a request is with exactly one of its task, the queue, and the answered ones |
| Requests.QuiescentMeansAnswered | portalnet/src/overlay_service.rs:986-1022 | once all tasks reported and the channel is drained every request sent has its answer |
| FindNodeQuery.Iterator.constructor | portalnet/src/find/iterators/findnodes.rs:274-305 | the first known peers, none contacted |
| FindNodeQuery.Iterator.ReportFailure | portalnet/src/find/iterators/findnodes.rs:76-96 | an awaited peer becomes failed, the counter follows, anything else changes nothing |
| FindNodeQuery.Iterator.ReportSuccess | portalnet/src/find/iterators/findnodes.rs:103-172 | an awaited peer becomes succeeded, reported peers are added unless known, and the stage is updated |
| FindNodeQuery.Iterator.PollNow | portalnet/src/find/iterators/findnodes.rs:174-252 | the loop over peers in order of distance computes the poll step and the counter never underflows |
| FindNodeQuery.RunInvariant | portalnet/src/find/iterators/findnodes.rs:57-252 | in every run the counter is the number of peers waited for, stays within the larger of parallelism and results, and no peer is contacted twice |
| FindNodeQuery.ContactsWithinParallelism | portalnet/src/find/iterators/findnodes.rs:307-319 | a peer is handed out only while fewer are waited for than the stage allows |
| QueryStages.ProgressAsDocumented | portalnet/src/find/iterators/findnodes.rs:98-151 | the flag the loop leaves and the documented rule agree on an answer exactly under the condition `ProgressAgrees` |
| QueryStages.ProgressExamples | portalnet/src/find/iterators/findnodes.rs:139-151 | one run for each of the three ways in which they differ |
| QueryStages.StalledAfterFruitlessAnswers | portalnet/src/find/iterators/query.rs:124-142 | in every run of every configuration an unfinished query is stalled exactly when the answers since the last fruitful one are at least as many as a positive parallelism, and otherwise counts them |
| QueryStages.NobodyAsked | portalnet/src/find/iterators/findnodes.rs:307-319 | without parallelism no run ever contacts a peer |
| QueryStages.StagesAreDocumented | portalnet/src/find/iterators/findnodes.rs:98-171 | a query is in the stage prescribed by the documented rule throughout a run exactly when all its answers satisfy `ProgressAgrees` |
| QueryStages.NeverStuck | portalnet/src/find/iterators/findnodes.rs:174-252 | in every run, with nobody waited for, polling hands out a peer or finishes exactly if the parallelism is positive or no peer is known |
| QueryOutcomes.StatesFromEvents | portalnet/src/find/iterators/findnodes.rs:76-172 | in every run a peer has answered exactly if one of its answers was taken, has failed exactly if one of its failures was, and was contacted exactly if a poll handed it out |
| QueryOutcomes.TakenExactly | portalnet/src/find/iterators/findnodes.rs:76-131 | a running query takes an answer or a failure exactly if the peer was asked before and has neither answered nor failed since, given up or not |
| QueryOutcomes.FailedForGood | portalnet/src/find/iterators/findnodes.rs:76-96 | once a failure of a peer is taken none of its answers counts and it is in no result |
| QueryOutcomes.KnownFromEvents | portalnet/src/find/iterators/findnodes.rs:136-149 | the peers known are the first `num_results` given and those reported in an answer that was taken |
| QueryOutcomes.DeadlinesFromEvents | portalnet/src/find/iterators/findnodes.rs:188-215 | a peer is waited for until the timeout after it was asked, and given up only by a poll after that |
| QueryOutcomes.PollHandsOut | portalnet/src/find/iterators/findnodes.rs:174-252 | below the limit of its stage a poll hands out the closest peer not yet contacted, unless it finishes |
| QueryOutcomes.FinishesOnceEnough | portalnet/src/find/iterators/findnodes.rs:217-240 | in every run a poll finishes once enough peers have answered and none closer is yet to be contacted or heard from |
| QueryOutcomes.FinishedQueryFoundTheClosest | portalnet/src/find/iterators/findnodes.rs:179-266 | the result of any finished query is the closest peers whose answers were taken, as many as asked for, and no peer known that neither answered, failed nor timed out is closer than one of them |
| FindNodeQuery.FinishedIsSettled | portalnet/src/find/iterators/findnodes.rs:179-252 | a query finishes in any run only once its closest peers have answered or nobody is left to ask |
| LightClientUpdates.FirstWriterWins | trin-storage/src/sql.rs:20-22 | over any puts a period is stored exactly when some put covered it, with the update of the first that did |
| LightClientUpdates.RangeIsFirstWrites | trin-beacon/src/storage.rs:137-171 | a range of at most 128 periods is returned exactly when every period was covered, each element from the first put covering it |
| LightClientUpdates.AdjacentRangesJoin | trin-beacon/src/storage.rs:137-171 | adjacent ranges read together are the two read apart, joined |
| LightClientUpdates.UpdateStore.StoreRange | trin-beacon/src/storage.rs:345-371 | inserting period by period is one range put of as many updates as the key counts; rows already there stay |
| LightClientUpdates.UpdateStore.GetRange | trin-beacon/src/storage.rs:137-171 | all periods present or nothing, and an error beyond 128 |
| LightClientUpdates.UpdateStore.ShouldStore | trin-beacon/src/storage.rs:224-244 | Store exactly when no period of the range was ever covered |
| QueryTrace.Recorder.constructor | ethportal-api/src/types/query_trace.rs:35-45 | a new trace is the one of no calls |
| QueryTrace.Recorder.NodeRespondedWith | ethportal-api/src/types/query_trace.rs:50-72 | the answers are appended, the records mentioned are considered and then the responder's own |
| QueryTrace.Recorder.NodeRespondedWithContent | ethportal-api/src/types/query_trace.rs:75-87 | the node is named as the source, its answers start afresh, its record is considered |
| QueryTrace.MetadataIsBest | ethportal-api/src/types/query_trace.rs:100-118 | the record kept has the highest sequence number seen; among those the last sent by the node itself, else the first heard of |
| QueryTrace.TraceInvariant | ethportal-api/src/types/query_trace.rs:34-130 | after any calls every id mentioned anywhere has metadata, which is its best record with its distance to the target, and the source of content has a response |
| QueryTrace.TraceRecordsAnswers | ethportal-api/src/types/query_trace.rs:50-87 | after any calls a node's list holds exactly the ids it answered with since it last gave content, and the source is the node that gave content last |
| QueryTrace.TraceListsAnswers | ethportal-api/src/types/query_trace.rs:50-87 | after any calls a node's list is what it answered with since it last gave content, in order and with repetitions, and it has a list exactly if it answered |

## Left out

- JSON-RPC, command line, metrics, logging, process start-up, NAT traversal and dashboards: plumbing around the modelled parts.
- The discv5 k-buckets, the uTP transport, caches and record signatures: other crates; the routing table is a list of entries.
- The validators for beacon and state content and for post-merge headers, which accept without a check.
- `FindContentQuery` and the query pool: the same iteration as `FindNodeQuery` with an early stop on content.
- `finalize_deposits` and snapshots of the Merkle tree, which the client does not use.
- Conversions between requests, responses and messages, JSON forms, and pagination: they would only add easy members.
- Update of a Merkle tree in place: `push_leaf` is a function from tree to tree.
- The count of peers returned per peer in a query, timestamps in a query trace, and its list of cancelled peers.
- Overflow of 64-bit period arithmetic in the light-client table and of the float that sums content sizes.
