# A verified model of go-iroh's document sync, blob codec, gossip and record store

This project models four parts of go-iroh in Dafny and proves what each of them is for.

**Document sync** (`Docs*.dfy`, from `docs/`). A document store keeps, of everything it was offered, the entries that
no other entry shadows: an entry shadows those of the same author whose key extends its own and whose record is not
newer. Two stores reconcile by exchanging fingerprints and values of identifier ranges on a circle. `DocsCrdt` proves
that a store is a join of what it was offered. `DocsRange` proves that a split covers its range exactly once.
`DocsConvergence` proves the invariant of the exchange: every maximal entry that one side still misses is carried or
asked for by a part in flight. `DocsExchange` lifts it to whole runs. Whether a run goes quiet depends on the entries:
`DocsWorth` and `DocsTermination` prove that it does, within nine rounds for each entry and four more, if every item of
at most one entry fits a frame. `DocsEndless` follows small exchanges in full and says exactly when they go quiet, and
`DocsLimits` proves that all exchanges of some entries go quiet if and only if those items fit. `DocsStore` is the
store itself, a class over two maps, whose every step equals the specification; `DocsSync` is the alternating loop.

**Blob codec** (`Blobs*.dfy`, from `blobs/`). A blob is sent as the selected chunks of a BLAKE3 tree (section 2.1 of the
BLAKE3 specification) with the proof that they belong to the root hash. `BlobsRange` and `BlobsRangeOps` are the algebra
of chunk ranges, `BlobsSelect` the selection and its binary-searched counting, `BlobsWire`, `BlobsRequest` and
`BlobsParser` the request format. `BlobsTree` and `BlobsCodec` give encoder and decoder as functions over the tree;
`BlobsRoundTrip`, `BlobsSound`, `BlobsOutboard` and `BlobsResponse` prove round trip, soundness, the size proof and the
outboard arithmetic; `BlobsCoder` is the code over streams, with narrowed selections, equal to those functions.
The two compression functions are parameters. The round trip assumes nothing about them. Soundness assumes that the
nodes of the blob's own tree have no second preimage (`BlobsSound.Unforgeable`), which is weaker than injectivity and,
unlike it, can hold of functions with a finite range.

**Gossip** (`Gossip*.dfy`, from `internal/gossipproto/`). HyParView membership, PlumTree broadcast and the topic that
joins them are classes that turn an event into outputs. Random picks and map iteration orders are nondeterministic
choices, so the contracts hold for all of them. What every event keeps, every run keeps; the `Run` methods say so.

**Record store** (`Dns*.dfy`, from `dnsserver/`). `DnsRecords` is the store as a list of records, oldest first, and what
is promised of it over runs. `DnsServer` is the map and the doubly linked list with a sentinel; each operation relinks
the nodes and is proved to do to the list exactly what `DnsRecords` says.

## Reading the hypotheses

- `DocsExchange.Peers.Compatible`: both sides use one scope and one fingerprint hash and accept every entry of the
  exchange.
- `DocsSync.CleanRun`: no two different entry sets that were compared in the run had the same fingerprint. It is stated
  of the comparisons made, not of all sets, because fingerprints have 256 bits.
- `DocsTermination.BothFit`: for both sides, every item of no entry or one entry of the union, over ranges between its
  identifiers, fits one frame. It speaks of the entries and of `size` alone, so it can be settled before the exchange.
  Convergence does not need it; going quiet does.
- `DocsLimits.Encodes` and `Encoding.Grows`: an item of at most one entry is as large as its two ends, the entry and a
  constant, and an identifier grows with its key, as docs/entry.go:78-82 and docs/ranger.go:91-126 have it.
- `DocsLimits.Telling`: fingerprints tell stores of at most two of the entries from each other.
- `DocsSync.FitRun`: no reply of the run had to be cut to one frame. Only the tighter bound on rounds needs it.
- `BlobsSound.Unforgeable`: see above.
- `GossipPlumtree.PlumtreeState.monotone`, `GossipDelivery.NonDecreasing`, `DnsRecords.ClockKeepsOn`: the times of the
  events do not go back.

## Where the code does less, or other, than one would expect

- An exchange need not go quiet. A one-value item that exceeds the frame is not split, but the second loop of
  `boundedMessage` makes a fingerprint of it like of any item that does not fit, so it never reaches the frame writer,
  against the comment at docs/store.go:342-343. The peer asks for the range again, and the same messages come round
  (`DocsEndless.LoneEntryIff`, `DocsEndless.HeldEntryIff`, `DocsEndless.PairIff`). An item holds the ends of its range
  besides its entry, so a key of over a third of a frame is enough, and then the loop passes the frame writer
  (`DocsEndless.HeldLoopIsWritten`); for keys of over half a frame the writer refuses the fingerprint (docs/net.go:339)
  and the exchange fails. `DocsLimits.EndsIff` says exactly when all exchanges of some entries go quiet.
- A view capacity below one still holds one peer: both views are bounded by the larger of one and the capacity, and
  take in a peer (`GossipHyparview.BelowOneHoldsOne`).
- `Quit` empties the active view without a NeighborDown event. The neighbour events of a run lead to its active view if
  and only if no Quit found a neighbour (`GossipHyparview.ReplayIff`).
- `splitRange` gives no pieces for a range without entries and for a whole set of one entry. It covers its range
  exactly in all other cases (`DocsRange.SplitCoversIff`); the guard at docs/store.go:298 excludes both.
- A PlumTree machine can cache a message whose id it has forgotten exactly if messages are cached for longer than ids
  are remembered; a broadcast and one eviction show it (`GossipPlumtree.CacheOutlivesIds`).
- `chunkRangeCovered` looks at one range at a time. It is exact for canonical ranges, the only ones its caller passes.
- An empty selection proves nothing about the size, so sender and receiver refuse it for a nonempty blob; a stated size
  of zero is proved by the hash of no bytes alone.

## Model

| member | source | states |
|---|---|---|
| `DocsEntry.BytesInjective` | docs/entry.go:69-76 | the store's map key determines the identifier |
| `DocsEntry.IdentifierOrder` | docs/entry.go:65-67 | identifiers are totally ordered by their bytes |
| `DocsEntry.RecordOrder` | docs/entry.go:129-137 | records are totally ordered by timestamp, then hash |
| `DocsCrdt.ShadowsIsPartialOrder` | docs/store.go:514-527 | shadowing, as both loops of putEntry test it, is a partial order |
| `DocsCrdt.InsertIsMaximal` | docs/store.go:506-555 | inserting into the maximal entries of a set gives the maximal entries of the larger set |
| `DocsCrdt.InsertAllIsMaximal` | docs/store.go:506-555 | after any sequence of inserts the store holds the maximal entries of all that was offered |
| `DocsCrdt.ReplicasAgree` | docs/store.go:506-555 | replicas offered the same entries, in any order and with repetitions, hold the same entries |
| `DocsCrdt.InsertSize` | docs/store.go:520-537 | an accepted insert changes the size by one less the number removed |
| `DocsCrdt.DescendantsAreNewer` | docs/store.go:514-527 | a held descendant is strictly newer than its held ancestors |
| `DocsRange.RangeOnCircle` | docs/ranger.go:67-77 | membership in a range, wraparound or not, is membership in an interval of the circle |
| `DocsRange.PivotIsCut` | docs/store.go:619-624 | the pivots are the entries at the cut points of the rotated list |
| `DocsRange.SplitCoversExactly` | docs/store.go:601-655 | each identifier is in exactly one piece if it is in the range, in none otherwise: plain, wraparound and whole-set ranges, every split factor |
| `DocsRange.SplitCoversIff` | docs/store.go:601-655 | the pieces cover the range exactly once if and only if it holds an entry, or two for the whole set |
| `DocsRange.SplitPieceIsSmaller` | docs/store.go:601-655 | no piece has equal ends and each leaves out a local entry |
| `DocsMessage.SortedIsUnique` | docs/store.go:578-582 | there is one way to list a store in identifier order |
| `DocsConvergence.StepIsSound` | docs/store.go:258-337 | processing any honest message keeps both stores to entries of the union and gives an honest reply |
| `DocsConvergence.AnswerSettles` | docs/store.go:258-333 | before cutting to a frame, every maximal entry one side misses is carried or asked for by the answer |
| `DocsConvergence.BoundedKeepsCover` | docs/store.go:344-388 | cutting a reply to one frame leaves no maximal entry uncovered, whatever the encoded sizes |
| `DocsConvergence.StepSettles` | docs/store.go:234-338 | the cover of the missing maximal entries is kept by every step without a fingerprint collision |
| `DocsConvergence.InitialMessageSettles` | docs/store.go:188-209 | the first message covers everything, for any two stores |
| `DocsConvergence.QuietMeansConverged` | docs/store.go:334-336 | with nothing in flight, the cover means that both sides hold the maximal entries of the union |
| `DocsExchange.AnswerWeighsLess` | docs/store.go:258-333 | the entries of the union in the range of any fingerprint part strictly drop from message to answer |
| `DocsExchange.FittingReplyIsSent` | docs/store.go:344-388 | a reply that needs no splitting and fits one frame is sent as it is |
| `DocsExchange.RunSettled` | docs/net.go:209-246 | the cover of the missing maximal entries holds in every state of every run, up to the first fingerprint collision |
| `DocsExchange.QuietRunConverged` | docs/net.go:209-246 | a run that goes quiet without a collision leaves both stores with the maximal entries of the union of the two, whatever was cut to frames |
| `DocsExchange.RunGoesQuiet` | docs/net.go:209-246 | a run none of whose replies is cut is quiet after at most the size of the union plus two rounds; for runs with cut replies see RunEnds and EndsIff |
| `DocsWorth.SplitWorth` | docs/store.go:601-655 | splitting never raises the measure of a range, twice its entries less one, and lowers it if the range holds two local entries |
| `DocsWorth.BoundedWorth` | docs/store.go:344-388 | cutting a reply never raises its measure, though items become fingerprints again |
| `DocsWorth.FrontIsSent` | docs/store.go:364-386 | a first part that fits the frame is never cut |
| `DocsTermination.WorthlessIsQuiet` | docs/store.go:258-338 | a message whose ranges hold no entry of the union is not answered |
| `DocsTermination.ItemIsAnsweredNext` | docs/store.go:258-388 | a message with an item leads to a lower measure, a store that has seen more, or an item that ends its range |
| `DocsTermination.FingerprintIsAnsweredNext` | docs/store.go:292-388 | fingerprints alone lead to a lower measure or to an item |
| `DocsTermination.StepProgress` | docs/store.go:234-388 | every step from a message that can still change something lowers the potential, whatever is cut |
| `DocsTermination.RunEnds` | docs/net.go:209-246 | if every item of at most one entry fits a frame, every run is quiet after nine rounds for each entry of the union and four more; collisions do not matter |
| `DocsEndless.LoneCycles` | docs/store.go:364-386 | an entry at the acceptor that fits neither at once nor when asked for, and a dialer without entries: the fingerprint of the entry and the request for it lead to each other |
| `DocsEndless.LoneEntryIff` | docs/store.go:344-388 | from the fourth round on, the exchange of one entry at the acceptor with an empty dialer is quiet if and only if the entry fits: at once, or when asked for |
| `DocsEndless.StepAnswers` | docs/store.go:234-388 | in exchanges of one part about the whole set, a step is one answer of a talk in fingerprints and lists, collisions aside |
| `DocsEndless.HeldEntryIff` | docs/store.go:344-388 | from the third round on, the exchange of one entry at the dialer with an empty acceptor is quiet if and only if the entry fits with the range from itself to itself |
| `DocsEndless.HeldLoopIsWritten` | docs/net.go:334-351 | where it does not and fingerprints over that range fit, every message of the run fits a frame and none is empty, for ever |
| `DocsEndless.PairIff` | docs/store.go:344-388 | two entries, one on either side and neither shadowing the other, change sides if and only if one fits at first and the other in answer; otherwise no round is quiet |
| `DocsEndless.WithheldPair` | docs/store.go:344-388 | an acceptor's entry that does not fit the dialer's range keeps the exchange going, also where it shadows the dialer's entry |
| `DocsLimits.NeverQuiet` | docs/net.go:209-246 | no collision-free run is ever quiet if one side lacks a maximal entry that fits no frame |
| `DocsLimits.FitsByLargest` | docs/ranger.go:91-126 | all those items fit if and only if the one with the longest key at both ends and the largest entry does |
| `DocsLimits.EndsIff` | docs/net.go:209-246 | all exchanges between stores of some entries are quiet within the bound if and only if every item of at most one of the entries, over a range between their identifiers, fits a frame |
| `DocsLimits.OneEntryDecides` | docs/store.go:344-388 | every entry and encoding meet the hypotheses of EndsIff with some peers, and then the size of the one item decides: both sides of it occur |
| `DocsNamespace.AfterItemsIsConfined` | docs/store.go:258-279 | processing a message leaves the entries of other namespaces as they are, for any message |
| `DocsNamespace.RoundIsConfined` | docs/store.go:234-338 | stores that agree in the namespace give the same reply and agree in it afterwards |
| `DocsStore.SortEntries` | docs/store.go:578-582 | the result is sorted by identifier and has the same entries |
| `DocsStore.XorInPlace` | docs/ranger.go:44-48 | the array becomes the bytewise xor |
| `DocsStore.MemoryStore.PutEntry` | docs/store.go:506-555 | the contents become those of the specification's insert; result, removed count and the origins with peer and content status agree with the maps |
| `DocsStore.MemoryStore.ScopeRange` | docs/store.go:152-164 | the entries of the scope in the range, sorted |
| `DocsStore.MemoryStore.ScopeFingerprint` | docs/store.go:167-173 | the fingerprint of those entries |
| `DocsStore.MemoryStore.InitialMessage` | docs/store.go:188-209 | the message from which every exchange is proved to settle |
| `DocsStore.MemoryStore.SplitRange` | docs/store.go:601-645 | the loops compute the split that is proved to cover the range exactly |
| `DocsStore.NonEmptyRanges` | docs/store.go:647-655 | drops the ranges with equal ends and no other |
| `DocsStore.MemoryStore.ProcessItem` | docs/store.go:258-290 | the values are stored and the reply lists what the peer lacks |
| `DocsStore.MemoryStore.ProcessFingerprint` | docs/store.go:292-333 | agreement is silent, otherwise values or a split are sent |
| `DocsStore.MemoryStore.BoundedMessage` | docs/store.go:344-388 | cuts as specified: oversized values are split, what exceeds the frame becomes a fingerprint |
| `DocsStore.MemoryStore.ProcessMessage` | docs/store.go:234-338 | contents and reply are those of the specification, about which convergence is proved |
| `DocsSync.RunIsConfined` | docs/net.go:178-247 | no run touches other namespaces on either side |
| `DocsSync.RunConcludes` | docs/net.go:178-247 | quiet without collision means converged; nine rounds for each entry of the union and four more suffice if every entry fits a frame, the size of the union plus two if all replies do |
| `DocsSync.Account` | docs/net.go:216-220 | values sent by one side and not received by the other are those of the message in flight, at every turn |
| `DocsSync.Sync` | docs/net.go:178-247 | the loop between two stores follows the run of the specification: quiet means converged, it ends within the bound if every entry fits a frame, its counters balance and other namespaces stay |
| `BlobsRange.NormalizeOk` | blobs/range.go:80-113 | normalizing keeps the denoted set and gives sorted, nonempty, separated ranges below the open start |
| `BlobsRange.CanonicalIsUnique` | blobs/range.go:80-113 | two canonical forms of one set are equal |
| `BlobsRange.NormalizeIsIdempotent` | blobs/range.go:80-113 | normalizing twice is normalizing once |
| `BlobsRange.EqualityDecidesSameSet` | blobs/range.go:340-354 | comparing canonical forms decides equality of sets |
| `BlobsRangeOps.NormalizeRanges` | blobs/range.go:80-113 | the loop computes the canonical form |
| `BlobsRangeOps.ChunkRangesEqual` | blobs/range.go:340-354 | true exactly if both denote the same chunks |
| `BlobsRangeOps.ContainsChunk` | blobs/bitfield.go:197-208 | true exactly if the chunk is in the set |
| `BlobsRangeOps.ChunkRangeCovered` | blobs/bitfield.go:226-236 | true only if the range lies in the set, and exactly if it does where the set is canonical; otherwise exactly if one of the ranges holds it |
| `BlobsRangeOps.ChunkRangesSubset` | blobs/bitfield.go:210-224 | true exactly if one set includes the other |
| `BlobsWire.VarintRoundTrip` | blobs/ticket.go:209-251 | every 64-bit number is read back from at most ten bytes, leaving the rest |
| `BlobsWire.SpecRoundTrip` | blobs/range.go:130-181 | spans of any ranges convert back to their canonical form |
| `BlobsWire.EncodeSpecRoundTrip` | blobs/range.go:183-208 | an encoded span list is read back |
| `BlobsRequest.SeqRoundTrip` | blobs/range.go:304-338 | per-child ranges survive in any order of offsets, because offset differences wrap |
| `BlobsRequest.HashesRoundTrip` | blobs/protocol.go:118-149 | a hash list is read back |
| `BlobsRequest.RequestRoundTrip` | blobs/protocol.go:160-223 | decoding an encoded Get, Observe or GetMany request consumes all bytes and returns it with canonical ranges |
| `BlobsParser.AppendVarint` | blobs/ticket.go:209-215 | appends the varint that is proved to be read back |
| `BlobsParser.Parser.ReadVarint` | blobs/ticket.go:233-251 | value and cursor agree with the parser of the round trip, with its truncation and overflow errors |
| `BlobsParser.Parser.ReadBytes` | blobs/ticket.go:224-231 | takes exactly the next bytes or fails |
| `BlobsParser.RangeSpecFromRanges` | blobs/range.go:130-150 | the spans convert back to the canonical form of the ranges |
| `BlobsParser.RangesOfSpec` | blobs/range.go:162-181 | any span list, also one with wrapping offsets, gives canonical ranges |
| `BlobsParser.EncodeRangeSpec` | blobs/range.go:183-189 | appends the span list that is proved to be read back |
| `BlobsParser.Parser.ReadRangeSpec` | blobs/range.go:191-208 | value, cursor and errors agree with the parser of the round trip |
| `BlobsParser.EncodeRangesSeq` | blobs/range.go:304-313 | appends the per-child ranges that are proved to be read back |
| `BlobsParser.Parser.ReadRangesSeq` | blobs/range.go:315-338 | value, cursor and errors agree with the parser of the round trip |
| `BlobsParser.DecodeRequestBytes` | blobs/protocol.go:188-223 | value and errors agree with the decoder of the round trip, which refuses trailing bytes |
| `BlobsParser.EncodeRequestBytes` | blobs/protocol.go:160-185 | what it encodes decodes to the request with canonical ranges; unsupported requests are refused |
| `BlobsSelect.CountDecides` | blobs/chunkrange_bao.go:53-61 | a count of none or all means that none or all are selected |
| `BlobsSelect.Intersecting` | blobs/chunkrange_bao.go:65-72 | the searched part selects the same chunks inside the bounds, also of an already narrowed selection |
| `BlobsSelect.Count` | blobs/chunkrange_bao.go:53-61 | the fast count is the number of selected chunks |
| `BlobsSelect.SelectChunksOk` | blobs/chunkrange_bao.go:20-51 | the selection is sorted, disjoint and inside the blob; it has a chunk below the last exactly if the ranges have it, the last exactly if they reach it |
| `BlobsSelect.ComputeSelection` | blobs/chunkrange_bao.go:20-51 | the loop computes that selection |
| `BlobsTree.LeftChunksIsShift` | blobs/chunkrange_bao.go:74-76 | the shift gives the largest power of two below n |
| `BlobsTree.CvRoundTrip` | blobs/chunkrange_bao.go:238-244 | reading back the bytes of a chaining value gives the value |
| `BlobsCoder.HashChunkSubtree` | blobs/chunkrange_bao.go:116-128 | hashing a buffer gives the value of the tree over its chunks |
| `BlobsRoundTrip.PartialIsNode` | blobs/chunkrange_bao.go:198-236 | the value of a partially written block is the value of its node, whatever is selected |
| `BlobsRoundTrip.SubtreeRoundTrip` | blobs/chunkrange_bao.go:150-236 | whatever a subtree's encoder completes, followed by anything, decodes to its selected chunks and leaves the rest |
| `BlobsResponse.BlobRoundTrip` | blobs/chunkrange_bao.go:249-274 | a completed response is accepted with the same hash and ranges, read to its last byte, with the same size and exactly the selected chunks |
| `BlobsSound.TreeIsGenuine` | blobs/chunkrange_bao.go:116-128 | a tree with the value of an unforgeable one has its place, its length and its chunks |
| `BlobsSound.ChildrenAligned` | blobs/chunkrange_bao.go:311-316 | a claimed and a true tree that start together have children that start together or do not meet |
| `BlobsSound.DecodeSound` | blobs/chunkrange_bao.go:292-372 | for any stream, claimed tree and size, what is written is a prefix of true chunks, all of them on success, and the last selected chunk proves the end |
| `BlobsResponse.ReceivedIsTrue` | blobs/chunkrange_bao.go:388-425 | against the root hash of a blob every stream makes the decoder write only a prefix of the blob's selected chunks in order, and all of them if accepted; without a supported size it writes nothing |
| `BlobsResponse.AcceptedChunksExist` | blobs/chunkrange_bao.go:388-425 | no chunk of an accepted response lies outside the blob, whatever size it states |
| `BlobsResponse.AcceptedSizeIsTrue` | blobs/chunkrange_bao.go:388-425 | an accepted response whose ranges reach the end of its stated size states the blob's size |
| `BlobsResponse.EmptyIsEmpty` | blobs/chunkrange_bao.go:406-411 | no other blob has the hash of no bytes |
| `BlobsOutboard.PreorderLength` | blobs/chunkrange_bao.go:190-191 | the records of a subtree take 64 bytes for each block but one |
| `BlobsOutboard.ChildRecords` | blobs/chunkrange_bao.go:190-195 | the offsets passed to the two calls are where the children's records start |
| `BlobsOutboard.HonestSubtree` | blobs/chunkrange_bao.go:150-196 | with the blob and its outboard no check fails, for any selection |
| `BlobsResponse.SelectsSomething` | blobs/chunkrange_bao.go:268-271 | a selection of a nonempty blob is empty exactly if the ranges are |
| `BlobsResponse.HonestSenderCompletes` | blobs/chunkrange_bao.go:249-274 | a sender with the blob and its outboard completes exactly the requests that ask for something of a blob of supported size |
| `BlobsResponse.HonestDelivery` | blobs/chunkrange_bao.go:249-274 | the honest answer reads back as the blob's own selected chunks and size |
| `BlobsAgree.EncodeNarrows` | blobs/chunkrange_bao.go:192-195 | encoding a subtree with a narrowed selection is encoding it with the whole one |
| `BlobsAgree.DecodeNarrows` | blobs/chunkrange_bao.go:312-316 | the same for decoding |
| `BlobsCoder.EncodePartialBlock` | blobs/chunkrange_bao.go:198-236 | proof bytes and node value are those of the functional encoder, for data cut out of any blob |
| `BlobsCoder.ChunkRangeEncoder.Subtree` | blobs/chunkrange_bao.go:150-196 | writes what the specification writes, also when it fails midway |
| `BlobsCoder.ChunkRangeDecoder.ReadPair` | blobs/chunkrange_bao.go:300-310 | reads two values and compares their parent |
| `BlobsCoder.ChunkRangeDecoder.WholeBlock` | blobs/chunkrange_bao.go:324-340 | reads a block of the length the size gives it and writes it if its hash matches |
| `BlobsCoder.ChunkRangeDecoder.Subtree` | blobs/chunkrange_bao.go:292-372 | writes, consumes and accepts what the specification does |
| `BlobsCoder.EncodeBlobChunks` | blobs/chunkrange_bao.go:249-274 | response and outcome are those about which round trip and completion are proved |
| `BlobsCoder.DecodeBlobChunksToWriter` | blobs/chunkrange_bao.go:388-425 | verdict, size and bytes written are those about which soundness is proved; what is left of the stream on success |
| `BlobsCoder.DecodeBlobChunks` | blobs/chunkrange_bao.go:429-440 | accepts exactly an accepted response with nothing after it, and returns nothing otherwise |
| `GossipPeers.Insert` | internal/gossipproto/hyparview.go:586-592 | appends unless present |
| `GossipPeers.Remove` | internal/gossipproto/hyparview.go:594-603 | removes one member and keeps the order of the others |
| `GossipPeers.RandomWithout` | internal/gossipproto/hyparview.go:655-661 | picks a member outside the skipped ones, if there is one |
| `GossipPeers.ShuffledWithout` | internal/gossipproto/hyparview.go:644-653 | as many distinct members outside the skipped ones as asked for and available |
| `GossipHyparview.ReplayJoins` | internal/gossipproto/hyparview.go:172-203 | neighbour events of two outputs in turn lead from view to view |
| `GossipHyparview.ReplayIff` | internal/gossipproto/hyparview.go:329-334 | over any run, replaying all neighbour events gives the active view if and only if no Quit found a neighbour: peers left by one never leave the replayed view |
| `GossipHyparview.BelowOneHoldsOne` | internal/gossipproto/hyparview.go:424-467 | a machine with both capacities below one holds the peer that joined it and the peer that one named |
| `GossipHyparview.HyparviewState.AddActive` | internal/gossipproto/hyparview.go:424-454 | admits a peer other than this one exactly if it is active, of high priority or there is room; a neighbour dropped for it becomes passive |
| `GossipHyparview.HyparviewState.AddPassive` | internal/gossipproto/hyparview.go:456-467 | adds the peer, dropping one member exactly when full |
| `GossipHyparview.HyparviewState.RemoveActive` | internal/gossipproto/hyparview.go:477-518 | the peer leaves the view, is reported and let go, with a farewell if dropped at random; it stays known exactly if it said it stays alive or was dropped; one peer is asked in its place exactly if there is room and one to ask |
| `GossipHyparview.HyparviewState.RefillActiveFromPassive` | internal/gossipproto/hyparview.go:520-541 | asks one eligible passive peer exactly if there is room and one exists |
| `GossipHyparview.HyparviewState.SendShuffleReply` | internal/gossipproto/hyparview.go:355-368 | the reply names as many distinct known peers as asked for and available, only passive ones where these suffice |
| `GossipHyparview.HyparviewState.OnJoin` | internal/gossipproto/hyparview.go:248-266 | the joining peer is a neighbour and announced to all others |
| `GossipHyparview.HyparviewState.OnForwardJoin` | internal/gossipproto/hyparview.go:268-296 | the walk is answered here or goes on to a neighbour other than the sender |
| `GossipHyparview.HyparviewState.OnNeighbor` | internal/gossipproto/hyparview.go:298-304 | the sender is admitted or told to disconnect |
| `GossipHyparview.HyparviewState.OnDisconnect` | internal/gossipproto/hyparview.go:306-313 | the sender leaves the view and is remembered if alive |
| `GossipHyparview.HyparviewState.HandleConnectionClosed` | internal/gossipproto/hyparview.go:315-327 | the peer leaves both views unless it said it stays alive |
| `GossipHyparview.HyparviewState.HandleQuit` | internal/gossipproto/hyparview.go:329-334 | every neighbour is told, the view is emptied, no neighbour event is emitted |
| `GossipHyparview.HyparviewState.OnShuffle` | internal/gossipproto/hyparview.go:336-353 | a walk that ends is taken in and answered, else it goes on to neither origin nor sender |
| `GossipHyparview.HyparviewState.HandleShuffleTimer` | internal/gossipproto/hyparview.go:377-401 | one neighbour gets a shuffle that names this peer and as many others of either view as configured and available; the timer is set again |
| `GossipHyparview.HyparviewState.HandlePendingNeighborTimer` | internal/gossipproto/hyparview.go:403-410 | an unanswered peer is dropped |
| `GossipHyparview.HyparviewState.HandleMessage` | internal/gossipproto/hyparview.go:216-238 | each message has its effect; a sender that is no neighbour afterwards is disconnected |
| `GossipHyparview.HyparviewState.ForgetStrangers` | internal/gossipproto/hyparview.go:208-214 | exactly the data of peers in a view or awaited is kept |
| `GossipHyparview.HyparviewState.Handle` | internal/gossipproto/hyparview.go:172-203 | views stay duplicate-free, disjoint, without self and within capacity; neighbour events alternate and lead from view to view outside Quit; peer data is bounded by the views |
| `GossipHyparview.HyparviewState.Run` | internal/gossipproto/hyparview.go:172-203 | over every run the views keep these bounds, and the neighbour events of the whole run lead to the active view if and only if no Quit found a neighbour |
| `GossipMissing.AddAccounted` | internal/gossipproto/plumtree.go:364-366 | noting a target keeps both counters equal to what the lists hold |
| `GossipMissing.HeadAccounted` | internal/gossipproto/plumtree.go:387-392 | so does dropping the first target |
| `GossipMissing.DownAccounted` | internal/gossipproto/plumtree.go:445-458 | so does dropping all targets of a peer |
| `GossipMissing.TotalLength` | internal/gossipproto/plumtree.go:150-153 | where no list names a peer twice, listed pairs are as many as the lists are long |
| `GossipPlumtree.BooksCount` | internal/gossipproto/plumtree.go:165-172 | the total is the length of all lists, a peer's count the number of lists naming it, never zero; all within the limits |
| `GossipPlumtree.PlumtreeState.ForgetMissing` | internal/gossipproto/plumtree.go:461-468 | lowers both counters and drops a zero |
| `GossipPlumtree.PlumtreeState.Settle` | internal/gossipproto/plumtree.go:300-305 | a delivered message leaves the accounts target by target |
| `GossipPlumtree.PlumtreeState.OptimizeTree` | internal/gossipproto/plumtree.go:323-353 | the earliest announcer of the lowest round replaces a sender that is far behind it |
| `GossipPlumtree.PlumtreeState.OnIHave` | internal/gossipproto/plumtree.go:355-376 | each announcement is noted exactly if it is news and within the limits, and a graft timer is set exactly for noted ids that had none |
| `GossipPlumtree.PlumtreeState.OnSendGraftTimer` | internal/gossipproto/plumtree.go:378-409 | the first announcer is asked and joins the tree, the next one's timer is set |
| `GossipPlumtree.PlumtreeState.OnGraft` | internal/gossipproto/plumtree.go:411-423 | the sender joins the tree and gets the message if cached |
| `GossipPlumtree.ChunksKeepAll` | internal/gossipproto/plumtree.go:431-439 | splitting announcements loses and reorders nothing and respects the limit |
| `GossipPlumtree.PlumtreeState.OnDispatchTimer` | internal/gossipproto/plumtree.go:425-443 | each peer gets exactly what was queued for it, once and in order |
| `GossipPlumtree.PlumtreeState.OnNeighborDown` | internal/gossipproto/plumtree.go:445-458 | the peer leaves both sets and all accounts |
| `GossipPlumtree.PlumtreeState.EagerPush` | internal/gossipproto/plumtree.go:507-518 | every eager peer but this one and the sender gets the payload once |
| `GossipPlumtree.PlumtreeState.LazyPush` | internal/gossipproto/plumtree.go:520-538 | every lazy peer but the sender gets an announcement queued and a timer is set |
| `GossipPlumtree.PlumtreeState.BroadcastContent` | internal/gossipproto/plumtree.go:263-276 | a broadcast is remembered, cached and announced in swarm scope, and pushed to all eager peers |
| `GossipPlumtree.PlumtreeState.OnGossip` | internal/gossipproto/plumtree.go:278-321 | a forged id is ignored, a known message prunes the sender, a new one is delivered once |
| `GossipPlumtree.PlumtreeState.OnEvictCacheTimer` | internal/gossipproto/plumtree.go:479-495 | exactly the expired ids and messages go |
| `GossipPlumtree.CacheOutlivesIds` | internal/gossipproto/plumtree.go:263-276 | a fresh machine that broadcasts and then evicts when the id expires caches a message it no longer knows if and only if messages are cached for longer than ids are remembered |
| `GossipDelivery.RememberDelivery` | internal/gossipproto/plumtree.go:282-294 | delivering a message that is not remembered keeps all deliveries of one message the retention apart |
| `GossipDelivery.RememberEvicted` | internal/gossipproto/plumtree.go:480-484 | eviction forgets no delivery too early |
| `GossipPlumtree.PlumtreeState.Handle` | internal/gossipproto/plumtree.go:217-243 | every event keeps the accounts and limits, eager and lazy disjoint, a dispatch timer while announcements wait and, if messages are cached no longer than ids are remembered, the cache within the remembered ids; each event has its effect |
| `GossipPlumtree.PlumtreeState.Run` | internal/gossipproto/plumtree.go:217-243 | the same over every run; with a clock that does not go back, deliveries of one message are at least the id retention apart |
| `GossipTopic.FromPlumtree` | internal/gossipproto/topic.go:284-313 | translates every output in order |
| `GossipTopic.TopicState.FromHyparview` | internal/gossipproto/topic.go:238-282 | translates every output in order and tells the broadcast layer every change of neighbours |
| `GossipTopic.TopicState.Handle` | internal/gossipproto/topic.go:160-236 | each layer is told what the event means for it; every neighbour stays in exactly one of eager and lazy; outside Quit the outputs lead the application from the old view to the new one; messages are counted |
| `GossipTopic.TopicState.Run` | internal/gossipproto/topic.go:160-236 | over every run every neighbour is in exactly one of eager and lazy, and the outputs lead to the active view if and only if no Quit found a neighbour |
| `DnsRecords.RecencyIsOrder` | internal/pkarr/pkarr.go:157-164 | recency of packets is a strict total order |
| `DnsRecords.DropExpiredOk` | dnsserver/server.go:267-270 | in a list in order of time, dropping from the front drops every expired record |
| `DnsRecords.PutOk` | dnsserver/server.go:251-286 | a put keeps one record to a key, the limit and the order of time, leaves nothing expired and stores nothing else |
| `DnsRecords.PutKeeps` | dnsserver/server.go:251-286 | a put drops only what it replaces, what has expired and, from a full store, the record stored first |
| `DnsRecords.RunOk` | dnsserver/server.go:237-298 | every run keeps one record to a key and the limit and, if the clock keeps on, the order of time |
| `DnsRecords.PutLeavesNoExpired` | dnsserver/server.go:267-270 | after an accepted put in such a run nothing stored has expired |
| `DnsRecords.RunKeepsRecency` | dnsserver/server.go:260-265 | while a key stays stored its packet never goes back in recency |
| `DnsServer.Unlink` | dnsserver/server.go:293-298 | taking out a node leaves the others linked in both directions |
| `DnsServer.Link` | dnsserver/server.go:274-283 | a node put before the sentinel is linked in both directions |
| `DnsServer.IndexedSize` | dnsserver/server.go:271-273 | the map has as many keys as the list has nodes |
| `DnsServer.Server.New` | dnsserver/server.go:70-80 | an empty store with the limits of the source |
| `DnsServer.Server.Remove` | dnsserver/server.go:293-298 | the node leaves list and map, and both still agree |
| `DnsServer.Server.Get` | dnsserver/server.go:237-249 | serves a record exactly if it is stored and has not expired, and removes it if it has |
| `DnsServer.Server.Put` | dnsserver/server.go:251-286 | accepts a packet exactly if its timestamp is within the retention and its key holds none that is more recent; the records become those about which the run properties are proved |
| `DnsServer.Server.Run` | dnsserver/server.go:237-298 | over every run list and map agree node by node and the list is the specified one; from an empty store the map stays within the limit and, if the clock keeps on, the list in order of time |

## Left out

- Content length and signatures of document entries: no comparison and no fingerprint sees the first, and validation is the parameter `Env.accept`. The content status a peer states is a function of the entry.
- DocsStore.MemoryStore.BoundedMessage: parts that cannot be encoded, for which the source returns the uncut reply and fails in the frame writer, are not modelled; `Env.size` gives the encoded size of every part.
- DocsStore.MemoryStore.ProcessMessage: a store that fails to persist an entry, which ends the source's call with an error, is not modelled; events to subscribers and author heads are not part of this model.
- DocsSync.Sync: stream errors, aborts and frames too large for the writer end the source's loop early and are not modelled. Only fingerprints can make a frame too large: many of them, or one between two identifiers of over half a frame. Where cutting leaves no part, the source sends one more empty message; the model ends the exchange there.
- DocsLimits.NeverQuiet: it leaves out the frame writer, which ends the source's run with an error where a range ends at so long an identifier.
- DocsTermination.RunEnds: for two given stores its condition is sufficient and that of `NeverQuiet` is not its converse; the exact condition is proved of all stores of some entries together (`EndsIff`) and of stores of one entry or none.
- The overflow of 64-bit and platform integers in chunk counts and offsets: sizes are at most 2^63 - 1, so none of the sums reaches 2^64; varints and span offsets, where wrap-around matters, wrap.
- BlobsCoder.EncodePartialBlock: the pair of child values is written after the children instead of copied over a placeholder; the bytes are the same.
- BlobsCoder.ChunkRangeDecoder.Subtree: one recursion stands for the source's two, above and inside a block, which take the same steps on a pair; a partly selected single chunk cannot occur; the reader's position after a failure is not modelled.
- The size callback and nil checks of the blob coders: callers' parameters with no effect on the rest.
- The constructors and the lookup of per-child ranges, which would only add easy members.
- Bitfields and observe items, blob collections, tags and garbage collection, tickets other than their varints.
- Timers and deadlines of gossip beyond the events that set and report them; the frame format of gossip messages; multi-topic state.
- GossipPeers.Random: any member may be picked; that picks are uniform is not modelled.
- GossipPlumtree.PlumtreeState.Handle: the 64-bit message counters are unbounded here.
- RemoveGraftTargets compacts its slice in place in the source; the model filters a list.
- HTTP and DNS serving, packet parsing and locking of the record store; operations are atomic here.
- Live sync, downloader, router, endpoint, relay, address lookup and network reports: network, goroutines and thin wrappers.
