# Ring allgather

This project models the CPU ring allgather of xgboost's collective layer
(`src/collective/allgather.cc`):

- `RingAllgather`: every worker owns one fixed-size segment of a shared buffer. Segment i starts at
  `min(i * segment_size, size)` and is clamped to the buffer.
- `RingAllgatherV`: worker i contributes `sizes[i]` bytes. They are placed at `offset[i]` of the
  result, where `offset` is the prefix-sum table of `sizes`.

In each of `world` rounds a worker sends one segment to its successor. It receives another from its
predecessor straight into that segment's place, then blocks on the receive. It returns the first
failed `Block()` result. Otherwise it returns success, or `comm.Block()` for the V variant.

The model has four modules:

- `Topology`: rank arithmetic. It covers the send and receive ranks of round r and the ring
  neighbours. It also shows the facts that make the ring work. What a worker receives is what its
  predecessor sends. A worker forwards in round r + 1 what it received in round r. No segment is
  received twice.
- `Segments`: segment tables. It covers the clamped fixed table, the offset table of
  `RingAllgatherV` and the variable table built from it. It proves that both tables are ordered,
  disjoint and in bounds, and which bytes they cover.
- `Ring`: the round loop shared by both functions, over any ordered segment table. `Rounds` gives it
  per worker, as a function of the worker's buffer and of what its previous channel delivers.
  `GroupRounds` gives it for the whole group in lockstep. The gather theorem states that after
  `world` rounds every worker holds every segment's true bytes and is untouched elsewhere.
- `Allgather`: the two functions as imperative methods on the worker's `array<int8>`. Each is proved
  equal to `Rounds` on the matching table. It also contains the gather outcome of each function.

The channels are parameters, not code:

- What `SendAll` sends in round r is returned as `sent[r]`.
- What `RecvAll` followed by `Block()` yields on the previous channel in round r is `inbox[r]`, a
  `Delivery`: the bytes that arrived, or a lost connection.
- `Block()` succeeds exactly when the expected number of bytes arrived.
- The final `comm.Block()` of `RingAllgatherV` is the parameter `groupBlock`.

## Model

| member | source | states |
|---|---|---|
| Allgather.RingAllgather | src/collective/allgather.cc:18-44 | worker_off >= world fails with an invariant violation before any round, sending nothing and leaving the buffer unchanged; otherwise the status, the sent segments and the buffer are those of the fixed-table round loop (`FixedRun`) |
| Allgather.FixedRun | src/collective/allgather.cc:25-41 | RingAllgather's first t rounds, on the clamped segment table: the buffer keeps its size and at most t segments are sent |
| Allgather.RingAllgatherV | src/collective/allgather.cc:46-87 | the result buffer is the round loop over the offset table, run on the buffer after the local copy; the status is the first failed Block() or, when every round succeeds, comm.Block() |
| Allgather.FixedRound | src/collective/allgather.cc:26-40 | one round on the buffer (send the clamped send segment, receive into the clamped receive segment, block) advances the fixed-size run by exactly one round: status, sent segments and buffer |
| Allgather.FailedFixedRun | src/collective/allgather.cc:38-40 | once round f has failed, the outcome of the whole fixed-size run is its state after round f |
| Allgather.PlaceOwn | src/collective/allgather.cc:59-66 | returns exactly the offset table of `sizes`, and the result buffer afterwards is the local copy of `data` at offset[rank] |
| Allgather.LocalCopy | src/collective/allgather.cc:64-66 | the copy writes exactly the bytes [offset[rank], offset[rank] + size of data) with the worker's data; every other byte of the result is kept |
| Allgather.RingRoundsV | src/collective/allgather.cc:68-85 | the loop over subspans (offset[i], sizes[i]) with worker_off 0 gives the status, sent segments and buffer of `Rounds` on the variable table |
| Allgather.VarRun | src/collective/allgather.cc:68-85 | RingAllgatherV's first t rounds after the local copy, on the offset-table ranges with worker_off 0: the buffer keeps its size and at most t segments are sent |
| Allgather.RoundV | src/collective/allgather.cc:69-84 | one round on the result buffer (send subspan (offset[send_rank], sizes[send_rank]), receive into (offset[recv_rank], sizes[recv_rank]), block) advances the variable-size run by exactly one round |
| Allgather.FailedRunV | src/collective/allgather.cc:82-84 | once round f has failed, the outcome of the whole variable-size run is its state after round f |
| Allgather.VarSlot | src/collective/allgather.cc:70-78 | the subspan (offset[i], sizes[i]) is segment i of the variable table and starts at a non-negative offset |
| Allgather.RingAllgatherGathers | src/collective/allgather.cc:25-43 | when every worker starts with the true bytes of its own segment and is fed its predecessor's sends, every worker completes all world rounds with success; it ends with the true bytes below world * segment_size and its own initial bytes at and past that point |
| Allgather.FixedBytes | src/collective/allgather.cc:27-35 | on the clamped table, a byte lies in no segment exactly when it is at or past world * segment_size |
| Allgather.RingAllgatherVGathers | src/collective/allgather.cc:59-86 | when each worker's data is its range of a composite, the local copies fit, and every worker completes all rounds with success; it ends with the composite in its first offset[world] bytes and its original result bytes after them |
| Allgather.VarBytes | src/collective/allgather.cc:59-78 | on the variable table, a byte outside every range is at or past offset[world], where the local copy left the buffer as it was |
| Allgather.PlacedHoldsOwn | src/collective/allgather.cc:63-66 | after the local copies, each worker's own range holds the composite's bytes and every result buffer keeps its size |
| Allgather.PlacedByte | src/collective/allgather.cc:64-66 | a byte of a worker's own range holds, after the local copy, the composite's byte |
| Ring.BlockStatus | src/collective/allgather.cc:36-40 | Block() after RecvAll succeeds exactly when the expected number of bytes arrived; otherwise it is a transfer failure, carrying the connection's message when the connection was lost |
| Ring.Round | src/collective/allgather.cc:26-40 | one loop body sends exactly one segment and keeps the buffer's size; Ring.RoundEffect states what it writes |
| Ring.RoundEffect | src/collective/allgather.cc:26-40 | one round sets the status to Block()'s result and appends the send segment's bytes to what was sent; it writes only the receive slot, and only when the receive succeeds |
| Ring.Rounds | src/collective/allgather.cc:25-41 | after t rounds at most t segments have been sent, exactly t when no Block() failed, and the buffer keeps its size |
| Ring.RoundsSucceed | src/collective/allgather.cc:25-41 | the loop gets through t rounds exactly when each of the first t receives succeeds |
| Ring.FirstFailureStops | src/collective/allgather.cc:37-40 | if round f is the first failed receive, the loop returns that Block() result, has sent f + 1 segments and leaves the buffer as it was before round f |
| Ring.RoundsStayFailed | src/collective/allgather.cc:38-40 | once a round has failed, no later round changes anything |
| Ring.RoundMatches | src/collective/allgather.cc:30-37 | a worker fed its predecessor's send segment succeeds, writes that segment into its receive slot, and sends what its successor expects |
| Ring.LockstepAgrees | src/collective/allgather.cc:25-41 | fed what its predecessor sends, a worker's own loop matches the lockstep group run after every round; each of its sends is exactly what its successor receives |
| Ring.LockstepFinal | src/collective/allgather.cc:25-43 | fed what its predecessor sends, a worker completes all rounds with success, having sent world segments, and ends with its buffer from the group run |
| Ring.InboxIsPredecessorSend | src/collective/allgather.cc:30-37 | ring closure: in the group run, what worker k receives in round r is exactly the segment its predecessor's own loop sends in round r |
| Ring.GroupRoundAt | src/collective/allgather.cc:32-36 | in a lockstep round a worker's byte takes its predecessor's value inside its receive slot and is unchanged outside it |
| Ring.GroupGathers | src/collective/allgather.cc:25-41 | after world lockstep rounds every worker holds the true bytes of every segment and its initial bytes outside all segments |
| Ring.ByteFinal | src/collective/allgather.cc:25-41 | after world rounds the gather invariant gives the true byte inside a segment and the initial byte outside all of them |
| Ring.WorkerGathers | src/collective/allgather.cc:25-43 | fed what its predecessor sends, a worker completes all rounds, with the true bytes of every segment and its own bytes elsewhere |
| Topology.WrapIsMod | src/collective/allgather.cc:26 | reducing an operand below 3 * world by at most two subtractions is its remainder modulo world |
| Topology.SendRank | src/collective/allgather.cc:26 | the send rank of round r lies in [0, world); Topology.SendRankFormula shows it is the source's `%` expression |
| Topology.RecvRank | src/collective/allgather.cc:32 | the receive rank of round r lies in [0, world); Topology.RecvRankFormula shows it is the source's `%` expression |
| Topology.Prev | src/collective/allgather.cc:52 | the assumed BootstrapPrev: a rank in [0, world) |
| Topology.Next | src/collective/allgather.cc:53 | the assumed BootstrapNext: a rank in [0, world) |
| Topology.SendRankFormula | src/collective/allgather.cc:26 | the send rank's operand is non-negative, and the rank is (rank + world - r + worker_off) % world, in [0, world) |
| Topology.RecvRankFormula | src/collective/allgather.cc:32 | the receive rank's operand is non-negative, and the rank is (rank + world - r - 1 + worker_off) % world, in [0, world) |
| Topology.PrevFormula | src/collective/allgather.cc:52 | the previous worker is (rank - 1 + world) % world |
| Topology.NextFormula | src/collective/allgather.cc:53 | the next worker is (rank + 1) % world |
| Topology.NextPrev | src/collective/allgather.cc:52-53 | the previous and next workers are inverse steps in the ring |
| Topology.RingConsistent | src/collective/allgather.cc:26-32 | the segment a worker receives in round r is the one its predecessor sends in round r |
| Topology.Forwards | src/collective/allgather.cc:26-32 | a worker sends in round r + 1 the segment it received in round r |
| Topology.RecvRankInjective | src/collective/allgather.cc:32 | no segment is received in two different rounds |
| Topology.RoundReceiving | src/collective/allgather.cc:25-32 | every segment is received in some round of the world rounds |
| Topology.LastRoundReceivesOwn | src/collective/allgather.cc:26-32 | the last round receives the segment the worker started with |
| Topology.DistOfReceived | src/collective/allgather.cc:26-32 | the segment received in round r had reached the predecessor after r rounds and reaches the receiver after r + 1 |
| Segments.ClampedSegment | src/collective/allgather.cc:27-29 | a clamped segment lies inside the buffer and is at most segment_size long; it is empty at the buffer's end when it would start past it, and it is the full segment when that fits |
| Segments.FixedLayout | src/collective/allgather.cc:27-35 | the fixed table has one clamped segment per rank, world in all, each inside the buffer |
| Segments.Slice | src/collective/allgather.cc:29 | the subspan (off, len): len bytes, byte j being the buffer's byte off + j |
| Segments.Splice | src/collective/allgather.cc:36 | the buffer after a receive into a subspan: [off, off + size of bytes) holds the received bytes and every other byte is kept |
| Segments.ClampedOrdered | src/collective/allgather.cc:27-35 | clamped segments of increasing rank follow one another without overlap |
| Segments.FixedLayoutValid | src/collective/allgather.cc:27-35 | the fixed table is ordered and inside the buffer |
| Segments.FixedCoverage | src/collective/allgather.cc:27-35 | a byte below world * segment_size lies in the segment of rank p / segment_size; a byte at or past it lies in none |
| Segments.OrderedDisjoint | src/collective/allgather.cc:29-35 | two distinct segments of an ordered table share no byte |
| Segments.CopyInto | src/collective/allgather.cc:66 | the copy writes exactly [off, off + size of src) of the buffer with src and leaves the rest unchanged |
| Segments.OffsetsTable | src/collective/allgather.cc:59-61 | offset[0] is 0, offset[i + 1] is offset[i] + sizes[i], and offset[world] is the sum of the sizes |
| Segments.Offsets | src/collective/allgather.cc:59-60 | the offset table has world + 1 entries |
| Segments.OffsetsArePrefixSums | src/collective/allgather.cc:59-60 | offset[i] is the sum of the first i sizes |
| Segments.PrefixOffsets | src/collective/allgather.cc:59-61 | the zero-filled table of world + 1 entries after the partial sum starts at 0, steps by the sizes, and is the offset table |
| Segments.OffsetsUnique | src/collective/allgather.cc:59-61 | any table that starts at 0 and steps by the sizes is the offset table |
| Segments.OffsetsMonotone | src/collective/allgather.cc:59-60 | with non-negative sizes the offset table is non-negative and never decreases |
| Segments.VarLayoutValid | src/collective/allgather.cc:70-78 | the ranges [offset[i], offset[i] + sizes[i]) are ordered, disjoint and inside any buffer of at least offset[world] bytes |
| Segments.VarLayout | src/collective/allgather.cc:70-78 | one range per rank, world in all, each inside the first offset[world] bytes |
| Segments.VarCoverage | src/collective/allgather.cc:59-78 | a byte below offset[world] lies in some rank's range, and a byte at or past it lies in none |

## Left out

- The transport is not modelled: SendAll, RecvAll, Block() and comm.Block() appear only as the `sent` result, the `inbox` parameter and the `groupBlock` parameter. Timeouts, retries and the bytes on the wire are not modelled.
- Concurrency is not modelled. The group outcome is stated for a lockstep run, in which each worker receives in round r what its predecessor sends in round r. Other interleavings of sends and receives are not modelled.
- BootstrapPrev and BootstrapNext are not part of this model. `Prev` and `Next` take them to be (rank - 1 + world) % world and (rank + 1) % world. The channels `prev_ch` and `next_ch` that `RingAllgather` receives are taken to connect those neighbours.
- Allgather.RingAllgather: CHECK_LT(worker_off, world) is a fatal check. In the source it aborts by exception and never returns a Result. The model returns that abort as the value Failure(InvariantViolation, ...), with a placeholder message, so that the case can be stated.
- Allgather.RingAllgather: worker_off is a `nat`. A negative worker_off passes the source's CHECK_LT and can make the `%` operand negative; that case is not modelled.
- Integer widths are not modelled. `rank * segment_size` in `size_t`, the int32 ranks and the int64 offsets are unbounded integers, so overflow is not modelled.
- Allgather.RingAllgather and Allgather.RingRoundsV: a receive that fails writes nothing into the receive slot. The source may leave a partial transfer there; its contents are unspecified.
- Allgather.RingAllgatherV: three inputs are excluded by requires that the source does not check. The sizes must be non-negative. The offset table must fit the result buffer. And offset[rank] + size of data must fit it too, for the subspan of the local copy. A violation makes a subspan abort or misbehave instead of returning a Result.
- Allgather.RingAllgatherV: the CHECK_EQ on offset[0] cannot fail; Segments.OffsetsTable proves offset[0] == 0. The source also does not compare the size of `data` with `sizes[rank]`. The model copies `data` as given, and the gather theorem assumes each worker's data is its own range.
- Allgather.RingAllgatherGathers and Allgather.RingAllgatherVGathers: the last round (r = world - 1) receives again the segment the worker started with. Topology.LastRoundReceivesOwn shows it is the same segment, and Ring.GroupGathers and Ring.WorkerGathers show it is rewritten with the same bytes, given that every worker starts with its own segment; the cost of that extra transfer is not modelled.
- Type erasure (EraseType, Span of int64 sizes) is not modelled; the buffers are byte sequences.
