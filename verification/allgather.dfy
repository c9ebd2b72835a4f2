/**
 * RingAllgather and RingAllgatherV (src/collective/allgather.cc) as the loop one worker runs,
 * over its buffer in place, and the group-level outcome when every worker runs it.
 *
 * The channels are not modelled: what SendAll sends is returned in `sent`, one entry per
 * round, and what RecvAll followed by Block() yields on the previous channel in round r is
 * `inbox[r]`. The final comm.Block() of RingAllgatherV is the parameter `groupBlock`.
 */
module Allgather {
  import opened Topology
  import opened Segments
  import opened Ring

  /** What RingAllgather does to one worker in its first t rounds, once worker_off < world has been checked. */
  function FixedRun(data: seq<int8>, world: nat, rank: nat, segmentSize: nat, workerOff: nat, inbox: seq<Delivery>, t: nat): (s: RingState)
    requires rank < world <= |inbox| && workerOff < world && t <= world
    ensures |s.data| == |data| && |s.sent| <= t
  {
    Rounds(data, FixedLayout(world, segmentSize, |data|), workerOff, rank, inbox, t)
  }

  /**
   * RingAllgather for worker `rank` of `world`: in round r it sends its segment
   * (rank + world - r + worker_off) % world to the next worker and receives segment
   * (rank + world - r - 1 + worker_off) % world from the previous one into its place,
   * segments being clamped to the buffer. It returns the first failed Block() result.
   */
  method RingAllgather(world: nat, rank: nat, data: array<int8>, segmentSize: nat, workerOff: nat, inbox: seq<Delivery>)
    returns (rc: Result, sent: seq<seq<int8>>)
    requires rank < world <= |inbox|
    modifies data
    ensures workerOff >= world ==>
      rc.Failure? && rc.kind == InvariantViolation && sent == [] && data[..] == old(data[..])
    ensures workerOff < world ==>
      var s := FixedRun(old(data[..]), world, rank, segmentSize, workerOff, inbox, world);
      rc == s.status && sent == s.sent && data[..] == s.data
  {
    if workerOff >= world {
      return Failure(InvariantViolation, "worker_off must be less than world"), [];
    }
    ghost var data0 := data[..];
    sent := [];
    var r := 0;
    while r < world
      invariant r <= world
      invariant FixedRun(data0, world, rank, segmentSize, workerOff, inbox, r) == RingState(Success, data[..], sent)
    {
      rc, sent := FixedRound(world, rank, data, segmentSize, workerOff, inbox, r, data0, sent);
      if !rc.OK() {
        FailedFixedRun(data0, world, rank, segmentSize, workerOff, inbox, r + 1);
        return;
      }
      r := r + 1;
    }
    rc := Success;
  }

  /**
   * Round r of RingAllgather's loop: send the clamped segment of send_rank, receive into
   * the clamped segment of recv_rank and block on the receive.
   */
  method FixedRound(world: nat, rank: nat, data: array<int8>, segmentSize: nat, workerOff: nat, inbox: seq<Delivery>, r: nat,
                    ghost data0: seq<int8>, sent: seq<seq<int8>>)
    returns (rc: Result, sent': seq<seq<int8>>)
    requires rank < world <= |inbox| && workerOff < world && r < world && |data0| == data.Length
    requires FixedRun(data0, world, rank, segmentSize, workerOff, inbox, r) == RingState(Success, data[..], sent)
    modifies data
    ensures FixedRun(data0, world, rank, segmentSize, workerOff, inbox, r + 1) == RingState(rc, data[..], sent')
  {
    RoundsStep(data0, FixedLayout(world, segmentSize, data.Length), workerOff, rank, inbox, r, data[..], sent);
    var sendSeg := ClampedSegment(SendRank(rank, world, r, workerOff), segmentSize, data.Length);
    sent' := sent + [Slice(data[..], sendSeg)];
    var recvSeg := ClampedSegment(RecvRank(rank, world, r, workerOff), segmentSize, data.Length);
    rc := BlockStatus(inbox[r], recvSeg.len);
    if rc.OK() {
      CopyInto(data, recvSeg.off, inbox[r].bytes);
    }
  }

  /** A failed round ends the fixed-size run. */
  lemma FailedFixedRun(data0: seq<int8>, world: nat, rank: nat, segmentSize: nat, workerOff: nat, inbox: seq<Delivery>, f: nat)
    requires rank < world <= |inbox| && workerOff < world && f <= world
    requires !FixedRun(data0, world, rank, segmentSize, workerOff, inbox, f).status.OK()
    ensures FixedRun(data0, world, rank, segmentSize, workerOff, inbox, world) == FixedRun(data0, world, rank, segmentSize, workerOff, inbox, f)
  {
    RoundsStayFailed(data0, FixedLayout(world, segmentSize, |data0|), workerOff, rank, inbox, f, world);
  }

  /**
   * The local copy (std::copy_n into the subspan at offset[rank]): the worker's own data
   * lands at [offset[rank], offset[rank] + |data|) and every other byte of the result is kept.
   */
  function LocalCopy(result: seq<int8>, sizes: seq<int>, rank: nat, data: seq<int8>): (r: seq<int8>)
    requires rank < |sizes| && NonNegative(sizes) && Offsets(sizes)[rank] + |data| <= |result|
    ensures |r| == |result|
    ensures forall p :: 0 <= p < |result| ==>
      r[p] == if Offsets(sizes)[rank] <= p < Offsets(sizes)[rank] + |data| then data[p - Offsets(sizes)[rank]] else result[p]
  {
    OffsetsTable(sizes);
    OffsetsMonotone(sizes, 0, rank);
    Splice(result, Offsets(sizes)[rank], data)
  }

  /** Builds the offset table and copies the worker's own data to offset[rank] of the result. */
  method PlaceOwn(sizes: seq<int>, rank: nat, data: seq<int8>, result: array<int8>) returns (offset: seq<int>)
    requires rank < |sizes| && NonNegative(sizes) && Offsets(sizes)[rank] + |data| <= result.Length
    modifies result
    ensures offset == Offsets(sizes)
    ensures result[..] == LocalCopy(old(result[..]), sizes, rank, data)
  {
    offset := PrefixOffsets(sizes);
    OffsetsMonotone(sizes, 0, rank);
    CopyInto(result, offset[rank], data);
  }

  /**
   * What RingAllgatherV does to one worker in the first t rounds after the local copy: the
   * loop over the variable-size ranges given by the offset table of `sizes`, with worker_off 0.
   */
  function VarRun(result: seq<int8>, sizes: seq<int>, rank: nat, inbox: seq<Delivery>, t: nat): (s: RingState)
    requires rank < |sizes| <= |inbox| && NonNegative(sizes) && Sum(sizes) <= |result| && t <= |sizes|
    ensures |s.data| == |result| && |s.sent| <= t
  {
    VarLayoutValid(sizes, |result|);
    Rounds(result, VarLayout(sizes), 0, rank, inbox, t)
  }

  /** A range of the result, as the subspan (offset[i], sizes[i]) of the source. */
  lemma {:induction false} VarSlot(sizes: seq<int>, i: nat)
    requires NonNegative(sizes) && i < |sizes|
    ensures 0 <= Offsets(sizes)[i] && VarLayout(sizes)[i] == Segment(Offsets(sizes)[i], sizes[i])
  {
    OffsetsTable(sizes);
    OffsetsMonotone(sizes, 0, i);
  }

  /**
   * Round r of RingAllgatherV's loop: send the subspan (offset[send_rank], sizes[send_rank]),
   * receive into the subspan (offset[recv_rank], sizes[recv_rank]) and block on the receive.
   */
  method RoundV(rank: nat, sizes: seq<int>, offset: seq<int>, result: array<int8>, inbox: seq<Delivery>, r: nat,
                ghost result0: seq<int8>, sent: seq<seq<int8>>)
    returns (rc: Result, sent': seq<seq<int8>>)
    requires rank < |sizes| && r < |sizes| <= |inbox|
    requires NonNegative(sizes) && Sum(sizes) <= result.Length == |result0| && offset == Offsets(sizes)
    requires VarRun(result0, sizes, rank, inbox, r) == RingState(Success, result[..], sent)
    modifies result
    ensures VarRun(result0, sizes, rank, inbox, r + 1) == RingState(rc, result[..], sent')
  {
    VarLayoutValid(sizes, result.Length);
    RoundsStep(result0, VarLayout(sizes), 0, rank, inbox, r, result[..], sent);
    var sendRank := SendRank(rank, |sizes|, r, 0);
    VarSlot(sizes, sendRank);
    sent' := sent + [Slice(result[..], Segment(offset[sendRank], sizes[sendRank]))];
    var recvRank := RecvRank(rank, |sizes|, r, 0);
    VarSlot(sizes, recvRank);
    rc := BlockStatus(inbox[r], sizes[recvRank]);
    if rc.OK() {
      CopyInto(result, offset[recvRank], inbox[r].bytes);
    }
  }

  /** The round loop of RingAllgatherV, on the result buffer after the local copy. */
  method RingRoundsV(world: nat, rank: nat, sizes: seq<int>, offset: seq<int>, result: array<int8>, inbox: seq<Delivery>)
    returns (rc: Result, sent: seq<seq<int8>>)
    requires rank < world == |sizes| <= |inbox|
    requires NonNegative(sizes) && Sum(sizes) <= result.Length && offset == Offsets(sizes)
    modifies result
    ensures var s := VarRun(old(result[..]), sizes, rank, inbox, |sizes|);
      rc == s.status && sent == s.sent && result[..] == s.data
  {
    ghost var result0 := result[..];
    sent := [];
    var r := 0;
    while r < world
      invariant r <= world
      invariant VarRun(result0, sizes, rank, inbox, r) == RingState(Success, result[..], sent)
    {
      rc, sent := RoundV(rank, sizes, offset, result, inbox, r, result0, sent);
      if !rc.OK() {
        FailedRunV(result0, sizes, rank, inbox, r + 1);
        return;
      }
      r := r + 1;
    }
    rc := Success;
  }

  /** A failed round ends the variable-size run. */
  lemma FailedRunV(result0: seq<int8>, sizes: seq<int>, rank: nat, inbox: seq<Delivery>, f: nat)
    requires rank < |sizes| <= |inbox| && NonNegative(sizes) && Sum(sizes) <= |result0| && f <= |sizes|
    requires !VarRun(result0, sizes, rank, inbox, f).status.OK()
    ensures VarRun(result0, sizes, rank, inbox, |sizes|) == VarRun(result0, sizes, rank, inbox, f)
  {
    RoundsStayFailed(result0, VarLayout(sizes), 0, rank, inbox, f, |sizes|);
  }

  /**
   * RingAllgatherV for worker `rank`: build the offset table, copy the worker's own data to
   * offset[rank], then run the ring over the ranges [offset[i], offset[i] + sizes[i]) with
   * worker_off 0; on success the result is that of comm.Block().
   */
  method RingAllgatherV(world: nat, rank: nat, sizes: seq<int>, data: seq<int8>, result: array<int8>,
                        inbox: seq<Delivery>, groupBlock: Result)
    returns (rc: Result, sent: seq<seq<int8>>)
    requires rank < world == |sizes| <= |inbox|
    requires NonNegative(sizes) && Sum(sizes) <= result.Length
    requires Offsets(sizes)[rank] + |data| <= result.Length
    modifies result
    ensures var s := VarRun(LocalCopy(old(result[..]), sizes, rank, data), sizes, rank, inbox, |sizes|);
      && rc == (if s.status.OK() then groupBlock else s.status)
      && sent == s.sent
      && result[..] == s.data
  {
    var offset := PlaceOwn(sizes, rank, data, result);
    rc, sent := RingRoundsV(world, rank, sizes, offset, result, inbox);
    if rc.OK() {
      rc := groupBlock;
    }
  }

  // ---------------------------------------------------------------------------
  // The whole group
  // ---------------------------------------------------------------------------

  /**
   * RingAllgather's outcome: if every worker k starts with the true bytes of its own segment
   * (k + worker_off) % world and is fed what its predecessor sends, every worker gets through
   * all rounds, and ends with the true bytes below world * segment_size and its own bytes
   * above (a tail no segment covers).
   */
  lemma {:induction false} RingAllgatherGathers(init: seq<seq<int8>>, truth: seq<int8>, segmentSize: nat, workerOff: nat, k: nat)
    requires 0 < |init| && workerOff < |init| && k < |init| && Uniform(init, |truth|)
    requires HoldsOwn(init, truth, FixedLayout(|init|, segmentSize, |truth|), workerOff)
    ensures var s := FixedRun(init[k], |init|, k, segmentSize, workerOff,
                              GroupInbox(init, FixedLayout(|init|, segmentSize, |truth|), workerOff, |truth|, k), |init|);
      && s.status == Success
      && |s.sent| == |init|
      && forall p :: 0 <= p < |truth| ==> s.data[p] == if p < |init| * segmentSize then truth[p] else init[k][p]
  {
    var segs := FixedLayout(|init|, segmentSize, |truth|);
    FixedLayoutValid(|init|, segmentSize, |truth|);
    WorkerGathers(init, truth, segs, workerOff, k);
    var s := Rounds(init[k], segs, workerOff, k, GroupInbox(init, segs, workerOff, |truth|, k), |segs|);
    FixedBytes(s.data, init[k], truth, |init|, segmentSize);
  }

  /** On the fixed table, "outside every segment" is "at or past world * segment_size". */
  lemma {:induction false} FixedBytes(fin: seq<int8>, start: seq<int8>, truth: seq<int8>, world: nat, segmentSize: nat)
    requires |fin| == |start| == |truth|
    requires forall p :: 0 <= p < |truth| ==>
      fin[p] == if Uncovered(FixedLayout(world, segmentSize, |truth|), p) then start[p] else truth[p]
    ensures forall p :: 0 <= p < |truth| ==> fin[p] == if p < world * segmentSize then truth[p] else start[p]
  {
    forall p | 0 <= p < |truth| ensures fin[p] == if p < world * segmentSize then truth[p] else start[p] {
      FixedCoverage(world, segmentSize, |truth|, p);
    }
  }

  /** Every worker's result buffer after its local copy. */
  function Placed(result0: seq<seq<int8>>, sizes: seq<int>, datas: seq<seq<int8>>): (init: seq<seq<int8>>)
    requires |result0| == |sizes| == |datas| && NonNegative(sizes)
    requires forall k :: 0 <= k < |sizes| ==> Offsets(sizes)[k] + |datas[k]| <= |result0[k]|
    ensures |init| == |sizes|
    ensures forall k :: 0 <= k < |sizes| ==> init[k] == LocalCopy(result0[k], sizes, k, datas[k])
  {
    seq(|sizes|, k requires 0 <= k < |sizes| => LocalCopy(result0[k], sizes, k, datas[k]))
  }

  /**
   * RingAllgatherV's outcome: if worker k contributes the bytes of one composite `truth`
   * at [offset[k], offset[k] + sizes[k]) and is fed what its predecessor sends, every worker
   * gets through all rounds and ends with the composite in its first offset[world] bytes,
   * the rest of its result buffer untouched.
   */
  lemma {:induction false} RingAllgatherVGathers(result0: seq<seq<int8>>, sizes: seq<int>, datas: seq<seq<int8>>, truth: seq<int8>, k: nat)
    requires 0 < |sizes| && |result0| == |sizes| == |datas| && k < |sizes|
    requires NonNegative(sizes) && Sum(sizes) <= |truth| && Uniform(result0, |truth|)
    requires forall i :: 0 <= i < |sizes| ==> datas[i] == Slice(truth, VarLayout(sizes)[i])
    ensures forall i :: 0 <= i < |sizes| ==> Offsets(sizes)[i] + |datas[i]| <= |result0[i]|
    ensures var init := Placed(result0, sizes, datas);
      var s := VarRun(init[k], sizes, k, GroupInbox(init, VarLayout(sizes), 0, |truth|, k), |sizes|);
      && s.status == Success
      && |s.sent| == |sizes|
      && forall p :: 0 <= p < |truth| ==> s.data[p] == if p < Sum(sizes) then truth[p] else result0[k][p]
  {
    var segs := VarLayout(sizes);
    VarLayoutValid(sizes, |truth|);
    forall i | 0 <= i < |sizes| ensures Offsets(sizes)[i] + |datas[i]| <= |result0[i]| {
      VarSlot(sizes, i);
    }
    var init := Placed(result0, sizes, datas);
    PlacedHoldsOwn(result0, sizes, datas, truth);
    WorkerGathers(init, truth, segs, 0, k);
    var s := Rounds(init[k], segs, 0, k, GroupInbox(init, segs, 0, |truth|, k), |segs|);
    VarBytes(s.data, result0[k], sizes, k, datas[k], truth);
  }

  /**
   * On the variable table, "outside every range" is "at or past offset[world]", and there
   * the local copy left the result buffer as it was.
   */
  lemma {:induction false} VarBytes(fin: seq<int8>, result0: seq<int8>, sizes: seq<int>, k: nat, data: seq<int8>, truth: seq<int8>)
    requires k < |sizes| && NonNegative(sizes) && Sum(sizes) <= |truth| == |result0| == |fin|
    requires data == Slice(truth, VarLayout(sizes)[k])
    requires forall p :: 0 <= p < |truth| ==>
      fin[p] == if Uncovered(VarLayout(sizes), p) then LocalCopy(result0, sizes, k, data)[p] else truth[p]
    ensures forall p :: 0 <= p < |truth| ==> fin[p] == if p < Sum(sizes) then truth[p] else result0[p]
  {
    VarSlot(sizes, k);
    OffsetsTable(sizes);
    OffsetsMonotone(sizes, k + 1, |sizes|);
    forall p | 0 <= p < |truth| ensures fin[p] == if p < Sum(sizes) then truth[p] else result0[p] {
      VarCoverage(sizes, p);
    }
  }

  /** After the local copies, every worker holds the composite's bytes of its own range. */
  lemma {:induction false} PlacedHoldsOwn(result0: seq<seq<int8>>, sizes: seq<int>, datas: seq<seq<int8>>, truth: seq<int8>)
    requires 0 < |sizes| && |result0| == |sizes| == |datas|
    requires NonNegative(sizes) && Sum(sizes) <= |truth| && Uniform(result0, |truth|)
    requires forall i :: 0 <= i < |sizes| ==> datas[i] == Slice(truth, VarLayout(sizes)[i])
    ensures forall i :: 0 <= i < |sizes| ==> Offsets(sizes)[i] + |datas[i]| <= |result0[i]|
    ensures Uniform(Placed(result0, sizes, datas), |truth|)
    ensures HoldsOwn(Placed(result0, sizes, datas), truth, VarLayout(sizes), 0)
  {
    var w := |sizes|;
    var segs := VarLayout(sizes);
    forall i | 0 <= i < w ensures Offsets(sizes)[i] + |datas[i]| <= |result0[i]| {
      VarSlot(sizes, i);
    }
    var init := Placed(result0, sizes, datas);
    forall k, p | 0 <= k < w && 0 <= p < |truth| && segs[SendRank(k, w, 0, 0)].Contains(p)
      ensures init[k][p] == truth[p]
    {
      assert SendRank(k, w, 0, 0) == k;
      PlacedByte(result0[k], sizes, k, datas[k], truth, p);
    }
  }

  /** A worker's own range, after its local copy, holds the composite's bytes. */
  lemma {:induction false} PlacedByte(result0: seq<int8>, sizes: seq<int>, k: nat, data: seq<int8>, truth: seq<int8>, p: nat)
    requires k < |sizes| && NonNegative(sizes) && Sum(sizes) <= |truth| == |result0|
    requires data == Slice(truth, VarLayout(sizes)[k]) && VarLayout(sizes)[k].Contains(p)
    ensures Offsets(sizes)[k] + |data| <= |result0|
    ensures LocalCopy(result0, sizes, k, data)[p] == truth[p]
  {
    VarSlot(sizes, k);
  }
}
