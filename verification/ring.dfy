/**
 * The round loop shared by RingAllgather and RingAllgatherV, over a segment table `segs`
 * (one segment per rank): per worker, as a function of its buffer and of what its
 * previous channel delivers; and for the whole group, as a lockstep simulation in which
 * every worker receives in round r what its predecessor sends in round r.
 */
module Ring {
  import opened Topology
  import opened Segments

  datatype ErrorKind = InvariantViolation | TransferFailure

  /** collective::Result: success, or a failure with a kind and a message. */
  datatype Result = Success | Failure(kind: ErrorKind, message: string) {
    predicate OK() { Success? }
  }

  /**
   * What the previous channel yields for one RecvAll: the bytes that arrived, or a broken
   * connection (peer gone, timeout) with its message.
   */
  datatype Delivery = Delivered(bytes: seq<int8>) | Lost(message: string)

  /**
   * prev_ch->Block() after RecvAll of `expected` bytes: success exactly when that many
   * bytes were delivered; a transfer failure otherwise.
   */
  function BlockStatus(d: Delivery, expected: nat): (rc: Result)
    ensures rc.OK() <==> d.Delivered? && |d.bytes| == expected
    ensures !rc.OK() ==> rc.kind == TransferFailure
    ensures d.Lost? ==> rc == Failure(TransferFailure, d.message)
  {
    match d
    case Lost(msg) => Failure(TransferFailure, msg)
    case Delivered(bytes) =>
      if |bytes| == expected then Success else Failure(TransferFailure, "incomplete transfer")
  }

  /** One worker's state: the last Block() result, its buffer, and what it has sent so far. */
  datatype RingState = RingState(status: Result, data: seq<int8>, sent: seq<seq<int8>>)

  /** A segment table usable by a world of |segs| workers over buffers of n bytes. */
  predicate Schedule(segs: seq<Segment>, workerOff: nat, n: nat) {
    0 < |segs| && workerOff < |segs| && InBounds(segs, n)
  }

  /** The slot worker `rank` receives into in round r. */
  function RecvSlot(segs: seq<Segment>, workerOff: nat, rank: nat, r: nat): Segment
    requires 0 < |segs| && workerOff < |segs| && rank < |segs| && r < |segs|
  {
    segs[RecvRank(rank, |segs|, r, workerOff)]
  }

  /** The segment worker `rank` sends in round r. */
  function SendSlot(segs: seq<Segment>, workerOff: nat, rank: nat, r: nat): Segment
    requires 0 < |segs| && workerOff < |segs| && rank < |segs| && r < |segs|
  {
    segs[SendRank(rank, |segs|, r, workerOff)]
  }

  /**
   * Round r of worker `rank`: send the send segment to the next worker, receive into the
   * receive slot from the previous one, and block on the receive.
   */
  function Round(s: RingState, segs: seq<Segment>, workerOff: nat, rank: nat, d: Delivery, r: nat): (s': RingState)
    requires Schedule(segs, workerOff, |s.data|) && rank < |segs| && r < |segs|
    ensures |s'.data| == |s.data| && |s'.sent| == |s.sent| + 1
  {
    var out := Slice(s.data, SendSlot(segs, workerOff, rank, r));
    var slot := RecvSlot(segs, workerOff, rank, r);
    var rc := BlockStatus(d, slot.len);
    if rc.OK() then RingState(Success, Splice(s.data, slot.off, d.bytes), s.sent + [out])
    else RingState(rc, s.data, s.sent + [out])
  }

  /**
   * What one round changes: the status is the Block() result of the receive, the send
   * segment is appended to what was sent, and only bytes of the receive slot are written,
   * and those only when the receive succeeded.
   */
  lemma RoundEffect(s: RingState, segs: seq<Segment>, workerOff: nat, rank: nat, d: Delivery, r: nat)
    requires Schedule(segs, workerOff, |s.data|) && rank < |segs| && r < |segs|
    ensures var s' := Round(s, segs, workerOff, rank, d, r);
      var slot := RecvSlot(segs, workerOff, rank, r);
      && s'.status == BlockStatus(d, slot.len)
      && s'.sent == s.sent + [Slice(s.data, SendSlot(segs, workerOff, rank, r))]
      && forall p :: 0 <= p < |s.data| ==>
           s'.data[p] == if s'.status.OK() && slot.Contains(p) then d.bytes[p - slot.off] else s.data[p]
  {
  }

  /** Worker `rank` after the first t rounds of the loop, stopping at the first failed Block(). */
  function Rounds(data: seq<int8>, segs: seq<Segment>, workerOff: nat, rank: nat, inbox: seq<Delivery>, t: nat): (s: RingState)
    requires Schedule(segs, workerOff, |data|) && rank < |segs| && t <= |segs| <= |inbox|
    ensures |s.data| == |data| && |s.sent| <= t
    ensures s.status.OK() ==> |s.sent| == t
    decreases t
  {
    if t == 0 then RingState(Success, data, [])
    else
      var s := Rounds(data, segs, workerOff, rank, inbox, t - 1);
      if !s.status.OK() then s else Round(s, segs, workerOff, rank, inbox[t - 1], t - 1)
  }

  /** The receive of round r succeeds. */
  predicate Received(segs: seq<Segment>, workerOff: nat, rank: nat, inbox: seq<Delivery>, r: nat)
    requires 0 < |segs| && workerOff < |segs| && rank < |segs| && r < |segs| <= |inbox|
  {
    BlockStatus(inbox[r], RecvSlot(segs, workerOff, rank, r).len).OK()
  }

  /** The loop gets through t rounds exactly when each of their receives succeeds. */
  lemma {:induction false} RoundsSucceed(data: seq<int8>, segs: seq<Segment>, workerOff: nat, rank: nat, inbox: seq<Delivery>, t: nat)
    requires Schedule(segs, workerOff, |data|) && rank < |segs| && t <= |segs| <= |inbox|
    ensures Rounds(data, segs, workerOff, rank, inbox, t).status.OK() <==>
      forall r :: 0 <= r < t ==> Received(segs, workerOff, rank, inbox, r)
    decreases t
  {
    if t > 0 {
      RoundsSucceed(data, segs, workerOff, rank, inbox, t - 1);
      var s := Rounds(data, segs, workerOff, rank, inbox, t - 1);
      if s.status.OK() {
        var slot := RecvSlot(segs, workerOff, rank, t - 1);
        assert Rounds(data, segs, workerOff, rank, inbox, t).status == BlockStatus(inbox[t - 1], slot.len);
        assert Rounds(data, segs, workerOff, rank, inbox, t).status.OK() <==> Received(segs, workerOff, rank, inbox, t - 1);
      } else {
        assert Rounds(data, segs, workerOff, rank, inbox, t) == s;
      }
    }
  }

  /**
   * Failure short-circuit: if round f is the first whose receive fails, the loop returns
   * that Block() result unchanged, has sent f + 1 segments, runs no later round, and its
   * buffer is the one it had before round f.
   */
  lemma {:induction false} FirstFailureStops(data: seq<int8>, segs: seq<Segment>, workerOff: nat, rank: nat, inbox: seq<Delivery>, f: nat, t: nat)
    requires Schedule(segs, workerOff, |data|) && rank < |segs| && f < t <= |segs| <= |inbox|
    requires forall r :: 0 <= r < f ==> Received(segs, workerOff, rank, inbox, r)
    requires !Received(segs, workerOff, rank, inbox, f)
    ensures var s := Rounds(data, segs, workerOff, rank, inbox, t);
      && s.status == BlockStatus(inbox[f], RecvSlot(segs, workerOff, rank, f).len)
      && !s.status.OK()
      && |s.sent| == f + 1
      && s.data == Rounds(data, segs, workerOff, rank, inbox, f).data
    decreases t
  {
    RoundsSucceed(data, segs, workerOff, rank, inbox, f);
    if t > f + 1 {
      FirstFailureStops(data, segs, workerOff, rank, inbox, f, t - 1);
    }
  }

  /** Once a round has failed, running the loop further changes nothing. */
  lemma {:induction false} RoundsStayFailed(data: seq<int8>, segs: seq<Segment>, workerOff: nat, rank: nat, inbox: seq<Delivery>, f: nat, t: nat)
    requires Schedule(segs, workerOff, |data|) && rank < |segs| && f <= t <= |segs| <= |inbox|
    requires !Rounds(data, segs, workerOff, rank, inbox, f).status.OK()
    ensures Rounds(data, segs, workerOff, rank, inbox, t) == Rounds(data, segs, workerOff, rank, inbox, f)
    decreases t
  {
    if t > f {
      RoundsStayFailed(data, segs, workerOff, rank, inbox, f, t - 1);
    }
  }

  // ---------------------------------------------------------------------------
  // Lockstep simulation of the whole group
  // ---------------------------------------------------------------------------

  /** One buffer of n bytes per worker. */
  predicate Uniform(bufs: seq<seq<int8>>, n: nat) {
    forall k :: 0 <= k < |bufs| ==> |bufs[k]| == n
  }

  /** What worker k's predecessor sends in round r, read from the buffers at the start of the round. */
  function Forwarded(bufs: seq<seq<int8>>, segs: seq<Segment>, workerOff: nat, n: nat, k: nat, r: nat): (b: seq<int8>)
    requires Schedule(segs, workerOff, n) && |bufs| == |segs| && Uniform(bufs, n) && k < |segs| && r < |segs|
    ensures |b| == RecvSlot(segs, workerOff, k, r).len
  {
    RingConsistent(k, |segs|, r, workerOff);
    Slice(bufs[Prev(k, |segs|)], SendSlot(segs, workerOff, Prev(k, |segs|), r))
  }

  /** Worker k's buffer after lockstep round r: its predecessor's send segment copied into its receive slot. */
  function WorkerRound(bufs: seq<seq<int8>>, segs: seq<Segment>, workerOff: nat, n: nat, k: nat, r: nat): (b: seq<int8>)
    requires Schedule(segs, workerOff, n) && |bufs| == |segs| && Uniform(bufs, n) && k < |segs| && r < |segs|
    ensures |b| == n
  {
    Splice(bufs[k], RecvSlot(segs, workerOff, k, r).off, Forwarded(bufs, segs, workerOff, n, k, r))
  }

  /** The buffers of workers 0 .. m - 1 after lockstep round r. */
  function RoundPrefix(bufs: seq<seq<int8>>, segs: seq<Segment>, workerOff: nat, n: nat, r: nat, m: nat): (out: seq<seq<int8>>)
    requires Schedule(segs, workerOff, n) && |bufs| == |segs| && Uniform(bufs, n) && r < |segs| && m <= |segs|
    ensures |out| == m && Uniform(out, n)
    decreases m
  {
    if m == 0 then []
    else RoundPrefix(bufs, segs, workerOff, n, r, m - 1) + [WorkerRound(bufs, segs, workerOff, n, m - 1, r)]
  }

  lemma {:induction false} RoundPrefixAt(bufs: seq<seq<int8>>, segs: seq<Segment>, workerOff: nat, n: nat, r: nat, m: nat, k: nat)
    requires Schedule(segs, workerOff, n) && |bufs| == |segs| && Uniform(bufs, n) && r < |segs| && k < m <= |segs|
    ensures RoundPrefix(bufs, segs, workerOff, n, r, m)[k] == WorkerRound(bufs, segs, workerOff, n, k, r)
    decreases m
  {
    if k < m - 1 {
      RoundPrefixAt(bufs, segs, workerOff, n, r, m - 1, k);
    }
  }

  /** Round r for every worker at once: each copies its predecessor's send segment into its receive slot. */
  function GroupRound(bufs: seq<seq<int8>>, segs: seq<Segment>, workerOff: nat, n: nat, r: nat): (bufs': seq<seq<int8>>)
    requires Schedule(segs, workerOff, n) && |bufs| == |segs| && Uniform(bufs, n) && r < |segs|
    ensures |bufs'| == |bufs| && Uniform(bufs', n)
  {
    RoundPrefix(bufs, segs, workerOff, n, r, |bufs|)
  }

  /** The group's buffers after t lockstep rounds in which every receive succeeds. */
  function GroupRounds(init: seq<seq<int8>>, segs: seq<Segment>, workerOff: nat, n: nat, t: nat): (bufs: seq<seq<int8>>)
    requires Schedule(segs, workerOff, n) && |init| == |segs| && Uniform(init, n) && t <= |segs|
    ensures |bufs| == |init| && Uniform(bufs, n)
    decreases t
  {
    if t == 0 then init
    else GroupRound(GroupRounds(init, segs, workerOff, n, t - 1), segs, workerOff, n, t - 1)
  }

  /** What worker k's previous channel delivers in each round of the lockstep run. */
  function GroupInbox(init: seq<seq<int8>>, segs: seq<Segment>, workerOff: nat, n: nat, k: nat): (inbox: seq<Delivery>)
    requires Schedule(segs, workerOff, n) && |init| == |segs| && Uniform(init, n) && k < |segs|
    ensures |inbox| == |segs|
  {
    seq(|segs|, r requires 0 <= r < |segs| =>
      Delivered(Forwarded(GroupRounds(init, segs, workerOff, n, r), segs, workerOff, n, k, r)))
  }

  /** Round t - 1 is the last of the first t rounds when the loop got through the earlier ones. */
  lemma {:induction false} RoundsLast(data: seq<int8>, segs: seq<Segment>, workerOff: nat, rank: nat, inbox: seq<Delivery>, t: nat)
    requires Schedule(segs, workerOff, |data|) && rank < |segs| && 0 < t <= |segs| <= |inbox|
    requires Rounds(data, segs, workerOff, rank, inbox, t - 1).status.OK()
    ensures Rounds(data, segs, workerOff, rank, inbox, t) ==
      Round(Rounds(data, segs, workerOff, rank, inbox, t - 1), segs, workerOff, rank, inbox[t - 1], t - 1)
  {
  }

  /**
   * Round t of a loop that got through the first t rounds with buffer `buf`, spelled out:
   * the send segment is appended to what was sent, and the receive slot is written when
   * Block() succeeds.
   */
  lemma {:induction false} RoundsStep(data: seq<int8>, segs: seq<Segment>, workerOff: nat, rank: nat, inbox: seq<Delivery>, t: nat,
                                      buf: seq<int8>, sent: seq<seq<int8>>)
    requires Schedule(segs, workerOff, |data|) && rank < |segs| && t < |segs| <= |inbox|
    requires Rounds(data, segs, workerOff, rank, inbox, t) == RingState(Success, buf, sent)
    ensures var send := SendSlot(segs, workerOff, rank, t);
      var recv := RecvSlot(segs, workerOff, rank, t);
      var rc := BlockStatus(inbox[t], recv.len);
      && send.End() <= |buf| && recv.End() <= |buf|
      && Rounds(data, segs, workerOff, rank, inbox, t + 1) ==
         if rc.OK() then RingState(Success, Splice(buf, recv.off, inbox[t].bytes), sent + [Slice(buf, send)])
         else RingState(rc, buf, sent + [Slice(buf, send)])
  {
    RoundsLast(data, segs, workerOff, rank, inbox, t + 1);
  }

  /** Worker k's buffer after t rounds of the group run is its buffer after t - 1, advanced by round t - 1. */
  lemma {:induction false} GroupRoundsWorker(init: seq<seq<int8>>, segs: seq<Segment>, workerOff: nat, n: nat, k: nat, t: nat)
    requires Schedule(segs, workerOff, n) && |init| == |segs| && Uniform(init, n) && k < |segs| && 0 < t <= |segs|
    ensures GroupRounds(init, segs, workerOff, n, t)[k] ==
      WorkerRound(GroupRounds(init, segs, workerOff, n, t - 1), segs, workerOff, n, k, t - 1)
  {
    GroupRoundsLast(init, segs, workerOff, n, t);
    RoundPrefixAt(GroupRounds(init, segs, workerOff, n, t - 1), segs, workerOff, n, t - 1, |segs|, k);
  }

  /** What worker k's previous channel delivers in round r of the group run. */
  lemma {:induction false} GroupInboxAt(init: seq<seq<int8>>, segs: seq<Segment>, workerOff: nat, n: nat, k: nat, r: nat)
    requires Schedule(segs, workerOff, n) && |init| == |segs| && Uniform(init, n) && k < |segs| && r < |segs|
    ensures GroupInbox(init, segs, workerOff, n, k)[r] ==
      Delivered(Forwarded(GroupRounds(init, segs, workerOff, n, r), segs, workerOff, n, k, r))
  {
  }

  /**
   * One round of the per-worker loop, fed with what the predecessor sends, does what the
   * lockstep round does to worker k, and sends what the successor receives.
   */
  lemma {:induction false} RoundMatches(s: RingState, bufs: seq<seq<int8>>, segs: seq<Segment>, workerOff: nat, n: nat, k: nat, r: nat)
    requires Schedule(segs, workerOff, n) && |bufs| == |segs| && Uniform(bufs, n) && k < |segs| && r < |segs|
    requires s.data == bufs[k]
    ensures Round(s, segs, workerOff, k, Delivered(Forwarded(bufs, segs, workerOff, n, k, r)), r) ==
      RingState(Success, WorkerRound(bufs, segs, workerOff, n, k, r),
        s.sent + [Forwarded(bufs, segs, workerOff, n, Next(k, |segs|), r)])
  {
    NextPrev(k, |segs|);
  }

  /**
   * Worker state s after t rounds matches the group run: every receive succeeded, the
   * buffer is `buf`, and what it sent in round r is what its successor got in round r.
   */
  predicate InStep(s: RingState, buf: seq<int8>, succInbox: seq<Delivery>, t: nat) {
    && s.status == Success
    && s.data == buf
    && |s.sent| == t <= |succInbox|
    && forall r :: 0 <= r < t ==> succInbox[r].Delivered? && s.sent[r] == succInbox[r].bytes
  }

  /** Sending what the successor gets in round t keeps a worker in step for one more round. */
  lemma {:induction false} InStepNext(prior: RingState, s: RingState, buf: seq<int8>, succInbox: seq<Delivery>, t: nat)
    requires t < |succInbox| && succInbox[t].Delivered?
    requires InStep(prior, prior.data, succInbox, t)
    requires s == RingState(Success, buf, prior.sent + [succInbox[t].bytes])
    ensures InStep(s, buf, succInbox, t + 1)
  {
    forall r | 0 <= r < t + 1 ensures s.sent[r] == succInbox[r].bytes {
      if r < t {
        assert s.sent[r] == prior.sent[r];
      }
    }
  }

  /** Worker k stays in step with the group run from round t - 1 to round t. */
  lemma {:induction false} LockstepNext(init: seq<seq<int8>>, segs: seq<Segment>, workerOff: nat, n: nat, k: nat, t: nat)
    requires Schedule(segs, workerOff, n) && |init| == |segs| && Uniform(init, n) && k < |segs| && 0 < t <= |segs|
    requires InStep(Rounds(init[k], segs, workerOff, k, GroupInbox(init, segs, workerOff, n, k), t - 1),
      GroupRounds(init, segs, workerOff, n, t - 1)[k], GroupInbox(init, segs, workerOff, n, Next(k, |segs|)), t - 1)
    ensures InStep(Rounds(init[k], segs, workerOff, k, GroupInbox(init, segs, workerOff, n, k), t),
      GroupRounds(init, segs, workerOff, n, t)[k], GroupInbox(init, segs, workerOff, n, Next(k, |segs|)), t)
  {
    var inbox := GroupInbox(init, segs, workerOff, n, k);
    var succInbox := GroupInbox(init, segs, workerOff, n, Next(k, |segs|));
    var bufs := GroupRounds(init, segs, workerOff, n, t - 1);
    var prior := Rounds(init[k], segs, workerOff, k, inbox, t - 1);
    RoundsLast(init[k], segs, workerOff, k, inbox, t);
    GroupInboxAt(init, segs, workerOff, n, k, t - 1);
    RoundMatches(prior, bufs, segs, workerOff, n, k, t - 1);
    GroupRoundsWorker(init, segs, workerOff, n, k, t);
    GroupInboxAt(init, segs, workerOff, n, Next(k, |segs|), t - 1);
    InStepNext(prior, Rounds(init[k], segs, workerOff, k, inbox, t), GroupRounds(init, segs, workerOff, n, t)[k], succInbox, t - 1);
  }

  /**
   * The per-worker loop and the lockstep simulation agree: fed with what its predecessor
   * sends, worker k gets through every round, its buffer is its buffer in the group run,
   * and what it sends in round r is what its successor receives in round r.
   */
  lemma {:induction false} LockstepAgrees(init: seq<seq<int8>>, segs: seq<Segment>, workerOff: nat, n: nat, k: nat, t: nat)
    requires Schedule(segs, workerOff, n) && |init| == |segs| && Uniform(init, n) && k < |segs| && t <= |segs|
    ensures InStep(Rounds(init[k], segs, workerOff, k, GroupInbox(init, segs, workerOff, n, k), t),
      GroupRounds(init, segs, workerOff, n, t)[k], GroupInbox(init, segs, workerOff, n, Next(k, |segs|)), t)
    decreases t
  {
    if t == 0 {
      LockstepStart(init, segs, workerOff, n, k);
    } else {
      LockstepAgrees(init, segs, workerOff, n, k, t - 1);
      LockstepNext(init, segs, workerOff, n, k, t);
    }
  }

  /**
   * Ring closure: in the group run, what reaches worker k in round r is exactly what its
   * predecessor's own loop sends in round r.
   */
  lemma {:induction false} InboxIsPredecessorSend(init: seq<seq<int8>>, segs: seq<Segment>, workerOff: nat, n: nat, k: nat, r: nat)
    requires Schedule(segs, workerOff, n) && |init| == |segs| && Uniform(init, n) && k < |segs| && r < |segs|
    ensures var p := Prev(k, |segs|);
      var pred := Rounds(init[p], segs, workerOff, p, GroupInbox(init, segs, workerOff, n, p), |segs|);
      r < |pred.sent| && GroupInbox(init, segs, workerOff, n, k)[r] == Delivered(pred.sent[r])
  {
    LockstepAgrees(init, segs, workerOff, n, Prev(k, |segs|), |segs|);
    NextPrev(k, |segs|);
  }

  /** After all `world` rounds, worker k's loop has succeeded and holds its group-run buffer. */
  lemma {:induction false} LockstepFinal(init: seq<seq<int8>>, segs: seq<Segment>, workerOff: nat, n: nat, k: nat)
    requires Schedule(segs, workerOff, n) && |init| == |segs| && Uniform(init, n) && k < |segs|
    ensures var s := Rounds(init[k], segs, workerOff, k, GroupInbox(init, segs, workerOff, n, k), |segs|);
      s.status == Success && |s.sent| == |segs| && s.data == GroupRounds(init, segs, workerOff, n, |segs|)[k]
  {
    LockstepAgrees(init, segs, workerOff, n, k, |segs|);
  }

  /** Before the first round every worker is trivially in step. */
  lemma {:induction false} LockstepStart(init: seq<seq<int8>>, segs: seq<Segment>, workerOff: nat, n: nat, k: nat)
    requires Schedule(segs, workerOff, n) && |init| == |segs| && Uniform(init, n) && k < |segs|
    ensures InStep(Rounds(init[k], segs, workerOff, k, GroupInbox(init, segs, workerOff, n, k), 0),
      GroupRounds(init, segs, workerOff, n, 0)[k], GroupInbox(init, segs, workerOff, n, Next(k, |segs|)), 0)
  {
  }

  /** Worker k starts with the true bytes of the segment it owns, SendRank(k, 0). */
  predicate HoldsOwn(init: seq<seq<int8>>, truth: seq<int8>, segs: seq<Segment>, workerOff: nat)
    requires 0 < |segs| && workerOff < |segs| && |init| == |segs| && InBounds(segs, |truth|)
    requires forall k :: 0 <= k < |init| ==> |init[k]| == |truth|
  {
    forall k, p :: 0 <= k < |segs| && 0 <= p < |truth| && segs[SendRank(k, |segs|, 0, workerOff)].Contains(p) ==>
      init[k][p] == truth[p]
  }

  /**
   * Lockstep round r at byte level: worker k's byte p becomes its predecessor's byte p when
   * p lies in k's receive slot, and is left as it was otherwise.
   */
  lemma {:induction false} GroupRoundAt(bufs: seq<seq<int8>>, segs: seq<Segment>, workerOff: nat, n: nat, r: nat, k: nat, p: nat)
    requires Schedule(segs, workerOff, n) && |bufs| == |segs| && Uniform(bufs, n) && r < |segs|
    requires k < |segs| && p < n
    ensures GroupRound(bufs, segs, workerOff, n, r)[k][p] ==
      if RecvSlot(segs, workerOff, k, r).Contains(p) then bufs[Prev(k, |segs|)][p] else bufs[k][p]
  {
    var slot := RecvSlot(segs, workerOff, k, r);
    var fwd := Forwarded(bufs, segs, workerOff, n, k, r);
    RingConsistent(k, |segs|, r, workerOff);
    RoundPrefixAt(bufs, segs, workerOff, n, r, |bufs|, k);
    assert GroupRound(bufs, segs, workerOff, n, r)[k] == Splice(bufs[k], slot.off, fwd);
    if slot.Contains(p) {
      assert fwd[p - slot.off] == bufs[Prev(k, |segs|)][slot.off + (p - slot.off)];
    }
  }

  /**
   * The gather invariant for worker k's byte p (value v, initial value v0, true value tv)
   * after t rounds: a byte of segment i is true once the segment has had the
   * Dist(k, i) rounds it needs to reach k, and initial before; a byte outside every
   * segment keeps its initial value.
   */
  predicate ByteGathered(v: int8, v0: int8, tv: int8, segs: seq<Segment>, workerOff: nat, k: nat, p: nat, t: nat)
    requires 0 < |segs| && workerOff < |segs| && k < |segs|
  {
    && (forall i :: 0 <= i < |segs| && segs[i].Contains(p) ==>
          v == if Dist(k, i, |segs|, workerOff) <= t then tv else v0)
    && (Uncovered(segs, p) ==> v == v0)
  }

  /** The gather invariant for every worker and byte. */
  predicate Gathered(bufs: seq<seq<int8>>, init: seq<seq<int8>>, truth: seq<int8>, segs: seq<Segment>, workerOff: nat, t: nat)
    requires 0 < |segs| && workerOff < |segs| && |bufs| == |init| == |segs|
    requires Uniform(bufs, |truth|) && Uniform(init, |truth|)
  {
    forall k, p ::
      0 <= k < |segs| && 0 <= p < |truth| ==>
      ByteGathered(bufs[k][p], init[k][p], truth[p], segs, workerOff, k, p, t)
  }

  /** One lockstep round keeps the gather invariant for worker k's byte p, one round further. */
  lemma {:induction false} GatherStepAt(bufs: seq<seq<int8>>, init: seq<seq<int8>>, truth: seq<int8>, segs: seq<Segment>, workerOff: nat, t: nat, k: nat, p: nat)
    requires Schedule(segs, workerOff, |truth|) && Ordered(segs) && t < |segs|
    requires |bufs| == |init| == |segs| && Uniform(bufs, |truth|) && Uniform(init, |truth|)
    requires k < |segs| && p < |truth|
    requires ByteGathered(bufs[k][p], init[k][p], truth[p], segs, workerOff, k, p, t)
    requires ByteGathered(bufs[Prev(k, |segs|)][p], init[Prev(k, |segs|)][p], truth[p], segs, workerOff, Prev(k, |segs|), p, t)
    ensures ByteGathered(GroupRound(bufs, segs, workerOff, |truth|, t)[k][p], init[k][p], truth[p], segs, workerOff, k, p, t + 1)
  {
    var w := |segs|;
    var ri := RecvRank(k, w, t, workerOff);
    var v := GroupRound(bufs, segs, workerOff, |truth|, t)[k][p];
    GroupRoundAt(bufs, segs, workerOff, |truth|, t, k, p);
    DistOfReceived(k, w, t, workerOff);
    forall i | 0 <= i < w && segs[i].Contains(p)
      ensures v == if Dist(k, i, w, workerOff) <= t + 1 then truth[p] else init[k][p]
    {
      if i == ri {
        assert v == bufs[Prev(k, w)][p];
      } else {
        OrderedDisjoint(segs, i, ri, p);
        if t + 1 < w && Dist(k, i, w, workerOff) == t + 1 {
          DistUnique(k, i, w, t, workerOff);
        }
      }
    }
  }

  /** One lockstep round, from `bufs` to `next`, moves every worker one segment closer to the full composite. */
  lemma {:induction false} GatherStep(bufs: seq<seq<int8>>, next: seq<seq<int8>>, init: seq<seq<int8>>, truth: seq<int8>, segs: seq<Segment>, workerOff: nat, t: nat)
    requires Schedule(segs, workerOff, |truth|) && Ordered(segs) && t < |segs|
    requires |bufs| == |init| == |segs| && Uniform(bufs, |truth|) && Uniform(init, |truth|)
    requires Gathered(bufs, init, truth, segs, workerOff, t)
    requires next == GroupRound(bufs, segs, workerOff, |truth|, t)
    ensures |next| == |segs| && Uniform(next, |truth|)
    ensures Gathered(next, init, truth, segs, workerOff, t + 1)
  {
    forall k, p | 0 <= k < |segs| && 0 <= p < |truth|
      ensures ByteGathered(next[k][p], init[k][p], truth[p], segs, workerOff, k, p, t + 1)
    {
      GatherStepAt(bufs, init, truth, segs, workerOff, t, k, p);
    }
  }

  /** Unfolding the group run by its last round. */
  lemma {:induction false} GroupRoundsLast(init: seq<seq<int8>>, segs: seq<Segment>, workerOff: nat, n: nat, t: nat)
    requires Schedule(segs, workerOff, n) && |init| == |segs| && Uniform(init, n) && 0 < t <= |segs|
    ensures GroupRounds(init, segs, workerOff, n, t) ==
      GroupRound(GroupRounds(init, segs, workerOff, n, t - 1), segs, workerOff, n, t - 1)
  {
  }

  /** The gather invariant carries over from t - 1 to t rounds of the group run. */
  lemma {:induction false} GatherNext(init: seq<seq<int8>>, truth: seq<int8>, segs: seq<Segment>, workerOff: nat, t: nat)
    requires Schedule(segs, workerOff, |truth|) && Ordered(segs) && 0 < t <= |segs|
    requires |init| == |segs| && Uniform(init, |truth|)
    requires Gathered(GroupRounds(init, segs, workerOff, |truth|, t - 1), init, truth, segs, workerOff, t - 1)
    ensures Gathered(GroupRounds(init, segs, workerOff, |truth|, t), init, truth, segs, workerOff, t)
  {
    GroupRoundsLast(init, segs, workerOff, |truth|, t);
    GatherStep(GroupRounds(init, segs, workerOff, |truth|, t - 1), GroupRounds(init, segs, workerOff, |truth|, t),
      init, truth, segs, workerOff, t - 1);
  }

  /** After t rounds of the group run, the gather invariant holds for t. */
  lemma {:induction false} GatherRounds(init: seq<seq<int8>>, truth: seq<int8>, segs: seq<Segment>, workerOff: nat, t: nat)
    requires Schedule(segs, workerOff, |truth|) && Ordered(segs) && t <= |segs|
    requires |init| == |segs| && Uniform(init, |truth|) && HoldsOwn(init, truth, segs, workerOff)
    ensures Gathered(GroupRounds(init, segs, workerOff, |truth|, t), init, truth, segs, workerOff, t)
    decreases t
  {
    if t == 0 {
      GatherStart(init, truth, segs, workerOff);
    } else {
      GatherRounds(init, truth, segs, workerOff, t - 1);
      GatherNext(init, truth, segs, workerOff, t);
    }
  }

  /** Before the first round, the gather invariant is the ownership assumption. */
  lemma {:induction false} GatherStart(init: seq<seq<int8>>, truth: seq<int8>, segs: seq<Segment>, workerOff: nat)
    requires Schedule(segs, workerOff, |truth|) && |init| == |segs| && Uniform(init, |truth|)
    requires HoldsOwn(init, truth, segs, workerOff)
    ensures Gathered(init, init, truth, segs, workerOff, 0)
  {
    var w, n := |segs|, |truth|;
    forall k, p | 0 <= k < w && 0 <= p < n
      ensures ByteGathered(init[k][p], init[k][p], truth[p], segs, workerOff, k, p, 0)
    {
      forall i | 0 <= i < w && segs[i].Contains(p)
        ensures init[k][p] == if Dist(k, i, w, workerOff) <= 0 then truth[p] else init[k][p]
      {
        DistZero(k, i, w, workerOff);
      }
    }
  }

  /**
   * Gather outcome: if every worker starts with the true bytes of the segment it owns,
   * then after `world` lockstep rounds every worker holds the true bytes of every segment,
   * and every byte outside all segments is untouched.
   */
  lemma {:induction false} GroupGathers(init: seq<seq<int8>>, truth: seq<int8>, segs: seq<Segment>, workerOff: nat)
    requires Schedule(segs, workerOff, |truth|) && Ordered(segs)
    requires |init| == |segs| && Uniform(init, |truth|) && HoldsOwn(init, truth, segs, workerOff)
    ensures var fin := GroupRounds(init, segs, workerOff, |truth|, |segs|);
      forall k, p :: 0 <= k < |segs| && 0 <= p < |truth| ==>
        fin[k][p] == if Uncovered(segs, p) then init[k][p] else truth[p]
  {
    GatherRounds(init, truth, segs, workerOff, |segs|);
    GatheredFinal(GroupRounds(init, segs, workerOff, |truth|, |segs|), init, truth, segs, workerOff);
  }

  /** The gather invariant after `world` rounds, byte by byte. */
  lemma {:induction false} GatheredFinal(bufs: seq<seq<int8>>, init: seq<seq<int8>>, truth: seq<int8>, segs: seq<Segment>, workerOff: nat)
    requires 0 < |segs| && workerOff < |segs| && |bufs| == |init| == |segs|
    requires Uniform(bufs, |truth|) && Uniform(init, |truth|)
    requires Gathered(bufs, init, truth, segs, workerOff, |segs|)
    ensures forall k, p :: 0 <= k < |segs| && 0 <= p < |truth| ==>
      bufs[k][p] == if Uncovered(segs, p) then init[k][p] else truth[p]
  {
    forall k, p | 0 <= k < |segs| && 0 <= p < |truth|
      ensures bufs[k][p] == if Uncovered(segs, p) then init[k][p] else truth[p]
    {
      ByteFinal(bufs[k][p], init[k][p], truth[p], segs, workerOff, k, p);
    }
  }

  /** After `world` rounds a byte of any segment is true, and a byte outside every segment initial. */
  lemma {:induction false} ByteFinal(v: int8, v0: int8, tv: int8, segs: seq<Segment>, workerOff: nat, k: nat, p: nat)
    requires 0 < |segs| && workerOff < |segs| && k < |segs|
    requires ByteGathered(v, v0, tv, segs, workerOff, k, p, |segs|)
    ensures v == if Uncovered(segs, p) then v0 else tv
  {
    if !Uncovered(segs, p) {
      var i :| 0 <= i < |segs| && segs[i].Contains(p);
    }
  }

  /**
   * Gather outcome for one worker running the loop: fed with what its predecessor sends,
   * worker k gets through all rounds and ends with the true bytes of every segment and its
   * own bytes outside all segments.
   */
  lemma {:induction false} WorkerGathers(init: seq<seq<int8>>, truth: seq<int8>, segs: seq<Segment>, workerOff: nat, k: nat)
    requires Schedule(segs, workerOff, |truth|) && Ordered(segs) && k < |segs|
    requires |init| == |segs| && Uniform(init, |truth|) && HoldsOwn(init, truth, segs, workerOff)
    ensures var s := Rounds(init[k], segs, workerOff, k, GroupInbox(init, segs, workerOff, |truth|, k), |segs|);
      && s.status == Success
      && |s.sent| == |segs|
      && forall p :: 0 <= p < |truth| ==> s.data[p] == if Uncovered(segs, p) then init[k][p] else truth[p]
  {
    LockstepFinal(init, segs, workerOff, |truth|, k);
    GroupGathers(init, truth, segs, workerOff);
  }
}
