/**
 * Byte segments of a worker's buffer: the clamped fixed-size segments of RingAllgather,
 * the prefix-sum offset table of RingAllgatherV, and the two byte operations the ring
 * performs on a buffer (reading a segment to send it, writing received bytes into one).
 */
module Segments {

  /** The element type of the buffers (std::int8_t). */
  newtype int8 = x: int | -128 <= x < 128

  /** A contiguous byte range [off, off + len) of a buffer. */
  datatype Segment = Segment(off: nat, len: nat) {
    function End(): nat { off + len }
    predicate Contains(p: int) { off <= p < off + len }
  }

  function Min(a: int, b: int): int { if a <= b then a else b }

  /** Every segment of the table lies inside a buffer of n bytes. */
  predicate InBounds(segs: seq<Segment>, n: int) {
    forall i :: 0 <= i < |segs| ==> segs[i].End() <= n
  }

  /** Segments follow one another in rank order: each ends at or before the start of the next. */
  predicate Ordered(segs: seq<Segment>)
    decreases |segs|
  {
    |segs| <= 1 || (segs[0].End() <= segs[1].off && Ordered(segs[1..]))
  }

  /** In an ordered table every segment ends at or before the start of every later one. */
  lemma {:induction false} OrderedPairwise(segs: seq<Segment>, i: nat, j: nat)
    requires Ordered(segs) && i < j < |segs|
    ensures segs[i].End() <= segs[j].off
    decreases j
  {
    var tail := segs[1..];
    if i > 0 {
      OrderedPairwise(tail, i - 1, j - 1);
      assert tail[i - 1] == segs[i] && tail[j - 1] == segs[j];
    } else if j > 1 {
      OrderedPairwise(tail, 0, j - 1);
      assert tail[0] == segs[1] && tail[j - 1] == segs[j];
    }
  }

  /** Conversely, a table whose segments are pairwise in order is ordered. */
  lemma {:induction false} PairwiseOrdered(segs: seq<Segment>)
    requires forall i, j :: 0 <= i < j < |segs| ==> segs[i].End() <= segs[j].off
    ensures Ordered(segs)
    decreases |segs|
  {
    if |segs| > 1 {
      var tail := segs[1..];
      forall i, j | 0 <= i < j < |tail| ensures tail[i].End() <= tail[j].off {
        assert tail[i] == segs[i + 1] && tail[j] == segs[j + 1];
      }
      PairwiseOrdered(tail);
    }
  }

  /** No segment of the table contains byte p. */
  predicate Uncovered(segs: seq<Segment>, p: int) {
    forall i :: 0 <= i < |segs| ==> !segs[i].Contains(p)
  }

  /** Two distinct segments of an ordered table share no byte. */
  lemma {:induction false} OrderedDisjoint(segs: seq<Segment>, i: nat, j: nat, p: int)
    requires Ordered(segs) && i < |segs| && j < |segs| && i != j
    requires segs[i].Contains(p)
    ensures !segs[j].Contains(p)
  {
    if i < j {
      OrderedPairwise(segs, i, j);
    } else {
      OrderedPairwise(segs, j, i);
    }
  }

  /** The bytes of segment s (data.subspan(s.off, s.len)). */
  function Slice(buf: seq<int8>, s: Segment): (r: seq<int8>)
    requires s.End() <= |buf|
    ensures |r| == s.len
    ensures forall j {:trigger r[j]} :: 0 <= j < s.len ==> r[j] == buf[s.off + j]
  {
    seq(s.len, j requires 0 <= j < s.len => buf[s.off + j])
  }

  /** `buf` with the bytes at [off, off + |bytes|) replaced by `bytes`. */
  function Splice(buf: seq<int8>, off: nat, bytes: seq<int8>): (r: seq<int8>)
    requires off + |bytes| <= |buf|
    ensures |r| == |buf|
    ensures forall p {:trigger r[p]} :: 0 <= p < |buf| ==> r[p] == if off <= p < off + |bytes| then bytes[p - off] else buf[p]
  {
    seq(|buf|, p requires 0 <= p < |buf| => if off <= p < off + |bytes| then bytes[p - off] else buf[p])
  }

  /** std::copy_n / RecvAll into a subspan: write `src` into `dst` at `off`, in place. */
  method CopyInto(dst: array<int8>, off: nat, src: seq<int8>)
    requires off + |src| <= dst.Length
    modifies dst
    ensures dst[..] == Splice(old(dst[..]), off, src)
  {
    forall i | 0 <= i < |src| {
      dst[off + i] := src[i];
    }
    assert dst[..] == Splice(old(dst[..]), off, src);
  }

  // ---------------------------------------------------------------------------
  // Fixed-size segments (RingAllgather)
  // ---------------------------------------------------------------------------

  /**
   * The segment of rank i: off = min(i * segment_size, size), len = min(segment_size, size - off).
   */
  function ClampedSegment(i: nat, segmentSize: nat, size: nat): (s: Segment)
    ensures s.End() <= size
    ensures i * segmentSize >= size ==> s.len == 0 && s.off == size
    ensures i * segmentSize + segmentSize <= size ==> s == Segment(i * segmentSize, segmentSize)
    ensures s.len <= segmentSize
  {
    var off := Min(i * segmentSize, size);
    Segment(off, Min(segmentSize, size - off))
  }

  /** The fixed-size segment table of a world of `world` workers over a buffer of `size` bytes. */
  function FixedLayout(world: nat, segmentSize: nat, size: nat): (segs: seq<Segment>)
    ensures |segs| == world && InBounds(segs, size)
  {
    seq(world, i requires 0 <= i < world => ClampedSegment(i, segmentSize, size))
  }

  lemma MulMono(a: nat, b: nat, c: nat)
    requires a <= b
    ensures a * c <= b * c
  {
    assert b * c == a * c + (b - a) * c;
  }

  /** Clamped segments of increasing rank come one after another and never overlap. */
  lemma {:induction false} ClampedOrdered(i: nat, j: nat, segmentSize: nat, size: nat)
    requires i < j
    ensures ClampedSegment(i, segmentSize, size).End() <= ClampedSegment(j, segmentSize, size).off
  {
    MulMono(i + 1, j, segmentSize);
    assert (i + 1) * segmentSize == i * segmentSize + segmentSize;
  }

  /** The fixed table is ordered and lies inside the buffer. */
  lemma {:induction false} FixedLayoutValid(world: nat, segmentSize: nat, size: nat)
    ensures InBounds(FixedLayout(world, segmentSize, size), size)
    ensures Ordered(FixedLayout(world, segmentSize, size))
  {
    var segs := FixedLayout(world, segmentSize, size);
    forall i, j | 0 <= i < j < world ensures segs[i].End() <= segs[j].off {
      ClampedOrdered(i, j, segmentSize, size);
    }
    PairwiseOrdered(segs);
  }

  /**
   * A byte below world * segment_size lies in the segment of rank p / segment_size; a byte
   * at or past world * segment_size lies in no segment.
   */
  lemma {:induction false} FixedCoverage(world: nat, segmentSize: nat, size: nat, p: nat)
    requires p < size
    ensures p < world * segmentSize ==>
      segmentSize > 0 && p / segmentSize < world && FixedLayout(world, segmentSize, size)[p / segmentSize].Contains(p)
    ensures p >= world * segmentSize ==> Uncovered(FixedLayout(world, segmentSize, size), p)
  {
    if p < world * segmentSize {
      FixedCovered(world, segmentSize, size, p);
    } else {
      FixedUncovered(world, segmentSize, size, p);
    }
  }

  lemma {:induction false} FixedCovered(world: nat, segmentSize: nat, size: nat, p: nat)
    requires p < size && p < world * segmentSize
    ensures segmentSize > 0 && p / segmentSize < world
    ensures ClampedSegment(p / segmentSize, segmentSize, size).Contains(p)
  {
    assert segmentSize > 0;
    var q := p / segmentSize;
    assert q * segmentSize <= p < q * segmentSize + segmentSize by {
      assert p == q * segmentSize + p % segmentSize;
    }
    if q >= world {
      MulMono(world, q, segmentSize);
    }
  }

  lemma {:induction false} FixedUncovered(world: nat, segmentSize: nat, size: nat, p: nat)
    requires world * segmentSize <= p
    ensures Uncovered(FixedLayout(world, segmentSize, size), p)
  {
    var segs := FixedLayout(world, segmentSize, size);
    forall i | 0 <= i < world ensures !segs[i].Contains(p) {
      MulMono(i + 1, world, segmentSize);
      assert (i + 1) * segmentSize == i * segmentSize + segmentSize;
    }
  }

  // ---------------------------------------------------------------------------
  // Variable-size segments (RingAllgatherV)
  // ---------------------------------------------------------------------------

  /** Sum of the declared sizes. */
  function Sum(sizes: seq<int>): int
  {
    if sizes == [] then 0 else sizes[0] + Sum(sizes[1..])
  }

  /**
   * The offset table: `world + 1` entries, 0 followed by the running sums of `sizes`
   * (std::partial_sum into offset.begin() + 1).
   */
  function Offsets(sizes: seq<int>): (offset: seq<int>)
    ensures |offset| == |sizes| + 1
    decreases |sizes|
  {
    if sizes == [] then [0]
    else
      var prefix := Offsets(sizes[..|sizes| - 1]);
      prefix + [prefix[|sizes| - 1] + sizes[|sizes| - 1]]
  }

  lemma {:induction false} SumAppend(a: seq<int>, x: int)
    ensures Sum(a + [x]) == Sum(a) + x
    decreases |a|
  {
    if a != [] {
      assert (a + [x])[1..] == a[1..] + [x];
      SumAppend(a[1..], x);
    }
  }

  /** Every entry of the offset table is the sum of the sizes before it. */
  lemma {:induction false} OffsetsArePrefixSums(sizes: seq<int>, i: nat)
    requires i <= |sizes|
    ensures Offsets(sizes)[i] == Sum(sizes[..i])
    decreases |sizes|
  {
    if sizes != [] {
      var init := sizes[..|sizes| - 1];
      if i < |sizes| {
        OffsetsArePrefixSums(init, i);
        assert init[..i] == sizes[..i];
      } else {
        OffsetsArePrefixSums(init, i - 1);
        assert init[..i - 1] == init;
        assert sizes[..i] == init + [sizes[|sizes| - 1]];
        SumAppend(init, sizes[|sizes| - 1]);
      }
    }
  }

  /**
   * The offset table starts at 0, each entry adds the next declared size to the previous
   * one, and the last entry is the total size.
   */
  lemma {:induction false} OffsetsTable(sizes: seq<int>)
    ensures Offsets(sizes)[0] == 0
    ensures forall i :: 0 <= i < |sizes| ==> Offsets(sizes)[i + 1] == Offsets(sizes)[i] + sizes[i]
    ensures Offsets(sizes)[|sizes|] == Sum(sizes)
  {
    OffsetsArePrefixSums(sizes, 0);
    forall i | 0 <= i < |sizes| ensures Offsets(sizes)[i + 1] == Offsets(sizes)[i] + sizes[i] {
      OffsetsArePrefixSums(sizes, i);
      OffsetsArePrefixSums(sizes, i + 1);
      assert sizes[..i + 1] == sizes[..i] + [sizes[i]];
      SumAppend(sizes[..i], sizes[i]);
    }
    OffsetsArePrefixSums(sizes, |sizes|);
    assert sizes[..|sizes|] == sizes;
  }

  predicate NonNegative(sizes: seq<int>) {
    forall i :: 0 <= i < |sizes| ==> 0 <= sizes[i]
  }

  /** With non-negative sizes the offset table never decreases. */
  lemma {:induction false} OffsetsMonotone(sizes: seq<int>, i: nat, j: nat)
    requires NonNegative(sizes) && i <= j <= |sizes|
    ensures 0 <= Offsets(sizes)[i] <= Offsets(sizes)[j]
    decreases j
  {
    OffsetsTable(sizes);
    if j > 0 {
      OffsetsMonotone(sizes, if i < j then i else 0, j - 1);
    }
  }

  /** The variable-size segment table: rank i owns [offset[i], offset[i] + sizes[i]). */
  function VarLayout(sizes: seq<int>): (segs: seq<Segment>)
    requires NonNegative(sizes)
    ensures |segs| == |sizes| && InBounds(segs, Sum(sizes))
  {
    assert forall i :: 0 <= i < |sizes| ==> 0 <= Offsets(sizes)[i] && Offsets(sizes)[i] + sizes[i] <= Sum(sizes) by {
      forall i | 0 <= i < |sizes| ensures 0 <= Offsets(sizes)[i] && Offsets(sizes)[i] + sizes[i] <= Sum(sizes) {
        OffsetsTable(sizes);
        OffsetsMonotone(sizes, 0, i);
        OffsetsMonotone(sizes, i + 1, |sizes|);
      }
    }
    seq(|sizes|, i requires 0 <= i < |sizes| => Segment(Offsets(sizes)[i], sizes[i]))
  }

  /**
   * The variable-size ranges are ordered, disjoint, and inside any buffer of at least
   * offset[world] bytes.
   */
  lemma {:induction false} VarLayoutValid(sizes: seq<int>, n: nat)
    requires NonNegative(sizes) && Sum(sizes) <= n
    ensures InBounds(VarLayout(sizes), n)
    ensures Ordered(VarLayout(sizes))
  {
    var segs := VarLayout(sizes);
    OffsetsTable(sizes);
    forall i | 0 <= i < |sizes| ensures segs[i].End() <= n {
      OffsetsMonotone(sizes, i + 1, |sizes|);
    }
    forall i, j | 0 <= i < j < |sizes| ensures segs[i].End() <= segs[j].off {
      OffsetsMonotone(sizes, i + 1, j);
    }
    PairwiseOrdered(segs);
  }

  /** A byte below offset[world] lies in some rank's range; a byte at or past it, in none. */
  lemma {:induction false} VarCoverage(sizes: seq<int>, p: nat)
    requires NonNegative(sizes)
    ensures p < Sum(sizes) ==> exists i :: 0 <= i < |sizes| && VarLayout(sizes)[i].Contains(p)
    ensures p >= Sum(sizes) ==> Uncovered(VarLayout(sizes), p)
  {
    var segs := VarLayout(sizes);
    OffsetsTable(sizes);
    if p < Sum(sizes) {
      var i := CoveringRank(sizes, p, |sizes|);
      assert segs[i].Contains(p);
    } else {
      forall i | 0 <= i < |sizes| ensures !segs[i].Contains(p) {
        OffsetsMonotone(sizes, i + 1, |sizes|);
      }
    }
  }

  /** The rank below `j` whose range holds byte p, for p below offset[j]. */
  lemma {:induction false} CoveringRank(sizes: seq<int>, p: nat, j: nat) returns (i: nat)
    requires NonNegative(sizes) && j <= |sizes| && p < Offsets(sizes)[j]
    ensures i < j && Offsets(sizes)[i] <= p < Offsets(sizes)[i] + sizes[i]
    decreases j
  {
    OffsetsTable(sizes);
    if p >= Offsets(sizes)[j - 1] {
      i := j - 1;
    } else {
      i := CoveringRank(sizes, p, j - 1);
    }
  }

  /**
   * Builds the offset table in place, as the source does with a zero-filled vector of
   * world + 1 entries and std::partial_sum.
   */
  method PrefixOffsets(sizes: seq<int>) returns (offset: seq<int>)
    ensures |offset| == |sizes| + 1 && offset[0] == 0
    ensures forall i :: 0 <= i < |sizes| ==> offset[i + 1] == offset[i] + sizes[i]
    ensures offset == Offsets(sizes)
  {
    var table := new int[|sizes| + 1](_ => 0);
    var i := 0;
    while i < |sizes|
      invariant 0 <= i <= |sizes|
      invariant table[0] == 0
      invariant forall j :: 0 <= j < i ==> table[j + 1] == table[j] + sizes[j]
    {
      table[i + 1] := table[i] + sizes[i];
      i := i + 1;
    }
    offset := table[..];
    OffsetsTable(sizes);
    OffsetsUnique(sizes, offset);
  }

  /** The offset table is the only table with those three properties. */
  lemma {:induction false} OffsetsUnique(sizes: seq<int>, offset: seq<int>)
    requires |offset| == |sizes| + 1 && offset[0] == 0
    requires forall i :: 0 <= i < |sizes| ==> offset[i + 1] == offset[i] + sizes[i]
    ensures offset == Offsets(sizes)
  {
    OffsetsTable(sizes);
    var o := Offsets(sizes);
    forall i | 0 <= i <= |sizes| ensures offset[i] == o[i] {
      OffsetsAgree(sizes, offset, i);
    }
  }

  lemma {:induction false} OffsetsAgree(sizes: seq<int>, offset: seq<int>, i: nat)
    requires |offset| == |sizes| + 1 && offset[0] == 0
    requires forall i :: 0 <= i < |sizes| ==> offset[i + 1] == offset[i] + sizes[i]
    requires i <= |sizes|
    ensures offset[i] == Offsets(sizes)[i]
    decreases i
  {
    OffsetsTable(sizes);
    if i > 0 {
      OffsetsAgree(sizes, offset, i - 1);
    }
  }
}
