/** chunk_slicer and grouper from lib/ivoxoar/util.py. */
module Chunks {
  import opened Seqs

  /** Python's slice(start, stop): the half-open index range [start, stop). */
  datatype Slice = Slice(start: int, stop: int) {
    function Length(): int { stop - start }
    predicate Contains(x: int) { start <= x < stop }
  }

  function Min(a: int, b: int): int { if a <= b then a else b }

  /** int(numpy.ceil(float(a) / b)), taken as exact ceiling division. */
  function CeilDiv(a: nat, b: nat): (q: nat)
    requires b > 0
    ensures (q - 1) * b < a <= q * b
  {
    var q := (a + b - 1) / b;
    var r := (a + b - 1) % b;
    assert a + b - 1 == q * b + r;
    assert (q - 1) * b == q * b - b;
    q
  }

  /** The number of slices chunk_slicer yields: ceil(count / chunksize). */
  function ChunkCount(count: nat, chunksize: nat): (c: nat)
    requires count > 0 && chunksize > 0
    ensures c > 0
  {
    CeilDiv(count, chunksize)
  }

  /** The stride of the slices: ceil(count / chunkcount). */
  function RealChunkSize(count: nat, chunksize: nat): (s: nat)
    requires count > 0 && chunksize > 0
    ensures var c := ChunkCount(count, chunksize);
      (s - 1) * c < count <= s * c
  {
    CeilDiv(count, ChunkCount(count, chunksize))
  }

  /**
   * The slices chunk_slicer yields, in order: slice i is
   * [i * s, min(count, (i + 1) * s)) with s = RealChunkSize.
   * The source divides by zero when count == 0, hence the precondition.
   */
  function ChunkSlicer(count: nat, chunksize: nat): (r: seq<Slice>)
    requires count > 0 && chunksize > 0
    ensures |r| == CeilDiv(count, chunksize)
    ensures forall i :: 0 <= i < |r| ==> r[i].stop <= count
  {
    var s := RealChunkSize(count, chunksize);
    seq(ChunkCount(count, chunksize), i => Slice(i * s, Min(count, (i + 1) * s)))
  }

  lemma MulLeftMono(a: int, b: int, c: int)
    requires a <= b && c >= 0
    ensures c * a <= c * b
  {}

  /**
   * The arithmetic behind chunk_slicer: with c slices of stride s,
   * 1 <= s <= chunksize and (c - 1) * s < count <= c * s.
   */
  lemma {:induction false} StrideBounds(count: nat, chunksize: nat)
    requires count > 0 && chunksize > 0
    ensures var c, s := ChunkCount(count, chunksize), RealChunkSize(count, chunksize);
      1 <= s <= chunksize && (c - 1) * s < count <= c * s
  {
    var c, s := ChunkCount(count, chunksize), RealChunkSize(count, chunksize);
    assert (c - 1) * chunksize < count <= c * chunksize;
    assert (s - 1) * c < count <= s * c;
    if s > chunksize {
      MulLeftMono(chunksize, s - 1, c);
      assert false;
    }
    MulLeftMono(s, chunksize, c - 1);
  }

  /**
   * Slice i in terms of the stride s: it starts at i * s; every slice but the
   * last stops s further on, and the last one, which starts below count,
   * stops at count.
   */
  lemma {:induction false} SliceAt(count: nat, chunksize: nat, i: nat)
    requires count > 0 && chunksize > 0
    requires i < ChunkCount(count, chunksize)
    ensures var r, c, s := ChunkSlicer(count, chunksize), ChunkCount(count, chunksize), RealChunkSize(count, chunksize);
      && r[i].start == i * s
      && (i < c - 1 ==> r[i].stop == i * s + s && i * s + s < count)
      && (i == c - 1 ==> r[i].stop == count && i * s < count)
  {
    var c, s := ChunkCount(count, chunksize), RealChunkSize(count, chunksize);
    StrideBounds(count, chunksize);
    StrideStep(i, c, s, count);
    assert ChunkSlicer(count, chunksize)[i] == Slice(i * s, Min(count, (i + 1) * s));
  }

  /** Stride i ends below count unless it is the last, which reaches it. */
  lemma StrideStep(i: nat, c: nat, s: nat, count: nat)
    requires i < c && (c - 1) * s < count <= c * s
    ensures (i + 1) * s == i * s + s
    ensures i < c - 1 ==> i * s + s < count
    ensures i == c - 1 ==> i * s < count <= i * s + s
  {
    if i < c - 1 {
      MulLeftMono(i + 1, c - 1, s);
    }
  }

  /**
   * chunk_slicer yields ceil(count / chunksize) slices that tile [0, count):
   * the first starts at 0, each starts where the previous one stops and the
   * last stops at count.
   */
  lemma ChunkSlicerTiles(count: nat, chunksize: nat)
    requires count > 0 && chunksize > 0
    ensures var r := ChunkSlicer(count, chunksize);
      && |r| == CeilDiv(count, chunksize)
      && r[0].start == 0
      && (forall i :: 0 <= i < |r| - 1 ==> r[i].stop == r[i + 1].start)
      && r[|r| - 1].stop == count
  {
    var r := ChunkSlicer(count, chunksize);
    SliceAt(count, chunksize, 0);
    SliceAt(count, chunksize, |r| - 1);
    forall i | 0 <= i < |r| - 1
      ensures r[i].stop == r[i + 1].start
    {
      SlicesMeet(count, chunksize, i);
    }
  }

  /** Slice i stops where slice i + 1 starts. */
  lemma SlicesMeet(count: nat, chunksize: nat, i: nat)
    requires count > 0 && chunksize > 0
    requires i + 1 < ChunkCount(count, chunksize)
    ensures ChunkSlicer(count, chunksize)[i].stop == ChunkSlicer(count, chunksize)[i + 1].start
  {
    var s := RealChunkSize(count, chunksize);
    SliceAt(count, chunksize, i);
    SliceAt(count, chunksize, i + 1);
    assert (i + 1) * s == i * s + s;
  }

  /**
   * Every slice is non-empty and at most chunksize long; all but the last
   * are exactly ceil(count / chunkcount) long.
   */
  lemma ChunkSlicerLengths(count: nat, chunksize: nat)
    requires count > 0 && chunksize > 0
    ensures var r := ChunkSlicer(count, chunksize);
      && (forall i :: 0 <= i < |r| ==> 0 < r[i].Length() <= chunksize)
      && (forall i :: 0 <= i < |r| - 1 ==> r[i].Length() == CeilDiv(count, |r|))
  {
    var r := ChunkSlicer(count, chunksize);
    var c, s := ChunkCount(count, chunksize), RealChunkSize(count, chunksize);
    StrideBounds(count, chunksize);
    forall i | 0 <= i < |r|
      ensures 0 < r[i].Length() <= chunksize
      ensures i < |r| - 1 ==> r[i].Length() == s
    {
      SliceAt(count, chunksize, i);
      if i == c - 1 {
        assert (c - 1) * s + s == c * s;
      }
    }
  }

  /** Some slice of r holds index x. */
  ghost predicate Covered(r: seq<Slice>, x: int)
  {
    exists i :: 0 <= i < |r| && r[i].Contains(x)
  }

  /** The slice index of x: x / s is below c and its stride interval holds x. */
  lemma StrideIndex(x: nat, s: nat, c: nat, count: nat)
    requires s > 0 && x < count <= c * s
    ensures x / s < c && (x / s) * s <= x < (x / s) * s + s
  {
    var i, r := x / s, x % s;
    assert x == i * s + r && 0 <= r < s;
    if i >= c {
      MulLeftMono(c, i, s);
      assert false;
    }
  }

  /** Every index of [0, count) lies in some slice. */
  lemma ChunkSlicerCovers(count: nat, chunksize: nat, x: int)
    requires count > 0 && chunksize > 0
    requires 0 <= x < count
    ensures Covered(ChunkSlicer(count, chunksize), x)
  {
    var r := ChunkSlicer(count, chunksize);
    var c, s := ChunkCount(count, chunksize), RealChunkSize(count, chunksize);
    StrideBounds(count, chunksize);
    StrideIndex(x, s, c, count);
    var i := x / s;
    SliceAt(count, chunksize, i);
    assert r[i].Contains(x);
  }

  /** No index lies in two slices. */
  lemma ChunkSlicerDisjoint(count: nat, chunksize: nat, x: int, i: nat, j: nat)
    requires count > 0 && chunksize > 0
    requires i < j < ChunkCount(count, chunksize)
    requires ChunkSlicer(count, chunksize)[i].Contains(x)
    ensures !ChunkSlicer(count, chunksize)[j].Contains(x)
  {
    var s := RealChunkSize(count, chunksize);
    SliceAt(count, chunksize, i);
    SliceAt(count, chunksize, j);
    assert i * s + s <= j * s by {
      MulLeftMono(i + 1, j, s);
      assert s * (i + 1) == i * s + s;
    }
  }

  /** No slice reaches outside [0, count). */
  lemma ChunkSlicerInRange(count: nat, chunksize: nat, x: int, i: nat)
    requires count > 0 && chunksize > 0
    requires i < ChunkCount(count, chunksize)
    requires ChunkSlicer(count, chunksize)[i].Contains(x)
    ensures 0 <= x < count
  {
    var s := RealChunkSize(count, chunksize);
    SliceAt(count, chunksize, i);
    MulLeftMono(0, i, s);
  }

  /** Ten items in chunks of at most three: three full slices and a short last one. */
  lemma ChunkSlicerExample()
    ensures ChunkSlicer(10, 3) == [Slice(0, 3), Slice(3, 6), Slice(6, 9), Slice(9, 10)]
  {
    assert CeilDiv(10, 3) == 4;
    assert CeilDiv(10, 4) == 3;
    assert ChunkCount(10, 3) == 4 && RealChunkSize(10, 3) == 3;
    SliceAt(10, 3, 0);
    SliceAt(10, 3, 1);
    SliceAt(10, 3, 2);
    SliceAt(10, 3, 3);
  }

  /**
   * grouper(iterable, n) over an iterator holding items: it takes up to n
   * items at a time and stops at the first empty take, so n == 0 yields
   * nothing at all. pos is how far the iterator has been consumed.
   */
  method Grouper<T>(items: seq<T>, n: nat) returns (chunks: seq<seq<T>>)
    ensures n == 0 ==> chunks == []
    ensures n > 0 ==> Flatten(chunks) == items
    ensures forall k :: 0 <= k < |chunks| ==> 0 < |chunks[k]| <= n
    ensures forall k :: 0 <= k < |chunks| - 1 ==> |chunks[k]| == n
  {
    chunks := [];
    var pos := 0;
    while true
      invariant 0 <= pos <= |items|
      invariant n > 0 ==> Flatten(chunks) == items[..pos]
      invariant n == 0 ==> chunks == []
      invariant forall k :: 0 <= k < |chunks| ==> 0 < |chunks[k]| <= n
      invariant forall k :: 0 <= k < |chunks| ==> |chunks[k]| == n || (k == |chunks| - 1 && pos == |items|)
      decreases |items| - pos
    {
      var chunk := items[pos..Min(|items|, pos + n)];
      if chunk == [] {
        break;
      }
      FlattenSnoc(chunks, chunk);
      assert items[..pos] + chunk == items[..pos + |chunk|];
      chunks := chunks + [chunk];
      pos := pos + |chunk|;
    }
  }
}
