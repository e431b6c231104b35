/** How the processor splits the pixel buffer among its threads, and the
    threaded pass itself. The threads work on disjoint ranges and are all
    joined before the buffer is read again, so running the ranges one after
    another is an exact model of the threaded run. */
module Threads {
  import opened Ranges
  import opened Pixels
  import opened Grayscale
  import opened Arith

  /** The number of threads started: the reported hardware concurrency, or 4
      when the platform reports 0. */
  function ThreadCount(hardwareConcurrency: nat): (n: nat)
    ensures n >= 1
    ensures hardwareConcurrency != 0 ==> n == hardwareConcurrency
    ensures hardwareConcurrency == 0 ==> n == 4
  {
    if hardwareConcurrency == 0 then 4 else hardwareConcurrency
  }

  /** The ranges the threads get: thread i starts at `i * (total / n)`; each
      thread but the last takes `total / n` pixels, the last runs to `total`
      and so also takes the remainder. */
  function Partition(total: nat, n: nat): (rs: seq<Range>)
    requires n >= 1
    ensures |rs| == n
  {
    var share := total / n;
    seq(n, i requires 0 <= i < n => Range(i * share, if i == n - 1 then total else i * share + share))
  }

  /** The thread ranges are contiguous and run from 0 to `total`; each but
      the last holds `total / n` pixels, the last also the remainder. */
  lemma PartitionTiles(total: nat, n: nat)
    requires n >= 1
    ensures Tiles(Partition(total, n), 0, total)
    ensures forall i :: 0 <= i < n - 1 ==> Length(Partition(total, n)[i]) == total / n
    ensures Length(Partition(total, n)[n - 1]) == total / n + total % n
  {
    var rs := Partition(total, n);
    var share := total / n;
    forall i | 0 <= i < n
      ensures rs[i].start <= rs[i].end
      ensures i < n - 1 ==> rs[i].end == rs[i + 1].start && Length(rs[i]) == share
    {
      SharesFit(total, n, i);
    }
    SharesFit(total, n, n - 1);
    assert total == n * share + total % n;
    assert (n - 1) * share + share == n * share;
  }

  /** With more threads than pixels, every thread but the last gets an empty
      range and the last one gets the whole buffer. */
  lemma MoreThreadsThanPixels(total: nat, n: nat)
    requires n >= 1 && n > total
    ensures forall i :: 0 <= i < n - 1 ==> Length(Partition(total, n)[i]) == 0
    ensures Partition(total, n)[n - 1] == Range(0, total)
  {
    var rs := Partition(total, n);
    PartitionTiles(total, n);
    assert total / n == 0;
    assert rs[n - 1].start == 0 by {
      if n > 1 {
        assert Length(rs[0]) == 0;
        TilesOrdered(rs, 0, total, 0, n - 1);
      }
    }
  }

  /** Each pixel index below `total` belongs to exactly one thread's range. */
  lemma PartitionOwner(total: nat, n: nat, k: nat)
    requires n >= 1 && k < total
    ensures exists i :: 0 <= i < n && Contains(Partition(total, n)[i], k)
    ensures forall i, j :: 0 <= i < j < n && Contains(Partition(total, n)[i], k) ==> !Contains(Partition(total, n)[j], k)
  {
    PartitionTiles(total, n);
    TilesCover(Partition(total, n), 0, total, k);
    TilesDisjoint(Partition(total, n), 0, total);
  }

  /** The thread ranges together hold `total` pixels, none twice. */
  lemma PartitionTotalLength(total: nat, n: nat)
    requires n >= 1
    ensures TotalLength(Partition(total, n)) == total
  {
    PartitionTiles(total, n);
    TilesTotalLength(Partition(total, n), 0, total);
  }

  /** The number of threads does not change the result: whatever the count,
      the ranges processed one after another turn the whole buffer gray. */
  lemma ThreadCountIrrelevant(pixels: seq<Pixel>, n1: nat, n2: nat, luma: Luma)
    requires n1 >= 1 && n2 >= 1
    ensures ApplyRanges(pixels, Partition(|pixels|, n1), luma)
            == ApplyRanges(pixels, Partition(|pixels|, n2), luma)
            == GrayscaleRange(pixels, 0, |pixels|, luma)
  {
    PartitionTiles(|pixels|, n1);
    PartitionTiles(|pixels|, n2);
    ApplyTiling(pixels, Partition(|pixels|, n1), luma);
    ApplyTiling(pixels, Partition(|pixels|, n2), luma);
  }

  /** The grayscale pass of the processor: start one thread per range of the
      partition, each turning its own range gray, and join them all. The
      threads run here one after another. */
  method GrayscaleThreads(pixels: array<Pixel>, hardwareConcurrency: nat, luma: Luma)
    modifies pixels
    ensures pixels[..] == GrayscaleRange(old(pixels[..]), 0, pixels.Length, luma)
    ensures pixels[..] == ApplyRanges(old(pixels[..]), Partition(pixels.Length, ThreadCount(hardwareConcurrency)), luma)
  {
    ghost var original := pixels[..];
    var total := pixels.Length;
    var numThreads := ThreadCount(hardwareConcurrency);
    var pixelsPerThread := total / numThreads;
    var i := 0;
    while i < numThreads
      invariant 0 <= i <= numThreads
      invariant i < numThreads ==> pixels[..] == GrayscaleRange(original, 0, i * pixelsPerThread, luma)
      invariant i == numThreads ==> pixels[..] == GrayscaleRange(original, 0, total, luma)
    {
      var start := i * pixelsPerThread;
      var end := if i == numThreads - 1 then total else start + pixelsPerThread;
      SharesFit(total, numThreads, i);
      ApplyGrayscale(pixels, start, end, luma);
      GrayscaleAdjacent(original, 0, start, end, luma);
      i := i + 1;
      assert i < numThreads ==> end == i * pixelsPerThread;
    }
    PartitionTiles(total, numThreads);
    ApplyTiling(original, Partition(total, numThreads), luma);
  }

  /** Thread i's range starts and ends inside the buffer. */
  lemma SharesFit(total: nat, n: nat, i: nat)
    requires 1 <= n && i < n
    ensures i * (total / n) + total / n <= total || i == n - 1
    ensures i * (total / n) <= total
    ensures (i + 1) * (total / n) == i * (total / n) + total / n
  {
    var share := total / n;
    assert total == n * share + total % n;
    MulMonotone(i + 1, n, share);
  }
}
