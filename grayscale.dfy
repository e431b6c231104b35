/** The per-pixel grayscale transform and its application to a range of the
    pixel buffer, in place. */
module Grayscale {
  import opened Bytes
  import opened Ranges
  import opened Pixels

  /** The gray level computed from a pixel's red, green and blue bytes. The
      program computes `0.3 * r + 0.59 * g + 0.11 * b` in double precision and
      truncates it to a byte; the model keeps that value abstract. */
  type Luma = (Byte, Byte, Byte) -> Byte

  predicate IsGray(p: Pixel) {
    p.b == p.g == p.r
  }

  /** The pixel with all three bytes set to the gray level of the original. */
  function ToGray(p: Pixel, luma: Luma): (q: Pixel)
    ensures IsGray(q) && q.r == luma(p.r, p.g, p.b)
  {
    var gray := luma(p.r, p.g, p.b);
    Pixel(gray, gray, gray)
  }

  /** The buffer after the pixels at indices `[start, end)` are turned gray;
      every other pixel is left as it was. */
  function GrayscaleRange(pixels: seq<Pixel>, start: int, end: int, luma: Luma): (out: seq<Pixel>)
    ensures |out| == |pixels|
    ensures forall i :: 0 <= i < |pixels| && start <= i < end ==> IsGray(out[i]) && out[i].r == luma(pixels[i].r, pixels[i].g, pixels[i].b)
    ensures forall i :: 0 <= i < |pixels| && !(start <= i < end) ==> out[i] == pixels[i]
  {
    seq(|pixels|, i requires 0 <= i < |pixels| =>
      if start <= i < end then ToGray(pixels[i], luma) else pixels[i])
  }

  /** Turns the pixels at indices `[start, end)` gray, one after another. An
      empty or reversed range changes nothing. */
  method ApplyGrayscale(pixels: array<Pixel>, start: int, end: int, luma: Luma)
    requires 0 <= start && end <= pixels.Length
    modifies pixels
    ensures pixels[..] == GrayscaleRange(old(pixels[..]), start, end, luma)
    ensures forall i :: start <= i < end ==> IsGray(pixels[i]) && pixels[i] == ToGray(old(pixels[i]), luma)
    ensures forall i :: 0 <= i < pixels.Length && !(start <= i < end) ==> pixels[i] == old(pixels[i])
  {
    var i := start;
    while i < end
      invariant start <= i && (i <= end || i == start)
      invariant pixels[..] == GrayscaleRange(old(pixels[..]), start, i, luma)
    {
      var p := pixels[i];
      var gray := luma(p.r, p.g, p.b);
      pixels[i] := Pixel(gray, gray, gray);
      i := i + 1;
    }
  }

  /** The buffer after the ranges are processed one after another, first to last. */
  function ApplyRanges(pixels: seq<Pixel>, rs: seq<Range>, luma: Luma): (out: seq<Pixel>)
    ensures |out| == |pixels|
    decreases |rs|
  {
    if rs == [] then pixels
    else ApplyRanges(GrayscaleRange(pixels, rs[0].start, rs[0].end, luma), rs[1..], luma)
  }

  /** Processing disjoint ranges one after another turns gray exactly the
      pixels some range contains, each from its own original value: the
      result does not depend on the order of the ranges. */
  lemma {:induction false} ApplyDisjointRanges(pixels: seq<Pixel>, rs: seq<Range>, luma: Luma)
    requires PairwiseDisjoint(rs)
    ensures forall k :: 0 <= k < |pixels| ==>
      ApplyRanges(pixels, rs, luma)[k] == if Covered(rs, k) then ToGray(pixels[k], luma) else pixels[k]
    decreases |rs|
  {
    if rs != [] {
      var first := GrayscaleRange(pixels, rs[0].start, rs[0].end, luma);
      var rest := rs[1..];
      assert PairwiseDisjoint(rest) by {
        forall i, j, k | 0 <= i < j < |rest| && Contains(rest[i], k)
          ensures !Contains(rest[j], k)
        {
          assert rest[i] == rs[i + 1] && rest[j] == rs[j + 1];
        }
      }
      ApplyDisjointRanges(first, rest, luma);
      forall k | 0 <= k < |pixels|
        ensures ApplyRanges(pixels, rs, luma)[k] == if Covered(rs, k) then ToGray(pixels[k], luma) else pixels[k]
      {
        if Covered(rest, k) {
          var j :| 0 <= j < |rest| && Contains(rest[j], k);
          assert Contains(rs[j + 1], k);
          assert !Contains(rs[0], k);
        } else if Contains(rs[0], k) {
        } else {
          assert !Covered(rs, k) by {
            forall i | 0 <= i < |rs| ensures !Contains(rs[i], k) {
              if i > 0 { assert rs[i] == rest[i - 1]; }
            }
          }
        }
      }
    }
  }

  /** Two disjoint lists holding the same ranges, in whatever order, leave
      the same buffer. */
  lemma ApplyRangesOrderIrrelevant(pixels: seq<Pixel>, rs1: seq<Range>, rs2: seq<Range>, luma: Luma)
    requires PairwiseDisjoint(rs1) && PairwiseDisjoint(rs2)
    requires forall r :: r in rs1 <==> r in rs2
    ensures ApplyRanges(pixels, rs1, luma) == ApplyRanges(pixels, rs2, luma)
  {
    ApplyDisjointRanges(pixels, rs1, luma);
    ApplyDisjointRanges(pixels, rs2, luma);
    forall k | 0 <= k < |pixels|
      ensures Covered(rs1, k) <==> Covered(rs2, k)
    {
      if Covered(rs1, k) {
        var i :| 0 <= i < |rs1| && Contains(rs1[i], k);
        assert rs1[i] in rs2;
      }
      if Covered(rs2, k) {
        var i :| 0 <= i < |rs2| && Contains(rs2[i], k);
        assert rs2[i] in rs1;
      }
    }
  }

  /** Processing, one after another, ranges that tile the whole buffer gives
      the buffer that one pass over all of it gives. */
  lemma ApplyTiling(pixels: seq<Pixel>, rs: seq<Range>, luma: Luma)
    requires Tiles(rs, 0, |pixels|)
    ensures ApplyRanges(pixels, rs, luma) == GrayscaleRange(pixels, 0, |pixels|, luma)
  {
    TilesDisjoint(rs, 0, |pixels|);
    ApplyDisjointRanges(pixels, rs, luma);
    forall k | 0 <= k < |pixels|
      ensures Covered(rs, k)
    {
      TilesCover(rs, 0, |pixels|, k);
    }
  }

  /** Turning `[start, mid)` gray and then `[mid, end)` is turning `[start, end)` gray. */
  lemma GrayscaleAdjacent(pixels: seq<Pixel>, start: int, mid: int, end: int, luma: Luma)
    requires start <= mid <= end
    ensures GrayscaleRange(GrayscaleRange(pixels, start, mid, luma), mid, end, luma)
            == GrayscaleRange(pixels, start, end, luma)
  {
  }
}
