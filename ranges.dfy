/** Half-open index ranges over the flat pixel buffer, and what it means for
    a sequence of them to tile an interval: the shape both the per-thread
    work split and the per-row slices of the image have. */
module Ranges {

  /** The flat indices `[start, end)`. */
  datatype Range = Range(start: nat, end: nat)

  predicate Contains(r: Range, k: int) {
    r.start <= k < r.end
  }

  function Length(r: Range): nat {
    if r.start <= r.end then r.end - r.start else 0
  }

  /** The ranges, in order, are non-decreasing, each ends where the next
      starts, the first starts at lo and the last ends at hi. */
  predicate Tiles(rs: seq<Range>, lo: nat, hi: nat) {
    && (|rs| == 0 ==> lo == hi)
    && (|rs| > 0 ==> rs[0].start == lo && rs[|rs| - 1].end == hi)
    && (forall i :: 0 <= i < |rs| ==> rs[i].start <= rs[i].end)
    && (forall i :: 0 <= i < |rs| - 1 ==> rs[i].end == rs[i + 1].start)
  }

  /** Index k lies in one of the ranges. */
  predicate Covered(rs: seq<Range>, k: int) {
    exists i :: 0 <= i < |rs| && Contains(rs[i], k)
  }

  /** No index lies in two of the ranges. */
  ghost predicate PairwiseDisjoint(rs: seq<Range>) {
    forall i, j, k :: 0 <= i < j < |rs| && Contains(rs[i], k) ==> !Contains(rs[j], k)
  }

  function TotalLength(rs: seq<Range>): nat {
    if rs == [] then 0 else Length(rs[0]) + TotalLength(rs[1..])
  }

  /** Dropping the first range of a tiling tiles the rest of the interval. */
  lemma TilesTail(rs: seq<Range>, lo: nat, hi: nat)
    requires Tiles(rs, lo, hi) && |rs| > 0
    ensures Tiles(rs[1..], rs[0].end, hi)
  {
  }

  /** Ranges that come later in a tiling start no earlier than earlier ones end,
      and every range lies inside [lo, hi]. */
  lemma {:induction false} TilesOrdered(rs: seq<Range>, lo: nat, hi: nat, i: nat, j: nat)
    requires Tiles(rs, lo, hi) && i < j < |rs|
    ensures lo <= rs[i].start <= rs[i].end <= rs[j].start <= rs[j].end <= hi
    decreases |rs|
  {
    if i == 0 && j == 1 {
      if |rs| > 2 {
        TilesTail(rs, lo, hi);
        TilesOrdered(rs[1..], rs[0].end, hi, 0, |rs| - 2);
      }
    } else if i == 0 {
      TilesTail(rs, lo, hi);
      TilesOrdered(rs[1..], rs[0].end, hi, 0, j - 1);
    } else {
      TilesTail(rs, lo, hi);
      TilesOrdered(rs[1..], rs[0].end, hi, i - 1, j - 1);
    }
  }

  /** A tiling covers exactly the indices of [lo, hi). */
  lemma {:induction false} TilesCover(rs: seq<Range>, lo: nat, hi: nat, k: int)
    requires Tiles(rs, lo, hi)
    ensures Covered(rs, k) <==> lo <= k < hi
    decreases |rs|
  {
    if rs != [] {
      TilesTail(rs, lo, hi);
      TilesCover(rs[1..], rs[0].end, hi, k);
      if Contains(rs[0], k) {
        assert lo <= k < hi by {
          if |rs| > 1 { TilesOrdered(rs, lo, hi, 0, |rs| - 1); }
        }
      } else if Covered(rs[1..], k) {
        var i :| 0 <= i < |rs| - 1 && Contains(rs[1..][i], k);
        assert Contains(rs[i + 1], k);
      }
      if Covered(rs, k) {
        var i :| 0 <= i < |rs| && Contains(rs[i], k);
        if i > 0 {
          assert Contains(rs[1..][i - 1], k);
        }
      }
    }
  }

  /** The ranges of a tiling never overlap. */
  lemma TilesDisjoint(rs: seq<Range>, lo: nat, hi: nat)
    requires Tiles(rs, lo, hi)
    ensures PairwiseDisjoint(rs)
  {
    forall i, j, k | 0 <= i < j < |rs| && Contains(rs[i], k)
      ensures !Contains(rs[j], k)
    {
      TilesOrdered(rs, lo, hi, i, j);
    }
  }

  /** The lengths of a tiling add up to the length of the interval: no index
      is lost and none is counted twice. */
  lemma {:induction false} TilesTotalLength(rs: seq<Range>, lo: nat, hi: nat)
    requires Tiles(rs, lo, hi)
    ensures lo <= hi && TotalLength(rs) == hi - lo
    decreases |rs|
  {
    if rs != [] {
      TilesTail(rs, lo, hi);
      TilesTotalLength(rs[1..], rs[0].end, hi);
    }
  }
}
