/** Inclusive TXID spans and the sweep that decides whether a set of them covers a span. */
module Ranges {
  import opened Lists
  import opened Options

  datatype SeqRange = SeqRange(min: nat, max: nat)

  function RangeKey(r: SeqRange): Key { (r.min, r.max) }

  predicate Contains(r: SeqRange, x: int) {
    r.min <= x <= r.max
  }

  predicate InSome(x: int, ranges: seq<SeqRange>) {
    exists i :: 0 <= i < |ranges| && Contains(ranges[i], x)
  }

  /** Every TXID of the inclusive span `[lo, hi]` lies in some range; an empty span is covered. */
  predicate Covered(lo: int, hi: int, ranges: seq<SeqRange>) {
    forall x :: lo <= x <= hi ==> InSome(x, ranges)
  }

  lemma Extend(lo: int, frontier: int, r: SeqRange, ranges: seq<SeqRange>)
    requires r in ranges && r.min <= frontier + 1
    requires Covered(lo, frontier, ranges)
    ensures Covered(lo, r.max, ranges)
  {
    var k :| 0 <= k < |ranges| && ranges[k] == r;
    forall x | lo <= x <= r.max
      ensures InSome(x, ranges)
    {
      if x > frontier {
        assert Contains(ranges[k], x);
      }
    }
  }

  lemma Uncovered(x: int, ranges: seq<SeqRange>, sorted: seq<SeqRange>)
    requires forall r :: r in ranges && Contains(r, x) ==> r in sorted
    requires forall j :: 0 <= j < |sorted| ==> !Contains(sorted[j], x)
    ensures !InSome(x, ranges)
  {
    forall k | 0 <= k < |ranges|
      ensures !Contains(ranges[k], x)
    {
      if ranges[k] in sorted {
        var j :| 0 <= j < |sorted| && sorted[j] == ranges[k];
      }
    }
  }

  /** The ranges that reach `lo`, in `(min, max)` order. */
  function Relevant(lo: nat, ranges: seq<SeqRange>): (sorted: seq<SeqRange>)
    ensures forall r :: r in sorted <==> r in ranges && r.max >= lo
    ensures forall i, j :: 0 <= i < j < |sorted| ==> sorted[i].min <= sorted[j].min
  {
    var relevant := Filter((r: SeqRange) => r.max >= lo, ranges);
    SortByMembers(RangeKey, relevant);
    SortBySorts(RangeKey, relevant);
    var sorted := SortBy(RangeKey, relevant);
    assert forall i, j :: 0 <= i < j < |sorted| ==> Leq(RangeKey(sorted[i]), RangeKey(sorted[j]));
    sorted
  }

  /** The sweep over the ranges in `(min, max)` order that keeps the highest contiguously covered
      TXID; `None` until a range reaches down to `lo`. */
  method RangesCover(lo: nat, hi: int, ranges: seq<SeqRange>) returns (covered: bool)
    ensures covered <==> Covered(lo, hi, ranges)
  {
    if lo > hi {
      return true;
    }
    var sorted := Relevant(lo, ranges);
    var frontier := lo - 1;  // highest covered TXID so far; lo - 1 stands for `None`
    var i := 0;
    while i < |sorted|
      invariant 0 <= i <= |sorted|
      invariant lo - 1 <= frontier < hi
      invariant Covered(lo, frontier, ranges)
      invariant forall k :: 0 <= k < i && sorted[k].max > frontier ==> sorted[k].min > frontier + 1
    {
      var r := sorted[i];
      assert r in ranges;
      if r.min <= frontier + 1 {
        Extend(lo, frontier, r, ranges);
        frontier := if frontier < r.max then r.max else frontier;
      } else if frontier >= lo {
        break;
      }
      if frontier >= hi {
        return true;
      }
      i := i + 1;
    }
    assert forall j :: 0 <= j < |sorted| ==> !Contains(sorted[j], frontier + 1);
    Uncovered(frontier + 1, ranges, sorted);
    assert !Covered(lo, hi, ranges);
    return false;
  }

  /** The greatest member within `[lo, hi]`. */
  function NewestIn(txids: set<nat>, lo: nat, hi: int): (r: Option<nat>)
    ensures r.Some? ==> r.value in txids && lo <= r.value <= hi
    decreases hi - lo
  {
    if hi < lo then None
    else if hi in txids then Some(hi)
    else NewestIn(txids, lo, hi - 1)
  }

  lemma {:induction false} NewestIsNewest(txids: set<nat>, lo: nat, hi: int, x: nat)
    requires x in txids && lo <= x <= hi
    ensures NewestIn(txids, lo, hi).Some? && x <= NewestIn(txids, lo, hi).value
    decreases hi - lo
  {
    if hi !in txids {
      NewestIsNewest(txids, lo, hi - 1, x);
    }
  }
}
