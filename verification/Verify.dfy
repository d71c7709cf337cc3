/** The backup verifier's two passes over TXID intervals. */
module Verify {
  import opened Options
  import opened Ranges

  /** A live (generation 0) file of the listing. */
  datatype LiveFile = LiveFile(key: string, min: nat, max: nat)

  datatype Gap = Gap(key: string, expected: nat, actual: nat)

  const GENERATION_LIVE: nat := 0

  /** A generation folder past the live one, or the base object `1-1`. */
  predicate IsSnapshot(generation: nat, min: nat, max: nat) {
    generation > GENERATION_LIVE || (min == 1 && max == 1)
  }

  /** The hole `[lo, hi]` is bridged: for some choice of a snapshot inside it, or for none, merged ranges
      cover everything above the snapshot. */
  ghost predicate Bridged(lo: nat, hi: int, snapshots: set<nat>, merged: seq<SeqRange>) {
    Covered(lo, hi, merged) || exists s :: s in snapshots && lo <= s <= hi && Covered(s + 1, hi, merged)
  }

  /** The files `i - 1` and `i` leave a hole between them. */
  predicate HoleBefore(live: seq<LiveFile>, i: nat)
    requires i < |live|
  {
    i > 0 && live[i].min > live[i - 1].max + 1
  }

  /** What the detector reports at file `i`: the hole before it, unless it is bridged. */
  ghost function ReportAt(live: seq<LiveFile>, i: nat, snapshots: set<nat>, merged: seq<SeqRange>): (r: seq<Gap>)
    requires i < |live|
  {
    if HoleBefore(live, i) && !Bridged(live[i - 1].max + 1, live[i].min - 1, snapshots, merged)
    then [Gap(live[i].key, live[i - 1].max + 1, live[i].min)]
    else []
  }

  ghost function Reports(live: seq<LiveFile>, n: nat, snapshots: set<nat>, merged: seq<SeqRange>): (r: seq<Gap>)
    requires n <= |live|
  {
    if n == 0 then [] else Reports(live, n - 1, snapshots, merged) + ReportAt(live, n - 1, snapshots, merged)
  }

  /** Trying the newest snapshot inside the hole is as good as trying them all. */
  lemma NewestSuffices(lo: nat, hi: int, snapshots: set<nat>, merged: seq<SeqRange>)
    ensures Bridged(lo, hi, snapshots, merged) <==>
            match NewestIn(snapshots, lo, hi)
            case None => Covered(lo, hi, merged)
            case Some(s) => Covered(s + 1, hi, merged)
  {
    var newest := NewestIn(snapshots, lo, hi);
    if Covered(lo, hi, merged) {
      assert newest.Some? ==> Covered(newest.value + 1, hi, merged);
    } else if Bridged(lo, hi, snapshots, merged) {
      var s :| s in snapshots && lo <= s <= hi && Covered(s + 1, hi, merged);
      NewestIsNewest(snapshots, lo, hi, s);
      assert Covered(newest.value + 1, hi, merged);
    }
  }

  /** The detector over the live files, given in `min` order. */
  method DetectLiveTxidGaps(live: seq<LiveFile>, snapshots: set<nat>, merged: seq<SeqRange>)
    returns (gaps: seq<Gap>)
    ensures gaps == Reports(live, |live|, snapshots, merged)
  {
    gaps := [];
    var expectedNext: Option<nat> := None;
    for i := 0 to |live|
      invariant expectedNext == if i == 0 then None else Some(live[i - 1].max + 1)
      invariant gaps == Reports(live, i, snapshots, merged)
    {
      var f := live[i];
      if expectedNext.Some? && f.min > expectedNext.value {
        var expected := expectedNext.value;
        var holeEnd := f.min - 1;
        var bridged: bool;
        match NewestIn(snapshots, expected, holeEnd) {
          case Some(s) => bridged := RangesCover(s + 1, holeEnd, merged);
          case None => bridged := RangesCover(expected, holeEnd, merged);
        }
        NewestSuffices(expected, holeEnd, snapshots, merged);
        if !bridged {
          gaps := gaps + [Gap(f.key, expected, f.min)];
        }
      }
      expectedNext := Some(f.max + 1);
    }
  }

  ghost predicate MinSorted(live: seq<LiveFile>) {
    && (forall i :: 0 <= i < |live| ==> live[i].min <= live[i].max)
    && (forall i, j :: 0 <= i < j < |live| ==> live[i].min <= live[j].min)
  }

  ghost predicate Consecutive(live: seq<LiveFile>) {
    && (forall i :: 0 <= i < |live| ==> live[i].min <= live[i].max)
    && (forall i, j :: 0 <= i < j < |live| ==> live[i].max < live[j].min)
  }

  ghost predicate InLive(x: int, live: seq<LiveFile>) {
    exists i :: 0 <= i < |live| && live[i].min <= x <= live[i].max
  }

  /** `x` lies in the hole before file `i`, and a snapshot inside that hole is at or above it. */
  ghost predicate SupersededAt(x: int, live: seq<LiveFile>, i: nat, snapshots: set<nat>)
    requires i < |live|
  {
    HoleBefore(live, i) && live[i - 1].max < x && exists s :: s in snapshots && x <= s < live[i].min
  }

  /** Some restore path supplies TXID `x`. */
  ghost predicate Supplied(x: int, live: seq<LiveFile>, snapshots: set<nat>, merged: seq<SeqRange>) {
    || InLive(x, live)
    || InSome(x, merged)
    || exists i :: 0 <= i < |live| && SupersededAt(x, live, i, snapshots)
  }

  /** Nothing is reported at file `i`. */
  ghost predicate Silent(live: seq<LiveFile>, i: nat, snapshots: set<nat>, merged: seq<SeqRange>)
    requires i < |live|
  {
    HoleBefore(live, i) ==> Bridged(live[i - 1].max + 1, live[i].min - 1, snapshots, merged)
  }

  lemma SilentReport(live: seq<LiveFile>, i: nat, snapshots: set<nat>, merged: seq<SeqRange>)
    requires i < |live| && ReportAt(live, i, snapshots, merged) == []
    ensures Silent(live, i, snapshots, merged)
  {
  }

  lemma {:induction false} SilentAt(live: seq<LiveFile>, n: nat, i: nat, snapshots: set<nat>, merged: seq<SeqRange>)
    requires i < n <= |live| && Reports(live, n, snapshots, merged) == []
    ensures Silent(live, i, snapshots, merged)
  {
    assert |Reports(live, n, snapshots, merged)|
        == |Reports(live, n - 1, snapshots, merged)| + |ReportAt(live, n - 1, snapshots, merged)|;
    if i < n - 1 {
      SilentAt(live, n - 1, i, snapshots, merged);
    } else {
      SilentReport(live, i, snapshots, merged);
    }
  }

  /** A non-empty result was reported at some file. */
  lemma {:induction false} ReportedAt(live: seq<LiveFile>, n: nat, snapshots: set<nat>, merged: seq<SeqRange>)
    returns (i: nat)
    requires n <= |live| && Reports(live, n, snapshots, merged) != []
    ensures i < n && !Silent(live, i, snapshots, merged)
  {
    if ReportAt(live, n - 1, snapshots, merged) == [] {
      i := ReportedAt(live, n - 1, snapshots, merged);
    } else {
      i := n - 1;
    }
  }

  /** No missed hole: with nothing reported, every TXID from the first file's start to the end of any file
      is supplied, even if files overlap. */
  lemma {:induction false} NoMissedHole(live: seq<LiveFile>, snapshots: set<nat>, merged: seq<SeqRange>, n: nat, x: int)
    requires MinSorted(live) && Reports(live, |live|, snapshots, merged) == []
    requires n < |live| && live[0].min <= x <= live[n].max
    ensures Supplied(x, live, snapshots, merged)
  {
    if live[n].min <= x {
      assert InLive(x, live);
    } else if n > 0 {
      if x <= live[n - 1].max {
        NoMissedHole(live, snapshots, merged, n - 1, x);
      } else {
        SilentAt(live, |live|, n, snapshots, merged);
        HoleSupplied(live, snapshots, merged, n, x);
      }
    }
  }

  lemma HoleSupplied(live: seq<LiveFile>, snapshots: set<nat>, merged: seq<SeqRange>, n: nat, x: int)
    requires n < |live| && HoleBefore(live, n) && live[n - 1].max < x < live[n].min
    requires Bridged(live[n - 1].max + 1, live[n].min - 1, snapshots, merged)
    ensures Supplied(x, live, snapshots, merged)
  {
    var lo, hi := live[n - 1].max + 1, live[n].min - 1;
    if !Covered(lo, hi, merged) {
      var s :| s in snapshots && lo <= s <= hi && Covered(s + 1, hi, merged);
      if x <= s {
        assert SupersededAt(x, live, n, snapshots);
      }
    }
  }

  /** No false alarm: among consecutive files a reported hole holds a TXID that nothing supplies. */
  lemma ReportIsGenuine(live: seq<LiveFile>, snapshots: set<nat>, merged: seq<SeqRange>, i: nat)
    returns (x: int)
    requires Consecutive(live) && i < |live| && !Silent(live, i, snapshots, merged)
    ensures live[i - 1].max < x < live[i].min && !Supplied(x, live, snapshots, merged)
  {
    var lo, hi := live[i - 1].max + 1, live[i].min - 1;
    NewestSuffices(lo, hi, snapshots, merged);
    match NewestIn(snapshots, lo, hi) {
      case None => x :| lo <= x <= hi && !InSome(x, merged);
      case Some(s) => x :| s + 1 <= x <= hi && !InSome(x, merged);
    }
    forall s | s in snapshots && lo <= s <= hi
      ensures s < x
    {
      NewestIsNewest(snapshots, lo, hi, s);
    }
    forall j | 0 <= j < |live|
      ensures !(live[j].min <= x <= live[j].max) && !SupersededAt(x, live, j, snapshots)
    {
      if j < i {
        assert live[j].max <= live[i - 1].max;
      } else if j > i {
        assert live[i].min <= live[j - 1].max;
      }
    }
  }

  /** The detector is silent exactly when every TXID between the first and the last live file is supplied. */
  lemma SilentIff(live: seq<LiveFile>, snapshots: set<nat>, merged: seq<SeqRange>)
    requires Consecutive(live) && live != []
    ensures Reports(live, |live|, snapshots, merged) == [] <==>
            forall x :: live[0].min <= x <= live[|live| - 1].max ==> Supplied(x, live, snapshots, merged)
  {
    if Reports(live, |live|, snapshots, merged) == [] {
      forall x | live[0].min <= x <= live[|live| - 1].max
        ensures Supplied(x, live, snapshots, merged)
      {
        NoMissedHole(live, snapshots, merged, |live| - 1, x);
      }
    } else {
      var i := ReportedAt(live, |live|, snapshots, merged);
      var x := ReportIsGenuine(live, snapshots, merged, i);
      assert live[0].min <= live[i - 1].max && live[i].min <= live[|live| - 1].max;
    }
  }

  /** More snapshots or merged ranges can only remove reports, file by file. */
  lemma MoreBridgesFewerReports(live: seq<LiveFile>, i: nat, snapshots: set<nat>, more: set<nat>,
                                merged: seq<SeqRange>, extra: seq<SeqRange>)
    requires i < |live| && snapshots <= more && forall r :: r in merged ==> r in extra
    ensures var fewer := ReportAt(live, i, more, extra);
            fewer == ReportAt(live, i, snapshots, merged) || fewer == []
  {
    if HoleBefore(live, i) && Bridged(live[i - 1].max + 1, live[i].min - 1, snapshots, merged) {
      var lo, hi := live[i - 1].max + 1, live[i].min - 1;
      if Covered(lo, hi, merged) {
        CoveredByMore(lo, hi, merged, extra);
      } else {
        var s :| s in snapshots && lo <= s <= hi && Covered(s + 1, hi, merged);
        CoveredByMore(s + 1, hi, merged, extra);
      }
    }
  }

  lemma CoveredByMore(lo: int, hi: int, merged: seq<SeqRange>, extra: seq<SeqRange>)
    requires Covered(lo, hi, merged) && forall r :: r in merged ==> r in extra
    ensures Covered(lo, hi, extra)
  {
    forall x | lo <= x <= hi
      ensures InSome(x, extra)
    {
      assert InSome(x, merged);
      var i :| 0 <= i < |merged| && Contains(merged[i], x);
      assert merged[i] in extra;
      var j :| 0 <= j < |extra| && extra[j] == merged[i];
      assert Contains(extra[j], x);
    }
  }
}
