/** What the two verifier passes report: at which files, in which order and with which numbers. No false alarm and none
    missing, for every listing. */
module VerifyAnswers {
  import opened Lists
  import opened Options
  import opened Ranges
  import opened Verify
  import opened VerifyChain

  ghost predicate Rising(at: seq<nat>) {
    forall i, j :: 0 <= i < j < |at| ==> at[i] < at[j]
  }

  /** The reports come from the files `at`, one each: those before which a hole lies that nothing bridges. */
  ghost predicate ReportedAt(live: seq<LiveFile>, n: nat, snapshots: set<nat>, merged: seq<SeqRange>, gaps: seq<Gap>,
                             at: seq<nat>)
    requires n <= |live|
  {
    && |at| == |gaps| && Rising(at) && (forall k :: 0 <= k < |at| ==> 0 < at[k] < n)
    && (forall i :: 0 <= i < n ==> (i in at <==> !Silent(live, i, snapshots, merged)))
    && forall k :: 0 <= k < |at| ==> gaps[k] == Gap(live[at[k]].key, live[at[k] - 1].max + 1, live[at[k]].min)
  }

  lemma ReportBehind(live: seq<LiveFile>, n: nat, snapshots: set<nat>, merged: seq<SeqRange>, gaps: seq<Gap>,
                     at: seq<nat>)
    requires n < |live| && ReportedAt(live, n, snapshots, merged, gaps, at) && !Silent(live, n, snapshots, merged)
    ensures var gap := Gap(live[n].key, live[n - 1].max + 1, live[n].min);
            ReportedAt(live, n + 1, snapshots, merged, gaps + [gap], at + [n])
  {
    assert forall i :: i in at + [n] <==> i in at || i == n;
  }

  lemma NoReportBehind(live: seq<LiveFile>, n: nat, snapshots: set<nat>, merged: seq<SeqRange>, gaps: seq<Gap>,
                       at: seq<nat>)
    requires n < |live| && ReportedAt(live, n, snapshots, merged, gaps, at) && Silent(live, n, snapshots, merged)
    ensures ReportedAt(live, n + 1, snapshots, merged, gaps, at)
  {
    assert n !in at;
  }

  lemma ReportHere(live: seq<LiveFile>, n: nat, snapshots: set<nat>, merged: seq<SeqRange>)
    requires n < |live|
    ensures Silent(live, n, snapshots, merged) ==>
              Reports(live, n + 1, snapshots, merged) == Reports(live, n, snapshots, merged)
    ensures !Silent(live, n, snapshots, merged) ==>
              && n > 0
              && Reports(live, n + 1, snapshots, merged) ==
                 Reports(live, n, snapshots, merged) + [Gap(live[n].key, live[n - 1].max + 1, live[n].min)]
  {
    var before := Reports(live, n, snapshots, merged);
    assert before + [] == before;
  }

  /** The gap detector reports each unbridged hole once, in order, with the file behind it, the TXID that was expected
      and the one that was found, for any list of files. */
  lemma {:induction false} ReportsAre(live: seq<LiveFile>, n: nat, snapshots: set<nat>, merged: seq<SeqRange>)
    returns (at: seq<nat>)
    requires n <= |live|
    ensures ReportedAt(live, n, snapshots, merged, Reports(live, n, snapshots, merged), at)
  {
    at := [];
    if n == 0 {
    } else {
      at := ReportsAre(live, n - 1, snapshots, merged);
      var before := Reports(live, n - 1, snapshots, merged);
      ReportHere(live, n - 1, snapshots, merged);
      if Silent(live, n - 1, snapshots, merged) {
        NoReportBehind(live, n - 1, snapshots, merged, before, at);
      } else {
        ReportBehind(live, n - 1, snapshots, merged, before, at);
        at := at + [n - 1];
      }
    }
  }

  /** The TXID and the checksum that the walk expects at file `i`. */
  ghost function ExpectedNext(tail: seq<VerifiedFile>, next: nat, i: nat): (r: nat)
    requires i <= |tail|
  {
    if i == 0 then next else tail[i - 1].max + 1
  }

  ghost function ExpectedPre(tail: seq<VerifiedFile>, pre: nat, i: nat): (r: nat)
    requires i <= |tail|
  {
    if i == 0 then pre else tail[i - 1].post
  }

  /** Some TXID in front of file `i` lies in no merged range. */
  ghost predicate LostBefore(tail: seq<VerifiedFile>, next: nat, merged: seq<SeqRange>, i: nat)
    requires i < |tail|
  {
    exists x: int :: ExpectedNext(tail, next, i) <= x < tail[i].min && !InSome(x, merged)
  }

  /** File `i` starts where it should, with another pre-checksum. */
  ghost predicate BrokenAt(tail: seq<VerifiedFile>, next: nat, pre: nat, i: nat)
    requires i < |tail|
  {
    tail[i].min == ExpectedNext(tail, next, i) && tail[i].pre != Some(ExpectedPre(tail, pre, i))
  }

  ghost predicate Flagged(tail: seq<VerifiedFile>, next: nat, pre: nat, merged: seq<SeqRange>, i: nat)
    requires i < |tail|
  {
    LostBefore(tail, next, merged, i) || BrokenAt(tail, next, pre, i)
  }

  /** The issue says which of the two it is, with the right numbers. */
  ghost predicate RightIssue(tail: seq<VerifiedFile>, next: nat, pre: nat, merged: seq<SeqRange>, i: nat, issue: Issue)
    requires i < |tail|
  {
    match issue
    case NoSnapshotFound => false
    case GapIssue(key, expected, got) =>
      && LostBefore(tail, next, merged, i)
      && (key, expected, got) == (tail[i].key, ExpectedNext(tail, next, i), tail[i].min)
    case ChecksumBreak(key, expected, got) =>
      && BrokenAt(tail, next, pre, i)
      && (key, expected, got) == (tail[i].key, ExpectedPre(tail, pre, i), tail[i].pre)
  }

  /** The issues come from the files `at`, one each, all at or behind file `from`: exactly those in front of which
      something is lost, or whose checksum does not link. */
  ghost predicate IssuesAt(tail: seq<VerifiedFile>, next: nat, pre: nat, merged: seq<SeqRange>, from: nat,
                           issues: seq<Issue>, at: seq<nat>)
  {
    && |at| == |issues| && Rising(at) && (forall k :: 0 <= k < |at| ==> from <= at[k] < |tail|)
    && (forall i :: from <= i < |tail| ==> (i in at <==> Flagged(tail, next, pre, merged, i)))
    && forall k :: 0 <= k < |at| ==> RightIssue(tail, next, pre, merged, at[k], issues[k])
  }

  /** What is found at one file. */
  lemma FileIssue(tail: seq<VerifiedFile>, next: nat, pre: nat, merged: seq<SeqRange>, i: nat)
    requires i < |tail|
    ensures var found := IssueAt(tail[i], ExpectedNext(tail, next, i), ExpectedPre(tail, pre, i), merged);
            if Flagged(tail, next, pre, merged, i)
            then |found| == 1 && RightIssue(tail, next, pre, merged, i, found[0])
            else found == []
  {
    assert LostBefore(tail, next, merged, i) <==> !Covered(ExpectedNext(tail, next, i), tail[i].min - 1, merged);
  }

  /** A finding in front of the later ones. */
  lemma IssueInFront(tail: seq<VerifiedFile>, next: nat, pre: nat, merged: seq<SeqRange>, i: nat, issue: Issue,
                     rest: seq<Issue>, at: seq<nat>)
    requires i < |tail| && IssuesAt(tail, next, pre, merged, i + 1, rest, at)
    requires Flagged(tail, next, pre, merged, i) && RightIssue(tail, next, pre, merged, i, issue)
    ensures IssuesAt(tail, next, pre, merged, i, [issue] + rest, [i] + at)
  {
    assert forall j :: j in [i] + at <==> j == i || j in at;
  }

  lemma JoinIssue(tail: seq<VerifiedFile>, next: nat, pre: nat, merged: seq<SeqRange>, i: nat, found: seq<Issue>,
                  rest: seq<Issue>, later: seq<nat>)
    returns (at: seq<nat>)
    requires i < |tail| && IssuesAt(tail, next, pre, merged, i + 1, rest, later)
    requires if Flagged(tail, next, pre, merged, i)
             then |found| == 1 && RightIssue(tail, next, pre, merged, i, found[0])
             else found == []
    ensures IssuesAt(tail, next, pre, merged, i, found + rest, at)
  {
    at := later;
    if found == [] {
      assert found + rest == rest;
      assert i !in later;
    } else {
      IssueInFront(tail, next, pre, merged, i, found[0], rest, later);
      assert found == [found[0]];
      at := [i] + later;
    }
  }

  lemma IssuesAtFile(tail: seq<VerifiedFile>, next: nat, pre: nat, merged: seq<SeqRange>, i: nat)
    requires i < |tail|
    ensures ChainIssues(tail[i..], ExpectedNext(tail, next, i), ExpectedPre(tail, pre, i), merged) ==
            IssueAt(tail[i], ExpectedNext(tail, next, i), ExpectedPre(tail, pre, i), merged) +
            ChainIssues(tail[i + 1..], ExpectedNext(tail, next, i + 1), ExpectedPre(tail, pre, i + 1), merged)
  {
    assert tail[i..][1..] == tail[i + 1..];
  }

  lemma {:induction false} IssuesFrom(tail: seq<VerifiedFile>, next: nat, pre: nat, merged: seq<SeqRange>, i: nat)
    returns (at: seq<nat>)
    requires i <= |tail|
    ensures var issues := ChainIssues(tail[i..], ExpectedNext(tail, next, i), ExpectedPre(tail, pre, i), merged);
            IssuesAt(tail, next, pre, merged, i, issues, at)
    decreases |tail| - i
  {
    at := [];
    if i == |tail| {
    } else {
      var found := IssueAt(tail[i], ExpectedNext(tail, next, i), ExpectedPre(tail, pre, i), merged);
      FileIssue(tail, next, pre, merged, i);
      IssuesAtFile(tail, next, pre, merged, i);
      at := IssuesFrom(tail, next, pre, merged, i + 1);
      var rest := ChainIssues(tail[i + 1..], ExpectedNext(tail, next, i + 1), ExpectedPre(tail, pre, i + 1), merged);
      at := JoinIssue(tail, next, pre, merged, i, found, rest, at);
    }
  }

  /** The chain check reports exactly the files in front of which a TXID is in no merged range, and those that start
      where they should with another pre-checksum: once each, in order, with the expected and the found numbers. */
  lemma IssuesAre(tail: seq<VerifiedFile>, next: nat, pre: nat, merged: seq<SeqRange>) returns (at: seq<nat>)
    ensures IssuesAt(tail, next, pre, merged, 0, ChainIssues(tail, next, pre, merged), at)
  {
    at := IssuesFrom(tail, next, pre, merged, 0);
    assert tail[0..] == tail;
  }

  /** `f` at position `i` is the last listed of the snapshots with the greatest generation and end. */
  ghost predicate BaseAt(files: seq<VerifiedFile>, f: VerifiedFile, i: nat) {
    && i < |files| && files[i] == f && IsBase(f)
    && forall j :: 0 <= j < |files| && IsBase(files[j]) ==>
         && Leq((files[j].generation, files[j].max), (f.generation, f.max))
         && ((files[j].generation, files[j].max) == (f.generation, f.max) ==> j <= i)
  }

  /** The snapshot that the check starts from, ties included. */
  lemma {:induction false} BaseIsLast(files: seq<VerifiedFile>) returns (i: nat)
    requires ChainBase(files).Some?
    ensures BaseAt(files, ChainBase(files).value, i)
  {
    var init, f := files[..|files| - 1], files[|files| - 1];
    if ChainBase(files) == ChainBase(init) && ChainBase(files) != Some(f) {
      i := BaseIsLast(init);
    } else {
      i := |files| - 1;
      forall j | 0 <= j < |files| && IsBase(files[j])
        ensures Leq((files[j].generation, files[j].max), (f.generation, f.max))
      {
        assert files[j] in files;
      }
    }
  }

  /** The files that the walk sees: the live ones that reach past the snapshot, none lost or repeated, in order. */
  lemma TailInOrder(files: seq<VerifiedFile>, snap: VerifiedFile)
    ensures var tail := Tail(files, snap);
            && multiset(tail) == multiset(Filter((f: VerifiedFile) => ReachesPast(f, snap), files))
            && forall i, j :: 0 <= i < j < |tail| ==> tail[i].min <= tail[j].min
  {
    SortBySorts(FileKey, Filter((f: VerifiedFile) => ReachesPast(f, snap), files));
    var tail := Tail(files, snap);
    forall i, j | 0 <= i < j < |tail|
      ensures tail[i].min <= tail[j].min
    {
      assert Leq(FileKey(tail[i]), FileKey(tail[j]));
    }
  }

  /** And those that start at the same TXID in the order of the listing. */
  lemma TailKeepsOrder(files: seq<VerifiedFile>, snap: VerifiedFile, min: nat)
    ensures var starts := (f: VerifiedFile) => f.min == min;
            Filter(starts, Tail(files, snap)) ==
            Filter(starts, Filter((f: VerifiedFile) => ReachesPast(f, snap), files))
  {
    var starts := (f: VerifiedFile) => f.min == min;
    SortIsStable(FileKey, starts, Filter((f: VerifiedFile) => ReachesPast(f, snap), files));
  }

  lemma NamesFiles(tail: seq<VerifiedFile>, next: nat, pre: nat, merged: seq<SeqRange>, issues: seq<Issue>,
                   at: seq<nat>)
    requires IssuesAt(tail, next, pre, merged, 0, issues, at)
    ensures NoSnapshotFound !in issues
  {
    forall k | 0 <= k < |issues|
      ensures issues[k] != NoSnapshotFound
    {
      assert RightIssue(tail, next, pre, merged, at[k], issues[k]);
    }
  }

  /** The whole check: without a snapshot it reports that alone, and otherwise the issues of the tail behind it. */
  lemma ReportedAre(files: seq<VerifiedFile>, merged: seq<SeqRange>, snap: VerifiedFile) returns (at: seq<nat>)
    requires ChainBase(files) == Some(snap)
    ensures IssuesAt(Tail(files, snap), snap.max + 1, snap.post, merged, 0, ReportedIssues(files, merged), at)
    ensures NoSnapshotFound !in ReportedIssues(files, merged)
  {
    ReportedFor(files, snap, merged);
    at := IssuesAre(Tail(files, snap), snap.max + 1, snap.post, merged);
    NamesFiles(Tail(files, snap), snap.max + 1, snap.post, merged, ReportedIssues(files, merged), at);
  }

  /** Without a file of a snapshot generation and without the base `1-1` that alone is reported. */
  lemma NoSnapshotIff(files: seq<VerifiedFile>, merged: seq<SeqRange>)
    ensures NoSnapshotFound in ReportedIssues(files, merged) <==>
            forall f :: f in files ==> f.generation == 0 && !(f.min == 1 && f.max == 1)
    ensures NoSnapshotFound in ReportedIssues(files, merged) ==> ReportedIssues(files, merged) == [NoSnapshotFound]
  {
    assert forall f: VerifiedFile :: IsBase(f) <==> f.generation > 0 || (f.min == 1 && f.max == 1);
    if ChainBase(files).Some? {
      var at := ReportedAre(files, merged, ChainBase(files).value);
    }
  }
}
