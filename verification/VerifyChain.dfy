/** The snapshot-to-incremental chain check, and what a clean result means for a replica. */
module VerifyChain {
  import opened Lists
  import opened Options
  import opened Pages
  import opened Ranges
  import opened Replica
  import opened ReplicaConvergence
  import opened ReplicaSafety
  import opened Verify

  /** A file whose header was decoded and matched its name. */
  datatype VerifiedFile = VerifiedFile(key: string, generation: nat, min: nat, max: nat, pre: Option<nat>, post: nat)

  datatype Issue =
    | NoSnapshotFound
    | GapIssue(key: string, expected: nat, got: nat)
    | ChecksumBreak(key: string, expectedPre: nat, pre: Option<nat>)

  predicate IsBase(f: VerifiedFile) {
    IsSnapshot(f.generation, f.min, f.max)
  }

  function FileKey(f: VerifiedFile): Key { (f.min, 0) }

  /** The snapshot with the greatest (generation, max), the last listed among equals. */
  function ChainBase(files: seq<VerifiedFile>): (r: Option<VerifiedFile>)
    ensures r.None? <==> forall f :: f in files ==> !IsBase(f)
    ensures r.Some? ==> r.value in files && IsBase(r.value)
    ensures r.Some? ==>
              forall f :: f in files && IsBase(f) ==> Leq((f.generation, f.max), (r.value.generation, r.value.max))
  {
    if files == [] then None
    else
      var best := ChainBase(files[..|files| - 1]);
      var f := files[|files| - 1];
      if IsBase(f) && (best.None? || Leq((best.value.generation, best.value.max), (f.generation, f.max))) then Some(f)
      else best
  }

  predicate ReachesPast(f: VerifiedFile, snapshot: VerifiedFile) {
    f.generation == GENERATION_LIVE && f.max >= snapshot.max + 1
  }

  /** The live files that reach past `snapshot`, in `min` order. */
  function Tail(files: seq<VerifiedFile>, snapshot: VerifiedFile): (r: seq<VerifiedFile>) {
    SortBy(FileKey, Filter((f: VerifiedFile) => ReachesPast(f, snapshot), files))
  }

  lemma TailMembers(files: seq<VerifiedFile>, snapshot: VerifiedFile)
    ensures forall f :: f in Tail(files, snapshot) <==> f in files && ReachesPast(f, snapshot)
  {
    SortByMembers(FileKey, Filter((f: VerifiedFile) => ReachesPast(f, snapshot), files));
  }

  /** The issue found at `f` when the chain stands at `next` with checksum `pre`, if any. */
  ghost function IssueAt(f: VerifiedFile, next: nat, pre: nat, merged: seq<SeqRange>): (r: seq<Issue>) {
    if f.min != next then
      if Covered(next, f.min - 1, merged) then [] else [GapIssue(f.key, next, f.min)]
    else if f.pre != Some(pre) then [ChecksumBreak(f.key, pre, f.pre)]
    else []
  }

  ghost function ChainIssues(tail: seq<VerifiedFile>, next: nat, pre: nat, merged: seq<SeqRange>): (r: seq<Issue>) {
    if tail == [] then []
    else IssueAt(tail[0], next, pre, merged) + ChainIssues(tail[1..], tail[0].max + 1, tail[0].post, merged)
  }

  method CheckFile(f: VerifiedFile, next: nat, pre: nat, merged: seq<SeqRange>) returns (found: seq<Issue>)
    ensures found == IssueAt(f, next, pre, merged)
  {
    found := [];
    if f.min != next {
      var bridged := RangesCover(next, f.min - 1, merged);
      if !bridged {
        found := [GapIssue(f.key, next, f.min)];
      }
    } else if f.pre != Some(pre) {
      found := [ChecksumBreak(f.key, pre, f.pre)];
    }
  }

  /** The walk over the tail. Bridged or not, a discontinuity starts a fresh segment at the file behind it. */
  method CheckTail(tail: seq<VerifiedFile>, next: nat, pre: nat, merged: seq<SeqRange>) returns (issues: seq<Issue>)
    ensures issues == ChainIssues(tail, next, pre, merged)
  {
    var expectedNext: nat, expectedPre: nat := next, pre;
    issues := [];
    for i := 0 to |tail|
      invariant ChainIssues(tail, next, pre, merged) ==
                issues + ChainIssues(tail[i..], expectedNext, expectedPre, merged)
    {
      var f := tail[i];
      assert tail[i..][1..] == tail[i + 1..];
      var found := CheckFile(f, expectedNext, expectedPre, merged);
      assert ChainIssues(tail[i..], expectedNext, expectedPre, merged) ==
             found + ChainIssues(tail[i + 1..], f.max + 1, f.post, merged);
      issues := issues + found;
      expectedNext := f.max + 1;
      expectedPre := f.post;
    }
  }

  method VerifyLtxChain(files: seq<VerifiedFile>, merged: seq<SeqRange>) returns (issues: seq<Issue>)
    ensures issues == ReportedIssues(files, merged)
  {
    var base := ChainBase(files);
    if base.None? {
      return [NoSnapshotFound];
    }
    var snap := base.value;
    var tail := Tail(files, snap);
    assert ReportedIssues(files, merged) == ChainIssues(tail, snap.max + 1, snap.post, merged);
    issues := CheckTail(tail, snap.max + 1, snap.post, merged);
  }

  ghost function ReportedIssues(files: seq<VerifiedFile>, merged: seq<SeqRange>): (r: seq<Issue>) {
    match ChainBase(files)
    case None => [NoSnapshotFound]
    case Some(snap) => ChainIssues(Tail(files, snap), snap.max + 1, snap.post, merged)
  }

  ghost predicate GapFree(issues: seq<Issue>) {
    forall issue :: issue in issues ==> !issue.GapIssue?
  }

  /** `x` lies in one of the files. */
  ghost predicate InFile(x: int, files: seq<VerifiedFile>) {
    exists f :: f in files && f.min <= x <= f.max
  }

  lemma GapReported(tail: seq<VerifiedFile>, next: nat, pre: nat, merged: seq<SeqRange>)
    requires tail != [] && tail[0].min != next && !Covered(next, tail[0].min - 1, merged)
    ensures GapIssue(tail[0].key, next, tail[0].min) in ChainIssues(tail, next, pre, merged)
  {
    assert ChainIssues(tail, next, pre, merged)[0] == GapIssue(tail[0].key, next, tail[0].min);
  }

  /** No gap reported in the tail: everything from `next` to the end of any of its files is in a file or in
      a merged range, even if files overlap. */
  lemma {:induction false} TailCovers(tail: seq<VerifiedFile>, next: nat, pre: nat, merged: seq<SeqRange>, n: nat,
                                      x: int)
    requires GapFree(ChainIssues(tail, next, pre, merged))
    requires n < |tail| && next <= x <= tail[n].max
    ensures InFile(x, tail) || InSome(x, merged)
  {
    var f := tail[0];
    var rest := ChainIssues(tail[1..], f.max + 1, f.post, merged);
    assert ChainIssues(tail, next, pre, merged) == IssueAt(f, next, pre, merged) + rest;
    if f.min <= x <= f.max {
      assert f in tail;
    } else if x < f.min {
      if !Covered(next, f.min - 1, merged) {
        GapReported(tail, next, pre, merged);
        assert false;
      }
    } else {
      assert tail[n] == tail[1..][n - 1];
      TailCovers(tail[1..], f.max + 1, f.post, merged, n - 1, x);
      assert InFile(x, tail[1..]) ==> InFile(x, tail);
    }
  }

  /** No missed hole: if the check reports no gap, every TXID above its snapshot, up to the end of any live
      file, is in a live file or in a merged range. */
  lemma ChainNoMissedHole(files: seq<VerifiedFile>, merged: seq<SeqRange>, last: VerifiedFile, x: int)
    requires ChainBase(files).Some? && GapFree(ReportedIssues(files, merged))
    requires last in files && last.generation == GENERATION_LIVE && ChainBase(files).value.max < x <= last.max
    ensures InFile(x, files) || InSome(x, merged)
  {
    var snap := ChainBase(files).value;
    ReportedFor(files, snap, merged);
    TailCoversFiles(files, snap, merged, last, x);
  }

  lemma ReportedFor(files: seq<VerifiedFile>, snap: VerifiedFile, merged: seq<SeqRange>)
    requires ChainBase(files) == Some(snap)
    ensures ReportedIssues(files, merged) == ChainIssues(Tail(files, snap), snap.max + 1, snap.post, merged)
  {
  }

  lemma TailCoversFiles(files: seq<VerifiedFile>, snap: VerifiedFile, merged: seq<SeqRange>, last: VerifiedFile, x: int)
    requires GapFree(ChainIssues(Tail(files, snap), snap.max + 1, snap.post, merged))
    requires last in files && last.generation == GENERATION_LIVE && snap.max < x <= last.max
    ensures InFile(x, files) || InSome(x, merged)
  {
    TailMembers(files, snap);
    CoveredPast(files, snap, Tail(files, snap), merged, last, x);
  }

  lemma CoveredPast(files: seq<VerifiedFile>, snap: VerifiedFile, tail: seq<VerifiedFile>, merged: seq<SeqRange>,
                    last: VerifiedFile, x: int)
    requires GapFree(ChainIssues(tail, snap.max + 1, snap.post, merged))
    requires forall f :: f in tail <==> f in files && ReachesPast(f, snap)
    requires last in files && last.generation == GENERATION_LIVE && snap.max < x <= last.max
    ensures InFile(x, files) || InSome(x, merged)
  {
    assert last in tail;
    var n :| 0 <= n < |tail| && tail[n] == last;
    TailCovers(tail, snap.max + 1, snap.post, merged, n, x);
  }

  /** Every file starts right behind the one before it, and its pre-checksum is that one's post-checksum. */
  ghost predicate Linked(tail: seq<VerifiedFile>, next: nat, pre: nat) {
    tail == [] || (tail[0].min == next && tail[0].pre == Some(pre) && Linked(tail[1..], tail[0].max + 1, tail[0].post))
  }

  /** Without merged ranges a clean tail of disjoint files is linked from end to end. */
  lemma {:induction false} CleanIsLinked(tail: seq<VerifiedFile>, next: nat, pre: nat)
    requires forall f :: f in tail ==> next <= f.min <= f.max
    requires forall i, j :: 0 <= i < j < |tail| ==> tail[i].max < tail[j].min
    requires ChainIssues(tail, next, pre, []) == []
    ensures Linked(tail, next, pre)
  {
    if tail == [] {
    } else {
      var f := tail[0];
      assert |ChainIssues(tail, next, pre, [])|
          == |IssueAt(f, next, pre, [])| + |ChainIssues(tail[1..], f.max + 1, f.post, [])|;
      assert next < f.min ==> !InSome(next, []) && !Covered(next, f.min - 1, []);
      forall g | g in tail[1..]
        ensures f.max + 1 <= g.min <= g.max
      {
        var i :| 0 <= i < |tail[1..]| && tail[1..][i] == g;
        assert g == tail[i + 1];
      }
      CleanIsLinked(tail[1..], f.max + 1, f.post);
    }
  }

  /** The listing a replica sees of the verified files. */
  ghost function Listing(files: seq<VerifiedFile>, pages: VerifiedFile -> seq<PageWrite>): (r: seq<LtxFile>)
    ensures |r| == |files|
  {
    seq(|files|, i requires 0 <= i < |files| => AsListed(files[i], pages))
  }

  ghost function AsListed(f: VerifiedFile, pages: VerifiedFile -> seq<PageWrite>): LtxFile {
    LtxFile(IsBase(f), f.min, f.max, pages(f))
  }

  lemma ListingMembers(files: seq<VerifiedFile>, pages: VerifiedFile -> seq<PageWrite>, g: LtxFile)
    ensures g in Listing(files, pages) <==> exists f :: f in files && AsListed(f, pages) == g
  {
    if g in Listing(files, pages) {
      var i :| 0 <= i < |files| && Listing(files, pages)[i] == g;
      assert files[i] in files;
    }
    if exists f :: f in files && AsListed(f, pages) == g {
      var f :| f in files && AsListed(f, pages) == g;
      var i :| 0 <= i < |files| && files[i] == f;
      assert Listing(files, pages)[i] == g;
    }
  }

  ghost predicate Apart(f: VerifiedFile, g: VerifiedFile) {
    IsBase(f) || IsBase(g) || f.max < g.min || g.max < f.min
  }

  /** Real TXIDs, incrementals that do not overlap, and none that straddles the chosen snapshot. */
  ghost predicate Sound(files: seq<VerifiedFile>, snap: VerifiedFile) {
    && (forall f :: f in files ==> 1 <= f.min <= f.max)
    && Pairwise(Apart, files)
    && (forall f :: f in files && !IsBase(f) ==> !(f.min <= snap.max < f.max))
  }

  lemma TailAscends(files: seq<VerifiedFile>, snap: VerifiedFile)
    requires Sound(files, snap) && snap in files
    ensures var tail := Tail(files, snap);
            && (forall f :: f in tail ==> snap.max + 1 <= f.min <= f.max && !IsBase(f))
            && (forall i, j :: 0 <= i < j < |tail| ==> tail[i].max < tail[j].min)
  {
    var keep := (f: VerifiedFile) => ReachesPast(f, snap);
    FilterPairwise(Apart, keep, files);
    SortPairwise(Apart, FileKey, Filter(keep, files));
    SortBySorts(FileKey, Filter(keep, files));
    TailMembers(files, snap);
    var tail := Tail(files, snap);
    assert Pairwise(Apart, tail);
    forall i, j | 0 <= i < j < |tail|
      ensures tail[i].max < tail[j].min
    {
      assert tail[i] in tail && tail[j] in tail;
      assert Apart(tail[i], tail[j]);
      assert Leq(FileKey(tail[i]), FileKey(tail[j]));
    }
  }

  lemma {:induction false} LinkedAt(tail: seq<VerifiedFile>, next: nat, pre: nat, i: nat)
    requires Linked(tail, next, pre) && i < |tail|
    ensures if i == 0 then tail[i].min == next && tail[i].pre == Some(pre)
            else tail[i].min == tail[i - 1].max + 1 && tail[i].pre == Some(tail[i - 1].post)
  {
    if i == 0 {
    } else {
      LinkedAt(tail[1..], tail[0].max + 1, tail[0].post, i - 1);
    }
  }

  lemma ListingLayout(files: seq<VerifiedFile>, pages: VerifiedFile -> seq<PageWrite>, snap: VerifiedFile)
    requires Sound(files, snap)
    ensures Layout(Listing(files, pages)) && AtBoundary(Listing(files, pages), snap.max)
  {
    var listing := Listing(files, pages);
    forall g | g in listing
      ensures g.max >= 1 && (!g.isSnapshot ==> 1 <= g.min <= g.max && !(g.min <= snap.max < g.max))
    {
      ListingMembers(files, pages, g);
    }
    forall i, j | 0 <= i < |listing| && 0 <= j < |listing| && i != j
      ensures Disjoint(listing[i], listing[j])
    {
      assert Apart(files[i], files[j]);
    }
  }

  /** A linked tail leaves no gap above the snapshot in the replica's listing. */
  lemma LinkedNoGap(files: seq<VerifiedFile>, pages: VerifiedFile -> seq<PageWrite>, snap: VerifiedFile,
                    tail: seq<VerifiedFile>)
    requires Linked(tail, snap.max + 1, snap.post)
    requires forall f :: f in tail <==> f in files && ReachesPast(f, snap)
    requires forall f :: f in tail ==> !IsBase(f)
    requires forall f :: f in files ==> f.min <= f.max
    ensures NoGapAbove(Listing(files, pages), snap.max)
  {
    forall g | RunHead(Listing(files, pages), g)
      ensures g.min <= snap.max + 1
    {
      ListingMembers(files, pages, g);
      var f :| f in files && AsListed(f, pages) == g;
      if g.min > snap.max + 1 {
        assert f in tail;
        var i :| 0 <= i < |tail| && tail[i] == f;
        LinkedAt(tail, snap.max + 1, snap.post, i);
        if i > 0 {
          ListingMembers(files, pages, AsListed(tail[i - 1], pages));
        }
      }
    }
  }

  /** Verify implies replay: if the chain check reports nothing, with no merged ranges to excuse a hole, then
      pre- and post-checksums link all later live files, and an error-free poll of a replica standing at the
      verified snapshot applies every one of them, never taking the gap branch, and ends at the live head. */
  lemma VerifyImpliesReplay(files: seq<VerifiedFile>, pages: VerifiedFile -> seq<PageWrite>, s: State)
    requires ReportedIssues(files, []) == []
    requires ChainBase(files).Some? && Sound(files, ChainBase(files).value)
    requires s.local.Some? && s.txid == ChainBase(files).value.max
    ensures var snap := ChainBase(files).value;
            && Linked(Tail(files, snap), snap.max + 1, snap.post)
            && (forall f :: f in files && f.generation == GENERATION_LIVE && f.max > snap.max ==>
                  AsListed(f, pages) in Pending(Listing(files, pages), s.txid))
    ensures var p := Pending(Listing(files, pages), s.txid);
            var (r, outcome) := PollStep(s, Some(Listing(files, pages)), NoFaults);
            p != [] ==>
              && outcome == Applied(|p|)
              && (forall f :: f in files && f.generation == GENERATION_LIVE ==> f.max <= r.txid)
              && (exists f :: f in files && f.generation == GENERATION_LIVE && f.max == r.txid)
  {
    var snap := ChainBase(files).value;
    var listing := Listing(files, pages);
    CleanTailLinked(files, snap);
    ListingLayout(files, pages, snap);
    TailMembers(files, snap);
    TailAscends(files, snap);
    LinkedNoGap(files, pages, snap, Tail(files, snap));
    ChainCompleteIff(listing, snap.max);
    PendingListed(files, pages, snap);
    if Pending(listing, s.txid) != [] {
      PollTakesAll(files, pages, snap, s);
    }
  }

  lemma CleanTailLinked(files: seq<VerifiedFile>, snap: VerifiedFile)
    requires ChainBase(files) == Some(snap) && ReportedIssues(files, []) == [] && Sound(files, snap)
    ensures Linked(Tail(files, snap), snap.max + 1, snap.post)
  {
    ReportedFor(files, snap, []);
    TailAscends(files, snap);
    CleanIsLinked(Tail(files, snap), snap.max + 1, snap.post);
  }

  /** Behind the snapshot, the replica's pending objects are the live files that reach past it. */
  lemma PendingListed(files: seq<VerifiedFile>, pages: VerifiedFile -> seq<PageWrite>, snap: VerifiedFile)
    requires Sound(files, snap) && snap in files
    ensures forall f :: f in files && f.generation == GENERATION_LIVE && f.max > snap.max ==>
              AsListed(f, pages) in Pending(Listing(files, pages), snap.max)
    ensures forall g :: g in Pending(Listing(files, pages), snap.max) ==>
              exists f :: f in files && f.generation == GENERATION_LIVE && f.max == g.max
  {
    forall f | f in files && f.generation == GENERATION_LIVE && f.max > snap.max
      ensures AsListed(f, pages) in Pending(Listing(files, pages), snap.max)
    {
      ListingMembers(files, pages, AsListed(f, pages));
    }
    forall g | g in Pending(Listing(files, pages), snap.max)
      ensures exists f :: f in files && f.generation == GENERATION_LIVE && f.max == g.max
    {
      ListingMembers(files, pages, g);
    }
  }

  lemma PollTakesAll(files: seq<VerifiedFile>, pages: VerifiedFile -> seq<PageWrite>, snap: VerifiedFile, s: State)
    requires Sound(files, snap) && snap in files && s.local.Some? && s.txid == snap.max
    requires var p := Pending(Listing(files, pages), s.txid); p != [] && Chained(p, s.txid) == |p|
    ensures var p := Pending(Listing(files, pages), s.txid);
            var (r, outcome) := PollStep(s, Some(Listing(files, pages)), NoFaults);
            && outcome == Applied(|p|)
            && (forall f :: f in files && f.generation == GENERATION_LIVE ==> f.max <= r.txid)
            && (exists f :: f in files && f.generation == GENERATION_LIVE && f.max == r.txid)
  {
    ListingLayout(files, pages, snap);
    FullPoll(Listing(files, pages), s);
    PendingListed(files, pages, snap);
  }
}
