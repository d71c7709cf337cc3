/** Exactly when a clean chain check lets a replica replay, for files that may overlap. */
module VerifyReplay {
  import opened Lists
  import opened Options
  import opened Pages
  import opened Ranges
  import opened Replica
  import opened ReplicaConvergence
  import opened ReplicaSafety
  import opened Verify
  import opened VerifyChain

  type PagesOf = VerifiedFile -> seq<PageWrite>

  ghost predicate RealTxids(files: seq<VerifiedFile>) {
    forall f :: f in files ==> 1 <= f.min <= f.max
  }

  /** Without merged ranges only a file that starts where it should or earlier goes unreported. */
  lemma SilentStart(f: VerifiedFile, next: nat, pre: nat)
    requires IssueAt(f, next, pre, []) == []
    ensures f.min <= next
  {
    assert next < f.min ==> !InSome(next, []) && !Covered(next, f.min - 1, []);
  }

  /** In a clean tail no file starts behind the end of the one before it. */
  lemma {:induction false} CleanAt(tail: seq<VerifiedFile>, next: nat, pre: nat, n: nat)
    requires ChainIssues(tail, next, pre, []) == [] && n < |tail|
    ensures tail[n].min <= if n == 0 then next else tail[n - 1].max + 1
  {
    var f := tail[0];
    assert |ChainIssues(tail, next, pre, [])|
        == |IssueAt(f, next, pre, [])| + |ChainIssues(tail[1..], f.max + 1, f.post, [])|;
    if n == 0 {
      SilentStart(f, next, pre);
    } else {
      CleanAt(tail[1..], f.max + 1, f.post, n - 1);
    }
  }

  ghost predicate ByStart(tail: seq<VerifiedFile>) {
    forall i, j :: 0 <= i < j < |tail| ==> tail[i].min <= tail[j].min
  }

  lemma TailByStart(files: seq<VerifiedFile>, snap: VerifiedFile)
    ensures ByStart(Tail(files, snap))
  {
    var keep := (f: VerifiedFile) => ReachesPast(f, snap);
    SortBySorts(FileKey, Filter(keep, files));
    var tail := Tail(files, snap);
    forall i, j | 0 <= i < j < |tail|
      ensures tail[i].min <= tail[j].min
    {
      assert Leq(FileKey(tail[i]), FileKey(tail[j]));
    }
  }

  /** `p` is what the replica has pending behind `t`: the files of `tail` that start there. */
  ghost predicate PendingOf(tail: seq<VerifiedFile>, pages: PagesOf, t: nat, p: seq<LtxFile>) {
    && (forall f :: f in tail && f.min > t ==> AsListed(f, pages) in p)
    && (forall g :: g in p ==> g.min > t && exists f :: f in tail && AsListed(f, pages) == g)
  }

  lemma PendingIsTail(files: seq<VerifiedFile>, pages: PagesOf, snap: VerifiedFile)
    requires RealTxids(files) && snap in files
    ensures PendingOf(Tail(files, snap), pages, snap.max, Pending(Listing(files, pages), snap.max))
  {
    var tail, p := Tail(files, snap), Pending(Listing(files, pages), snap.max);
    TailMembers(files, snap);
    forall f | f in tail && f.min > snap.max
      ensures AsListed(f, pages) in p
    {
      ListingMembers(files, pages, AsListed(f, pages));
    }
    forall g | g in p
      ensures g.min > snap.max && exists f :: f in tail && AsListed(f, pages) == g
    {
      ListingMembers(files, pages, g);
      var f :| f in files && AsListed(f, pages) == g;
      assert f in tail;
    }
  }

  /** The first file of the tail that the replica lists as `g`. */
  lemma {:induction false} FirstAs(tail: seq<VerifiedFile>, pages: PagesOf, g: LtxFile, m: nat) returns (n: nat)
    requires m < |tail| && AsListed(tail[m], pages) == g
    ensures n <= m && AsListed(tail[n], pages) == g && forall k :: 0 <= k < n ==> AsListed(tail[k], pages) != g
  {
    if k: nat :| k < m && AsListed(tail[k], pages) == g {
      n := FirstAs(tail, pages, g, k);
    } else {
      n := m;
    }
  }

  lemma IndexAs(tail: seq<VerifiedFile>, pages: PagesOf, t: nat, p: seq<LtxFile>, g: LtxFile) returns (n: nat)
    requires PendingOf(tail, pages, t, p) && g in p
    ensures n < |tail| && AsListed(tail[n], pages) == g && forall k :: 0 <= k < n ==> AsListed(tail[k], pages) != g
  {
    var f :| f in tail && AsListed(f, pages) == g;
    var last :| 0 <= last < |tail| && tail[last] == f;
    n := FirstAs(tail, pages, g, last);
  }

  /** The file in front of it in the tail is the one in front of it among the pending. */
  lemma Neighbour(tail: seq<VerifiedFile>, pages: PagesOf, t: nat, p: seq<LtxFile>, i: nat, n: nat, m: nat)
    requires ByStart(tail) && PendingOf(tail, pages, t, p)
    requires Ascending(p) && (forall g :: g in p ==> g.min <= g.max) && 1 <= i < |p|
    requires m < n < |tail| && AsListed(tail[n], pages) == p[i] && AsListed(tail[m], pages) == p[i - 1]
    requires AsListed(tail[n - 1], pages) != p[i]
    ensures tail[n - 1].max == p[i - 1].max
  {
    var g := tail[n - 1];
    assert p[i] in p && p[i - 1] in p;
    assert tail[m].min <= g.min <= tail[n].min;
    assert g in tail && AsListed(g, pages) in p;
    var j :| 0 <= j < |p| && p[j] == AsListed(g, pages);
    assert p[j] in p;
    assert j != i;
    assert j < i;
    assert j >= i - 1;
  }

  /** Among disjoint pending objects a clean tail leaves no gap. */
  lemma CleanPair(tail: seq<VerifiedFile>, pages: PagesOf, t: nat, next: nat, pre: nat, p: seq<LtxFile>, i: nat)
    requires ChainIssues(tail, next, pre, []) == [] && ByStart(tail) && PendingOf(tail, pages, t, p)
    requires Ascending(p) && (forall g :: g in p ==> g.min <= g.max) && 1 <= i < |p|
    ensures p[i].min == p[i - 1].max + 1
  {
    var n := IndexAs(tail, pages, t, p, p[i]);
    var m := IndexAs(tail, pages, t, p, p[i - 1]);
    InFront(tail, pages, p, i, n, m);
    CleanAt(tail, next, pre, n);
    Neighbour(tail, pages, t, p, i, n, m);
  }

  lemma InFront(tail: seq<VerifiedFile>, pages: PagesOf, p: seq<LtxFile>, i: nat, n: nat, m: nat)
    requires ByStart(tail) && Ascending(p) && 1 <= i < |p| && p[i - 1].min <= p[i - 1].max
    requires n < |tail| && AsListed(tail[n], pages) == p[i] && m < |tail| && AsListed(tail[m], pages) == p[i - 1]
    ensures m < n
  {
  }

  lemma {:induction false} ContiguousChained(p: seq<LtxFile>, t: nat)
    requires p == [] || (p[0].min == t + 1 && forall i :: 1 <= i < |p| ==> p[i].min == p[i - 1].max + 1)
    ensures Chained(p, t) == |p|
  {
    if p == [] {
    } else {
      var rest := p[1..];
      forall i | 1 <= i < |rest|
        ensures rest[i].min == rest[i - 1].max + 1
      {
        assert rest[i] == p[i + 1] && rest[i - 1] == p[i];
      }
      assert rest != [] ==> rest[0] == p[1];
      ContiguousChained(rest, p[0].max);
    }
  }

  lemma {:induction false} ChainedAscends(p: seq<LtxFile>, t: nat)
    requires Chained(p, t) == |p| && forall g :: g in p ==> g.min <= g.max
    ensures Ascending(p) && (forall g :: g in p ==> t < g.min)
  {
    if p == [] {
    } else {
      ChainedAscends(p[1..], p[0].max);
      assert p[0] in p;
      forall i, j | 0 <= i < j < |p|
        ensures p[i].max < p[j].min
      {
        assert p[j] == p[1..][j - 1] && p[j] in p[1..];
        assert i > 0 ==> p[i] == p[1..][i - 1];
      }
    }
  }

  lemma PendingUpward(files: seq<VerifiedFile>, pages: PagesOf, snap: VerifiedFile)
    requires RealTxids(files)
    ensures forall g :: g in Pending(Listing(files, pages), snap.max) ==> 1 <= g.min <= g.max
  {
    forall g | g in Pending(Listing(files, pages), snap.max)
      ensures 1 <= g.min <= g.max
    {
      ListingMembers(files, pages, g);
    }
  }

  /** Live files that start behind the snapshot do not overlap, and the first of them starts right behind it. */
  ghost predicate InARow(p: seq<LtxFile>, t: nat) {
    p == [] || (p[0].min == t + 1 && Ascending(p))
  }

  /** A tail without issues behind TXID `t`, and what the replica has pending of it. */
  ghost predicate CleanTail(tail: seq<VerifiedFile>, pages: PagesOf, t: nat, pre: nat, p: seq<LtxFile>) {
    && ChainIssues(tail, t + 1, pre, []) == [] && ByStart(tail) && PendingOf(tail, pages, t, p)
    && forall g :: g in p ==> g.min <= g.max
  }

  lemma CleanTailOf(files: seq<VerifiedFile>, pages: PagesOf, snap: VerifiedFile)
    requires ChainBase(files) == Some(snap) && ReportedIssues(files, []) == [] && RealTxids(files)
    ensures CleanTail(Tail(files, snap), pages, snap.max, snap.post, Pending(Listing(files, pages), snap.max))
  {
    ReportedFor(files, snap, []);
    TailByStart(files, snap);
    PendingIsTail(files, pages, snap);
    PendingUpward(files, pages, snap);
  }

  lemma TailReplayIff(tail: seq<VerifiedFile>, pages: PagesOf, t: nat, pre: nat, p: seq<LtxFile>)
    requires CleanTail(tail, pages, t, pre, p)
    ensures Chained(p, t) == |p| <==> InARow(p, t)
  {
    if Chained(p, t) == |p| && p != [] {
      ChainedAscends(p, t);
      ChainLink(p, t, 0);
    }
    if p != [] && InARow(p, t) {
      forall i | 1 <= i < |p|
        ensures p[i].min == p[i - 1].max + 1
      {
        CleanPair(tail, pages, t, t + 1, pre, p, i);
      }
      ContiguousChained(p, t);
    }
  }

  /** What a clean check, with no merged ranges to excuse a hole, means for a replica at the verified snapshot: it meets
      no gap if and only if the live files that start behind the snapshot do not overlap and one of them starts right
      behind it. */
  lemma CleanReplayIff(files: seq<VerifiedFile>, pages: PagesOf, snap: VerifiedFile)
    requires ChainBase(files) == Some(snap) && ReportedIssues(files, []) == [] && RealTxids(files)
    ensures var p := Pending(Listing(files, pages), snap.max); Chained(p, snap.max) == |p| <==> InARow(p, snap.max)
  {
    CleanTailOf(files, pages, snap);
    TailReplayIff(Tail(files, snap), pages, snap.max, snap.post, Pending(Listing(files, pages), snap.max));
  }

  /** Then one error-free poll applies them all. */
  lemma CleanReplayPoll(files: seq<VerifiedFile>, pages: PagesOf, snap: VerifiedFile, s: State)
    requires ChainBase(files) == Some(snap) && ReportedIssues(files, []) == [] && RealTxids(files)
    requires s.local.Some? && s.txid == snap.max
    requires var p := Pending(Listing(files, pages), snap.max); p != [] && InARow(p, snap.max)
    ensures PollStep(s, Some(Listing(files, pages)), NoFaults).1 == Applied(|Pending(Listing(files, pages), snap.max)|)
  {
    CleanReplayIff(files, pages, snap);
    PendingUpward(files, pages, snap);
    assert snap in files;
    ChainedPoll(Listing(files, pages), s);
  }

  lemma ChainedPoll(listing: seq<LtxFile>, s: State)
    requires s.local.Some? && s.txid > 0
    requires var p := Pending(listing, s.txid);
             p != [] && Chained(p, s.txid) == |p| && forall g :: g in p ==> 1 <= g.min <= g.max
    ensures PollStep(s, Some(listing), NoFaults).1 == Applied(|Pending(listing, s.txid)|)
  {
    var p := Pending(listing, s.txid);
    assert p[0] in p && p[0] in listing;
    LoopWalks(listing, p, 0, s);
  }

  lemma TailOfFour(base: VerifiedFile, rest: seq<VerifiedFile>, files: seq<VerifiedFile>)
    requires files == [base] + rest && IsBase(base) && (forall f :: f in rest ==> !IsBase(f) && ReachesPast(f, base))
    requires forall i, j :: 0 <= i < j < |rest| ==> rest[i].min <= rest[j].min
    ensures ChainBase(files) == Some(base) && Tail(files, base) == rest
  {
    assert base in files;
    assert files[1..] == rest;
    assert SortedBy(FileKey, rest);
    DropFirstSorted(FileKey, (f: VerifiedFile) => ReachesPast(f, base), files, rest);
  }

  lemma CleanThree(a: VerifiedFile, b: VerifiedFile, c: VerifiedFile, post: nat)
    requires a.min == 2 && a.max == 5 && a.pre == Some(post) && b.min == 3 && b.max == 5
    requires c.min == 6 && c.pre == Some(b.post)
    ensures ChainIssues([a, b, c], 2, post, []) == []
  {
    assert [a, b, c][1..] == [b, c] && [b, c][1..] == [c] && [c][1..] == [];
    assert Covered(6, b.min - 1, []);
    assert ChainIssues([c], 6, b.post, []) == [];
    assert ChainIssues([b, c], 6, a.post, []) == [];
  }

  lemma PendingOfFour(listing: seq<LtxFile>, snap: LtxFile, p: seq<LtxFile>)
    requires |listing| == 4 && listing[0] == snap && snap.isSnapshot && listing[1..] == p
    requires forall f :: f in p ==> !f.isSnapshot && f.min > 1
    requires forall i, j :: 0 <= i < j < |p| ==> p[i].min <= p[j].min
    ensures Pending(listing, 1) == p
  {
    assert SortedBy(MinKey, p);
    DropFirstSorted(MinKey, (f: LtxFile) => !f.isSnapshot && f.min > 1, listing, p);
  }

  lemma PollIsLoop(listing: seq<LtxFile>, s: State, p: seq<LtxFile>)
    requires s.local.Some? && s.txid > 0 && Pending(listing, s.txid) == p && p != []
    ensures PollStep(s, Some(listing), NoFaults) == ApplyLoop(listing, p, NoFaults, 0, s)
  {
    assert p[0] in Pending(listing, s.txid);
  }

  lemma OverlapLoop(listing: seq<LtxFile>, snap: LtxFile, x: LtxFile, y: LtxFile, z: LtxFile, s: State)
    requires listing == [snap, x, y, z] && snap.isSnapshot && !x.isSnapshot && !y.isSnapshot && !z.isSnapshot
    requires snap.max == 1 && x.min == 2 && x.max == 5 && y.min == 3 && z.min == 6 && s.local.Some? && s.txid == 1
    ensures var (r, outcome) := ApplyLoop(listing, [x, y, z], NoFaults, 0, s); outcome.Failed? && r.txid == 5
  {
    var p := [x, y, z];
    assert snap in listing;
    assert p[1..][0] == y;
    assert Chained(p, 1) == 1;
    LoopWalks(listing, p, 0, s);
  }

  lemma OverlapPoll(files: seq<VerifiedFile>, base: VerifiedFile, a: VerifiedFile, b: VerifiedFile, c: VerifiedFile,
                    pages: PagesOf, s: State)
    requires files == [base, a, b, c] && IsBase(base) && base.max == 1 && !IsBase(a) && !IsBase(b) && !IsBase(c)
    requires a.min == 2 && a.max == 5 && b.min == 3 && c.min == 6 && s.local.Some? && s.txid == 1
    ensures var (r, outcome) := PollStep(s, Some(Listing(files, pages)), NoFaults); outcome.Failed? && r.txid == 5
  {
    var snap, x, y, z := AsListed(base, pages), AsListed(a, pages), AsListed(b, pages), AsListed(c, pages);
    assert Listing(files, pages) == [snap, x, y, z];
    PendingOfFour([snap, x, y, z], snap, [x, y, z]);
    PollIsLoop([snap, x, y, z], s, [x, y, z]);
    OverlapLoop([snap, x, y, z], snap, x, y, z, s);
  }

  /** Overlap is what the check lets through: live files `2-5`, `3-5` and `6-7` behind the base `1-1` are clean, because
      the hole in front of `3-5` is empty. A replica at TXID 1 applies `2-5` and then fails for good at a gap. */
  lemma OverlapPassesCheck(base: VerifiedFile, a: VerifiedFile, b: VerifiedFile, c: VerifiedFile, pages: PagesOf,
                           s: State)
    requires base.generation == a.generation == b.generation == c.generation == 0 && base.min == base.max == 1
    requires a.min == 2 && a.max == 5 && a.pre == Some(base.post) && b.min == 3 && b.max == 5
    requires c.min == 6 && c.max == 7 && c.pre == Some(b.post)
    requires s.local.Some? && s.txid == 1
    ensures var files := [base, a, b, c];
            var (r, outcome) := PollStep(s, Some(Listing(files, pages)), NoFaults);
            ReportedIssues(files, []) == [] && outcome.Failed? && r.txid == 5
  {
    var files := [base, a, b, c];
    assert files == [base] + [a, b, c];
    TailOfFour(base, [a, b, c], files);
    CleanThree(a, b, c, base.post);
    ReportedFor(files, base, []);
    OverlapPoll(files, base, a, b, c, pages, s);
  }
}
