/** The greedy restore planner over raw incrementals and merged ranges. */
module Planner {
  import opened Options
  import opened Ranges

  datatype Candidate = Candidate(key: string, level: nat, range: SeqRange)

  datatype PlanResult =
    | Plan(files: seq<Candidate>)
    | ChainGap(needed: nat, nearestBelow: nat)
    | InsideWindow(windowMin: nat, windowMax: nat, nearestBelow: nat, nearestAbove: nat)

  /** Spans run upwards. (A listed name whose bounds are swapped would make the planner's cursor move back.) */
  ghost predicate Upward(pool: seq<Candidate>) {
    forall c :: c in pool ==> c.range.min <= c.range.max
  }

  /** The furthest candidate from `need` that stays within `target`; the last listed among equals. */
  function Furthest(pool: seq<Candidate>, need: nat, target: nat): (r: Option<Candidate>)
    ensures r.Some? ==> r.value in pool && r.value.range.min == need && r.value.range.max <= target
  {
    if pool == [] then None
    else
      var best := Furthest(pool[..|pool| - 1], need, target);
      var c := pool[|pool| - 1];
      if c.range.min == need && c.range.max <= target && (best.None? || c.range.max >= best.value.range.max)
      then Some(c)
      else best
  }

  /** The tightest candidate from `need` that ends past `target`; the first listed among equals. */
  function Tightest(pool: seq<Candidate>, need: nat, target: nat): (r: Option<Candidate>)
    ensures r.Some? ==> r.value in pool && r.value.range.min == need && r.value.range.max > target
  {
    if pool == [] then None
    else
      var best := Tightest(pool[..|pool| - 1], need, target);
      var c := pool[|pool| - 1];
      if c.range.min == need && c.range.max > target && (best.None? || c.range.max < best.value.range.max) then Some(c)
      else best
  }

  lemma {:induction false} FurthestIsFurthest(pool: seq<Candidate>, need: nat, target: nat, c: Candidate)
    requires c in pool && c.range.min == need && c.range.max <= target
    ensures Furthest(pool, need, target).Some? && c.range.max <= Furthest(pool, need, target).value.range.max
  {
    if c != pool[|pool| - 1] {
      FurthestIsFurthest(pool[..|pool| - 1], need, target, c);
    }
  }

  lemma {:induction false} TightestIsTightest(pool: seq<Candidate>, need: nat, target: nat, c: Candidate)
    requires c in pool && c.range.min == need && c.range.max > target
    ensures Tightest(pool, need, target).Some? && c.range.max >= Tightest(pool, need, target).value.range.max
  {
    if c != pool[|pool| - 1] {
      TightestIsTightest(pool[..|pool| - 1], need, target, c);
    }
  }

  /** Which of several equally good candidates is taken: the last listed one that goes furthest. */
  lemma {:induction false} FurthestIsLast(pool: seq<Candidate>, need: nat, target: nat) returns (i: nat)
    requires Furthest(pool, need, target).Some?
    ensures i < |pool| && Furthest(pool, need, target) == Some(pool[i])
    ensures forall j :: i < j < |pool| && pool[j].range.min == need && pool[j].range.max <= target ==>
              pool[j].range.max < pool[i].range.max
  {
    var init, c := pool[..|pool| - 1], pool[|pool| - 1];
    i := |pool| - 1;
    if Furthest(pool, need, target) != Some(c) {
      i := FurthestIsLast(init, need, target);
    }
  }

  /** And the first listed one of the tightest windows. */
  lemma {:induction false} TightestIsFirst(pool: seq<Candidate>, need: nat, target: nat) returns (i: nat)
    requires Tightest(pool, need, target).Some?
    ensures i < |pool| && Tightest(pool, need, target) == Some(pool[i])
    ensures forall j :: 0 <= j < i && pool[j].range.min == need && pool[j].range.max > target ==>
              pool[j].range.max > pool[i].range.max
  {
    var init, c := pool[..|pool| - 1], pool[|pool| - 1];
    i := |pool| - 1;
    if Tightest(init, need, target).Some? && Tightest(pool, need, target) == Tightest(init, need, target) {
      i := TightestIsFirst(init, need, target);
    } else {
      forall j | 0 <= j < i && pool[j].range.min == need && pool[j].range.max > target
        ensures pool[j].range.max > c.range.max
      {
        assert pool[j] == init[j] && init[j] in init;
        TightestIsTightest(init, need, target, init[j]);
      }
    }
  }

  function Prepend(c: Candidate, r: PlanResult): (r': PlanResult) {
    if r.Plan? then Plan([c] + r.files) else r
  }

  /** The plan from `cursor` on. */
  function PlanFrom(pool: seq<Candidate>, cursor: nat, target: nat): (r: PlanResult)
    requires Upward(pool)
    decreases target - cursor
  {
    if cursor >= target then Plan([])
    else match Furthest(pool, cursor + 1, target)
      case Some(pick) => Prepend(pick, PlanFrom(pool, pick.range.max, target))
      case None => Stop(pool, cursor, target)
  }

  /** The error when nothing continues the chain within the target. */
  function Stop(pool: seq<Candidate>, cursor: nat, target: nat): (r: PlanResult)
    ensures !r.Plan?
  {
    match Tightest(pool, cursor + 1, target)
    case Some(w) => InsideWindow(w.range.min, w.range.max, cursor, w.range.max)
    case None => ChainGap(cursor + 1, cursor)
  }

  function Append(files: seq<Candidate>, r: PlanResult): (r': PlanResult) {
    if r.Plan? then Plan(files + r.files) else r
  }

  lemma AppendPrepend(files: seq<Candidate>, c: Candidate, r: PlanResult)
    ensures Append(files, Prepend(c, r)) == Append(files + [c], r)
  {
    if r.Plan? {
      assert files + ([c] + r.files) == files + [c] + r.files;
    }
  }

  lemma StepPlan(pool: seq<Candidate>, cursor: nat, target: nat, pick: Candidate)
    requires Upward(pool) && cursor < target && Furthest(pool, cursor + 1, target) == Some(pick)
    ensures PlanFrom(pool, cursor, target) == Prepend(pick, PlanFrom(pool, pick.range.max, target))
    ensures cursor < pick.range.max <= target
  {
  }

  /** What the planner's loop has returned after at most `n` rounds, for any pool. */
  function PlanRounds(pool: seq<Candidate>, cursor: nat, target: nat, n: nat): (r: Option<PlanResult>)
    decreases n
  {
    if cursor >= target then Some(Plan([]))
    else if n == 0 then None
    else match Furthest(pool, cursor + 1, target)
      case None => Some(Stop(pool, cursor, target))
      case Some(pick) =>
        var rest := PlanRounds(pool, pick.range.max, target, n - 1);
        if rest.None? then None else Some(Prepend(pick, rest.value))
  }

  /** Spans that run upwards: the loop ends, with the plan of `PlanFrom`. */
  lemma {:induction false} UpwardEnds(pool: seq<Candidate>, cursor: nat, target: nat, n: nat)
    requires Upward(pool) && cursor + n >= target
    ensures PlanRounds(pool, cursor, target, n) == Some(PlanFrom(pool, cursor, target))
    decreases n
  {
    if cursor >= target || n == 0 {
    } else {
      var pick := Furthest(pool, cursor + 1, target);
      if pick.Some? {
        StepPlan(pool, cursor, target, pick.value);
        UpwardEnds(pool, pick.value.range.max, target, n - 1);
      }
    }
  }

  lemma {:induction false} MoreRounds(pool: seq<Candidate>, cursor: nat, target: nat, n: nat, m: nat)
    requires n <= m && PlanRounds(pool, cursor, target, n).Some?
    ensures PlanRounds(pool, cursor, target, m) == PlanRounds(pool, cursor, target, n)
    decreases n
  {
    if cursor >= target || n == 0 {
    } else {
      var pick := Furthest(pool, cursor + 1, target);
      if pick.Some? {
        MoreRounds(pool, pick.value.range.max, target, n - 1, m - 1);
      }
    }
  }

  /** From `cursor` the loop ends in exactly `n` rounds. */
  ghost predicate EndsIn(pool: seq<Candidate>, cursor: nat, target: nat, n: nat) {
    PlanRounds(pool, cursor, target, n).Some? && (n > 0 ==> PlanRounds(pool, cursor, target, n - 1).None?)
  }

  lemma {:induction false} FewestRounds(pool: seq<Candidate>, cursor: nat, target: nat, n: nat) returns (k: nat)
    requires PlanRounds(pool, cursor, target, n).Some?
    ensures k <= n && EndsIn(pool, cursor, target, k)
  {
    k := n;
    if n == 0 || PlanRounds(pool, cursor, target, n - 1).None? {
    } else {
      k := FewestRounds(pool, cursor, target, n - 1);
    }
  }

  ghost predicate Visited(pool: seq<Candidate>, target: nat, n: nat, cursors: set<nat>) {
    && |cursors| == n
    && forall x :: x in cursors ==> x < target && exists k :: 1 <= k <= n && EndsIn(pool, x, target, k)
  }

  /** A loop that ends visits a new cursor in every round, because the cursor decides how many rounds are left. */
  lemma {:induction false} NewCursors(pool: seq<Candidate>, cursor: nat, target: nat, n: nat)
    returns (cursors: set<nat>)
    requires EndsIn(pool, cursor, target, n)
    ensures Visited(pool, target, n, cursors)
    decreases n
  {
    if n == 0 {
      cursors := {};
    } else {
      var pick := Furthest(pool, cursor + 1, target);
      if pick.None? {
        cursors := {cursor};
      } else {
        var rest := NewCursors(pool, pick.value.range.max, target, n - 1);
        cursors := rest + {cursor};
        if cursor in rest {
          var k :| 1 <= k <= n - 1 && EndsIn(pool, cursor, target, k);
          MoreRounds(pool, cursor, target, k, n - 1);
        }
      }
    }
  }

  lemma {:induction false} FewBelow(xs: set<nat>, bound: nat)
    requires forall x :: x in xs ==> x < bound
    ensures |xs| <= bound
  {
    if bound == 0 {
      assert xs == {};
    } else {
      FewBelow(xs - {bound - 1}, bound - 1);
    }
  }

  /** For any pool, swapped bounds included: the loop ends if and only if it ends within `target` rounds. */
  lemma EndsIff(pool: seq<Candidate>, floor: nat, target: nat)
    ensures (exists n :: PlanRounds(pool, floor, target, n).Some?) <==> PlanRounds(pool, floor, target, target).Some?
  {
    if exists n :: PlanRounds(pool, floor, target, n).Some? {
      var n :| PlanRounds(pool, floor, target, n).Some?;
      var k := FewestRounds(pool, floor, target, n);
      var cursors := NewCursors(pool, floor, target, k);
      FewBelow(cursors, target);
      MoreRounds(pool, floor, target, k, target);
    }
  }

  /** `files` are pool objects within the target, each starting right behind the end of the one before it. */
  ghost predicate Path(pool: seq<Candidate>, files: seq<Candidate>, cursor: nat, end: nat, target: nat) {
    if files == [] then cursor == end
    else
      && files[0] in pool && files[0].range.min == cursor + 1 && files[0].range.max <= target
      && Path(pool, files[1..], files[0].range.max, end, target)
  }

  /** What the loop returns for any pool, swapped bounds included. */
  ghost predicate RoundsRight(pool: seq<Candidate>, cursor: nat, target: nat, r: PlanResult) {
    match r
    case Plan(files) => Path(pool, files, cursor, target, target)
    case ChainGap(needed, below) =>
      && needed == below + 1 && below < target && (forall c :: c in pool ==> c.range.min != needed)
      && exists files :: Path(pool, files, cursor, below, target)
    case InsideWindow(lo, hi, below, above) =>
      && lo == below + 1 && lo <= target < hi == above && (exists w :: w in pool && w.range == SeqRange(lo, hi))
      && (forall c :: c in pool && c.range.min == lo ==> c.range.max >= hi)
      && exists files :: Path(pool, files, cursor, below, target)
  }

  lemma RoundStops(pool: seq<Candidate>, cursor: nat, target: nat)
    requires cursor < target && Furthest(pool, cursor + 1, target).None?
    ensures RoundsRight(pool, cursor, target, Stop(pool, cursor, target))
  {
    assert Path(pool, [], cursor, cursor, target);
    forall c | c in pool && c.range.min == cursor + 1
      ensures c.range.max > target && Tightest(pool, cursor + 1, target).Some?
      ensures c.range.max >= Tightest(pool, cursor + 1, target).value.range.max
    {
      if c.range.max <= target {
        FurthestIsFurthest(pool, cursor + 1, target, c);
      } else {
        TightestIsTightest(pool, cursor + 1, target, c);
      }
    }
  }

  lemma RoundTakes(pool: seq<Candidate>, cursor: nat, target: nat, pick: Candidate, r: PlanResult)
    requires pick in pool && pick.range.min == cursor + 1 && pick.range.max <= target
    requires RoundsRight(pool, pick.range.max, target, r)
    ensures RoundsRight(pool, cursor, target, Prepend(pick, r))
  {
    if r.Plan? {
      assert ([pick] + r.files)[1..] == r.files;
    } else {
      var files :| Path(pool, files, pick.range.max, r.nearestBelow, target);
      assert ([pick] + files)[1..] == files;
      assert Path(pool, [pick] + files, cursor, r.nearestBelow, target);
    }
  }

  lemma {:induction false} RoundsMean(pool: seq<Candidate>, cursor: nat, target: nat, n: nat)
    requires cursor <= target && PlanRounds(pool, cursor, target, n).Some?
    ensures RoundsRight(pool, cursor, target, PlanRounds(pool, cursor, target, n).value)
    decreases n
  {
    if cursor == target {
    } else {
      match Furthest(pool, cursor + 1, target)
      case None => RoundStops(pool, cursor, target);
      case Some(pick) =>
        RoundsMean(pool, pick.range.max, target, n - 1);
        RoundTakes(pool, cursor, target, pick, PlanRounds(pool, pick.range.max, target, n - 1).value);
    }
  }

  /** A listed name with swapped bounds can make it run for ever. */
  lemma {:induction false} SwappedNameLoops(n: nat)
    ensures PlanRounds([Candidate("x", 0, SeqRange(5, 4))], 4, 9, n) == None
  {
    var c := Candidate("x", 0, SeqRange(5, 4));
    assert [c][..0] == [];
    assert Furthest([c], 5, 9) == Some(c);
    if n == 0 {
    } else {
      SwappedNameLoops(n - 1);
    }
  }

  /** The loop, whenever it ends. */
  method PlanRestore(pool: seq<Candidate>, floor: nat, target: nat) returns (result: PlanResult)
    requires PlanRounds(pool, floor, target, target).Some?
    ensures PlanRounds(pool, floor, target, target) == Some(result)
    ensures Upward(pool) ==> result == PlanFrom(pool, floor, target)
  {
    if Upward(pool) {
      UpwardEnds(pool, floor, target, target);
    }
    var files: seq<Candidate> := [];
    var cursor: nat := floor;
    ghost var left: nat := target;
    ghost var all := PlanRounds(pool, floor, target, target).value;
    assert all.Plan? ==> [] + all.files == all.files;
    while cursor < target
      invariant PlanRounds(pool, cursor, target, left).Some?
      invariant PlanRounds(pool, floor, target, target) ==
                Some(Append(files, PlanRounds(pool, cursor, target, left).value))
      decreases left
    {
      var need := cursor + 1;
      var pick := Furthest(pool, need, target);
      if pick.None? {
        result := Stop(pool, cursor, target);
        return;
      }
      AppendPrepend(files, pick.value, PlanRounds(pool, pick.value.range.max, target, left - 1).value);
      cursor := pick.value.range.max;
      files := files + [pick.value];
      left := left - 1;
    }
    assert files + [] == files;
    result := Plan(files);
  }

  /** `files` lead from `cursor` to `target`, each starting right behind the one before it. */
  ghost predicate Leads(files: seq<Candidate>, cursor: nat, target: nat) {
    if files == [] then cursor == target
    else
      && files[0].range.min == cursor + 1 && files[0].range.max <= target
      && Leads(files[1..], files[0].range.max, target)
  }

  ghost predicate DrawnFrom(files: seq<Candidate>, pool: seq<Candidate>) {
    forall c :: c in files ==> c in pool
  }

  /** A plan is a gap-free, overlap-free chain of pool objects to exactly the target. An error names the furthest
      point such a chain reached, and no object of the pool continues it within the target: none at all for a
      gap, only the named window and wider ones for a decayed point. */
  lemma {:induction false} PlanMeans(pool: seq<Candidate>, cursor: nat, target: nat)
    requires Upward(pool) && cursor <= target
    ensures match PlanFrom(pool, cursor, target)
            case Plan(files) => Leads(files, cursor, target) && DrawnFrom(files, pool)
            case ChainGap(needed, below) =>
              && needed == below + 1 && cursor <= below < target
              && (forall c :: c in pool ==> c.range.min != needed)
              && exists files :: Leads(files, cursor, below) && DrawnFrom(files, pool)
            case InsideWindow(lo, hi, below, above) =>
              && lo == below + 1 && cursor <= below && lo <= target < hi == above
              && (exists w :: w in pool && w.range == SeqRange(lo, hi))
              && (forall c :: c in pool && c.range.min == lo ==> c.range.max >= hi)
              && exists files :: Leads(files, cursor, below) && DrawnFrom(files, pool)
    decreases target - cursor
  {
    assert Leads([], cursor, cursor);
    if cursor >= target {
    } else {
      match Furthest(pool, cursor + 1, target)
      case Some(pick) =>
        PlanMeans(pool, pick.range.max, target);
        var rest := PlanFrom(pool, pick.range.max, target);
        if !rest.Plan? {
          var files :| Leads(files, pick.range.max, rest.nearestBelow) && DrawnFrom(files, pool);
          assert ([pick] + files)[1..] == files;
          LeadsUp(files, pick.range.max, rest.nearestBelow, pool);
          assert Leads([pick] + files, cursor, rest.nearestBelow) && DrawnFrom([pick] + files, pool);
        }
      case None =>
        assert DrawnFrom([], pool);
        forall c | c in pool && c.range.min == cursor + 1
          ensures c.range.max > target && Tightest(pool, cursor + 1, target).Some?
          ensures c.range.max >= Tightest(pool, cursor + 1, target).value.range.max
        {
          if c.range.max <= target {
            FurthestIsFurthest(pool, cursor + 1, target, c);
          } else {
            TightestIsTightest(pool, cursor + 1, target, c);
          }
        }
    }
  }

  lemma {:induction false} LeadsUp(files: seq<Candidate>, cursor: nat, target: nat, pool: seq<Candidate>)
    requires Upward(pool) && DrawnFrom(files, pool) && Leads(files, cursor, target)
    ensures cursor <= target
  {
    if files != [] {
      assert files[0] in files;
    }
  }

  ghost predicate Chain(pool: seq<Candidate>, a: nat, b: nat) {
    exists files :: Leads(files, a, b) && DrawnFrom(files, pool)
  }

  /** The planner finds a plan whenever there is one. */
  ghost predicate Complete(pool: seq<Candidate>)
    requires Upward(pool)
  {
    forall a: nat, b: nat :: Chain(pool, a, b) ==> PlanFrom(pool, a, b).Plan?
  }

  /** `d` starts inside `c` and ends behind it, can be reached from where `c` starts, and nothing that starts with `c`
      would have been preferred to it on the way to the end of `d`. */
  ghost predicate Crosses(pool: seq<Candidate>, c: Candidate, d: Candidate) {
    && c in pool && d in pool && 1 <= c.range.min < d.range.min <= c.range.max < d.range.max
    && (forall e :: e in pool && e.range.min == c.range.min ==> !(c.range.max < e.range.max <= d.range.max))
    && Chain(pool, c.range.min - 1, d.range.min - 1)
  }

  /** Whoever takes `c` instead still gets to the end of `d`. */
  ghost predicate Exchange(pool: seq<Candidate>) {
    forall c, d :: Crosses(pool, c, d) ==> Chain(pool, c.range.max, d.range.max)
  }

  lemma {:induction false} LeadsOn(pool: seq<Candidate>, f: seq<Candidate>, a: nat, b: nat, g: seq<Candidate>, c: nat)
    requires Upward(pool) && DrawnFrom(f, pool) && DrawnFrom(g, pool) && Leads(f, a, b) && Leads(g, b, c)
    ensures Leads(f + g, a, c) && DrawnFrom(f + g, pool)
  {
    LeadsUp(g, b, c, pool);
    if f == [] {
      assert f + g == g;
    } else {
      LeadsOn(pool, f[1..], f[0].range.max, b, g, c);
      assert (f + g)[1..] == f[1..] + g;
    }
  }

  lemma ChainOn(pool: seq<Candidate>, a: nat, b: nat, c: nat)
    requires Upward(pool) && Chain(pool, a, b) && Chain(pool, b, c)
    ensures Chain(pool, a, c)
  {
    var f :| Leads(f, a, b) && DrawnFrom(f, pool);
    var g :| Leads(g, b, c) && DrawnFrom(g, pool);
    LeadsOn(pool, f, a, b, g, c);
  }

  lemma ChainStep(pool: seq<Candidate>, a: nat, d: Candidate)
    requires Upward(pool) && d in pool && 1 <= d.range.min && Chain(pool, a, d.range.min - 1)
    ensures Chain(pool, a, d.range.max)
  {
    assert [d][1..] == [];
    assert Leads([d], d.range.min - 1, d.range.max) && DrawnFrom([d], pool);
    ChainOn(pool, a, d.range.min - 1, d.range.max);
  }

  /** No object that starts with `pick` and stays within `target` goes further. */
  ghost predicate Preferred(pool: seq<Candidate>, pick: Candidate, target: nat) {
    && pick in pool && pick.range.min >= 1 && pick.range.max <= target
    && forall e :: e in pool && e.range.min == pick.range.min && e.range.max <= target ==> e.range.max <= pick.range.max
  }

  /** With exchange the furthest step never strands the plan: any chain is followed until it meets or crosses `pick`. */
  lemma {:induction false} TakePick(pool: seq<Candidate>, pick: Candidate, x: nat, rest: seq<Candidate>, target: nat)
    requires Upward(pool) && Exchange(pool) && Preferred(pool, pick, target)
    requires Chain(pool, pick.range.min - 1, x) && x <= pick.range.max && pick.range.min - 1 <= x
    requires Leads(rest, x, target) && DrawnFrom(rest, pool)
    ensures Chain(pool, pick.range.max, target)
    decreases |rest|
  {
    if x == pick.range.max {
    } else {
      var d := rest[0];
      assert d in rest;
      assert DrawnFrom(rest[1..], pool);
      if d.range.max <= pick.range.max {
        ChainStep(pool, pick.range.min - 1, d);
        TakePick(pool, pick, d.range.max, rest[1..], target);
      } else {
        assert Crosses(pool, pick, d);
        ChainOn(pool, pick.range.max, d.range.max, target);
      }
    }
  }

  lemma {:induction false} ExchangePlans(pool: seq<Candidate>, cursor: nat, target: nat)
    requires Upward(pool) && Exchange(pool) && Chain(pool, cursor, target)
    ensures PlanFrom(pool, cursor, target).Plan?
    decreases target - cursor
  {
    if cursor >= target {
    } else {
      var files :| Leads(files, cursor, target) && DrawnFrom(files, pool);
      assert files[0] in files;
      FurthestIsFurthest(pool, cursor + 1, target, files[0]);
      var pick := Furthest(pool, cursor + 1, target).value;
      forall e | e in pool && e.range.min == cursor + 1 && e.range.max <= target
        ensures e.range.max <= pick.range.max
      {
        FurthestIsFurthest(pool, cursor + 1, target, e);
      }
      assert Leads([], cursor, cursor) && DrawnFrom([], pool);
      TakePick(pool, pick, cursor, files, target);
      ExchangePlans(pool, pick.range.max, target);
    }
  }

  lemma PlanIsChain(pool: seq<Candidate>, a: nat, b: nat)
    requires Upward(pool) && a <= b && PlanFrom(pool, a, b).Plan?
    ensures Chain(pool, a, b)
  {
    PlanMeans(pool, a, b);
    assert Leads(PlanFrom(pool, a, b).files, a, b);
  }

  lemma CrossedIsPicked(pool: seq<Candidate>, c: Candidate, d: Candidate) returns (pick: Candidate)
    requires Crosses(pool, c, d)
    ensures Furthest(pool, c.range.min, d.range.max) == Some(pick) && pick.range.max == c.range.max
  {
    FurthestIsFurthest(pool, c.range.min, d.range.max, c);
    pick := Furthest(pool, c.range.min, d.range.max).value;
  }

  /** If the planner is complete, what it does after taking `c` on the way to the end of `d` is the chain asked for. */
  lemma CompleteExchanges(pool: seq<Candidate>, c: Candidate, d: Candidate)
    requires Upward(pool) && Complete(pool) && Crosses(pool, c, d)
    ensures Chain(pool, c.range.max, d.range.max)
  {
    var a, b := c.range.min - 1, d.range.max;
    ChainStep(pool, a, d);
    var pick := CrossedIsPicked(pool, c, d);
    StepPlan(pool, a, b, pick);
    PlanIsChain(pool, c.range.max, b);
  }

  /** Completeness, exactly: the planner finds a plan whenever there is one if and only if its pool has exchange. */
  lemma CompleteIff(pool: seq<Candidate>)
    requires Upward(pool)
    ensures Complete(pool) <==> Exchange(pool)
  {
    if Exchange(pool) {
      forall a: nat, b: nat | Chain(pool, a, b)
        ensures PlanFrom(pool, a, b).Plan?
      {
        ExchangePlans(pool, a, b);
      }
    }
    if Complete(pool) {
      forall c, d | Crosses(pool, c, d)
        ensures Chain(pool, c.range.max, d.range.max)
      {
        CompleteExchanges(pool, c, d);
      }
    }
  }

  /** Any two objects are disjoint or one contains the other, as when merged ranges exist next to the very objects
      they were merged from. */
  ghost predicate Nested(pool: seq<Candidate>) {
    forall c, d :: c in pool && d in pool && c.range.min <= d.range.min <= c.range.max ==>
                     d.range.max <= c.range.max || d.range.min == c.range.min
  }

  /** Then nothing crosses. */
  lemma NestedComplete(pool: seq<Candidate>)
    requires Upward(pool) && Nested(pool)
    ensures Complete(pool)
  {
    CompleteIff(pool);
  }

  /** Without nesting it is not complete: here the furthest first step strands it although a chain exists. */
  lemma GreedyCanStrand()
    ensures var a, b := Candidate("a", 1, SeqRange(1, 3)), Candidate("b", 0, SeqRange(1, 2));
            var c := Candidate("c", 0, SeqRange(3, 4));
            Leads([b, c], 0, 4) && Upward([a, b, c]) && PlanFrom([a, b, c], 0, 4) == ChainGap(4, 3)
  {
    var a, b := Candidate("a", 1, SeqRange(1, 3)), Candidate("b", 0, SeqRange(1, 2));
    var c := Candidate("c", 0, SeqRange(3, 4));
    assert [b, c][1..] == [c] && [c][1..] == [];
    assert a in [a, b, c];
    FurthestIsFurthest([a, b, c], 1, 4, a);
    assert Furthest([a, b, c], 1, 4) == Some(a);
    assert Furthest([a, b, c], 4, 4) == None && Tightest([a, b, c], 4, 4) == None;
    assert PlanFrom([a, b, c], 3, 4) == ChainGap(4, 3);
  }

  /** Consecutive spans that start right behind `floor`: a compacted history, fine spans and merged windows alike. */
  ghost predicate Tiles(tiles: seq<SeqRange>, floor: nat) {
    tiles == [] || (tiles[0].min == floor + 1 && tiles[0].min <= tiles[0].max && Tiles(tiles[1..], tiles[0].max))
  }

  function TilesEnd(tiles: seq<SeqRange>, floor: nat): (e: nat) {
    if tiles == [] then floor else TilesEnd(tiles[1..], tiles[0].max)
  }

  /** The target was folded away: it lies in a window but is not the window's end. */
  predicate Decayed(windows: seq<SeqRange>, m: nat) {
    exists i :: 0 <= i < |windows| && windows[i].min <= m < windows[i].max
  }

  /** The objects from `floor` on are exactly the tiles. */
  ghost predicate PoolIs(pool: seq<Candidate>, tiles: seq<SeqRange>, floor: nat) {
    && (forall c :: c in pool && c.range.min > floor ==> c.range in tiles)
    && (forall t :: t in tiles ==> exists c :: c in pool && c.range == t)
  }

  lemma {:induction false} TilesBounds(tiles: seq<SeqRange>, floor: nat)
    requires Tiles(tiles, floor)
    ensures floor <= TilesEnd(tiles, floor)
    ensures forall t :: t in tiles ==> floor < t.min <= t.max
  {
    if tiles == [] {
    } else {
      TilesBounds(tiles[1..], tiles[0].max);
    }
  }

  lemma DecayedRest(tiles: seq<SeqRange>, m: nat)
    requires tiles != [] && !(tiles[0].min <= m < tiles[0].max)
    ensures Decayed(tiles, m) <==> Decayed(tiles[1..], m)
  {
    if Decayed(tiles, m) {
      var i :| 0 <= i < |tiles| && tiles[i].min <= m < tiles[i].max;
      assert tiles[1..][i - 1] == tiles[i];
    }
    if Decayed(tiles[1..], m) {
      var i :| 0 <= i < |tiles[1..]| && tiles[1..][i].min <= m < tiles[1..][i].max;
      assert tiles[i + 1] == tiles[1..][i];
    }
  }

  /** The planner's answer fits the oracle's notion of decay. */
  ghost predicate DecayRight(pool: seq<Candidate>, tiles: seq<SeqRange>, floor: nat, target: nat)
    requires Upward(pool)
  {
    match PlanFrom(pool, floor, target)
    case Plan(_) => !Decayed(tiles, target)
    case ChainGap(_, _) => false
    case InsideWindow(lo, hi, below, above) =>
      Decayed(tiles, target) && SeqRange(lo, hi) in tiles && lo <= target < hi && below == lo - 1 && above == hi
  }

  /** The first tile fits within the target, and the planner takes it. */
  lemma DecayTakes(pool: seq<Candidate>, tiles: seq<SeqRange>, floor: nat, target: nat)
    requires Upward(pool) && Tiles(tiles, floor) && PoolIs(pool, tiles, floor) && tiles != []
    requires tiles[0].max <= target && DecayRight(pool, tiles[1..], tiles[0].max, target)
    ensures DecayRight(pool, tiles, floor, target)
  {
    assert tiles[0] in tiles;
    var c :| c in pool && c.range == tiles[0];
    FurthestIsFurthest(pool, floor + 1, target, c);
    var pick := Furthest(pool, floor + 1, target).value;
    FirstTile(tiles, floor, pick.range);
    StepPlan(pool, floor, target, pick);
    DecayedRest(tiles, target);
  }

  lemma FirstTile(tiles: seq<SeqRange>, floor: nat, r: SeqRange)
    requires Tiles(tiles, floor) && tiles != [] && r in tiles && r.min == floor + 1
    ensures r == tiles[0]
  {
    TilesBounds(tiles[1..], tiles[0].max);
    assert tiles == [tiles[0]] + tiles[1..];
  }

  /** The first tile goes past the target, and nothing finer starts with it. */
  lemma DecayStops(pool: seq<Candidate>, tiles: seq<SeqRange>, floor: nat, target: nat)
    requires Upward(pool) && Tiles(tiles, floor) && PoolIs(pool, tiles, floor) && tiles != []
    requires floor < target < tiles[0].max
    ensures DecayRight(pool, tiles, floor, target)
  {
    assert tiles[0] in tiles;
    var c :| c in pool && c.range == tiles[0];
    var fits := Furthest(pool, floor + 1, target);
    if fits.Some? {
      FirstTile(tiles, floor, fits.value.range);
    }
    TightestIsTightest(pool, floor + 1, target, c);
    FirstTile(tiles, floor, Tightest(pool, floor + 1, target).value.range);
    assert Decayed(tiles, target);
  }

  /** Granularity decay: on a compacted history the planner restores exactly the targets that are not decayed, and
      for a decayed one it names the window around it, whose ends are the nearest restorable points. */
  lemma {:induction false} DecayIff(pool: seq<Candidate>, tiles: seq<SeqRange>, floor: nat, target: nat)
    requires Upward(pool) && Tiles(tiles, floor) && PoolIs(pool, tiles, floor)
    requires floor <= target <= TilesEnd(tiles, floor)
    ensures DecayRight(pool, tiles, floor, target)
    decreases |tiles|
  {
    TilesBounds(tiles, floor);
    if floor == target {
      assert forall i :: 0 <= i < |tiles| ==> tiles[i] in tiles;
    } else if target < tiles[0].max {
      DecayStops(pool, tiles, floor, target);
    } else {
      assert PoolIs(pool, tiles[1..], tiles[0].max) by {
        assert forall x :: x in tiles <==> x == tiles[0] || x in tiles[1..];
      }
      DecayIff(pool, tiles[1..], tiles[0].max, target);
      DecayTakes(pool, tiles, floor, target);
    }
  }
}
