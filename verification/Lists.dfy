/** The `filter` and stable `sort_by_key` that the listing code applies to its object lists. */
module Lists {

  function Filter<T(!new)>(keep: T -> bool, s: seq<T>): (r: seq<T>)
    ensures forall x :: x in r <==> x in s && keep(x)
  {
    if s == [] then []
    else if keep(s[0]) then [s[0]] + Filter(keep, s[1..])
    else Filter(keep, s[1..])
  }

  /** A two-part sort key; a single-part key uses 0 as its second part. */
  type Key = (nat, nat)

  predicate Leq(a: Key, b: Key) {
    a.0 < b.0 || (a.0 == b.0 && a.1 <= b.1)
  }

  ghost predicate SortedBy<T>(key: T -> Key, s: seq<T>) {
    forall i, j :: 0 <= i < j < |s| ==> Leq(key(s[i]), key(s[j]))
  }

  /** Insert `x` in front of the first element whose key is not smaller. */
  function Insert<T>(key: T -> Key, x: T, s: seq<T>): (r: seq<T>)
  {
    if s == [] || Leq(key(x), key(s[0])) then [x] + s
    else [s[0]] + Insert(key, x, s[1..])
  }

  /** Stable insertion sort: equal keys keep their order. */
  function SortBy<T>(key: T -> Key, s: seq<T>): (r: seq<T>)
  {
    if s == [] then [] else Insert(key, s[0], SortBy(key, s[1..]))
  }

  lemma {:induction false} InsertContents<T>(key: T -> Key, x: T, s: seq<T>)
    ensures multiset(Insert(key, x, s)) == multiset(s) + multiset{x}
  {
    if s == [] || Leq(key(x), key(s[0])) {
      assert multiset([x] + s) == multiset(s) + multiset{x};
    } else {
      assert s == [s[0]] + s[1..];
      InsertContents(key, x, s[1..]);
    }
  }

  lemma {:induction false} InsertKeepsSorted<T>(key: T -> Key, x: T, s: seq<T>)
    requires SortedBy(key, s)
    ensures SortedBy(key, Insert(key, x, s))
  {
    if s != [] && !Leq(key(x), key(s[0])) {
      var rest := Insert(key, x, s[1..]);
      InsertKeepsSorted(key, x, s[1..]);
      InsertContents(key, x, s[1..]);
      forall j | 0 <= j < |rest|
        ensures Leq(key(s[0]), key(rest[j]))
      {
        assert rest[j] in multiset(rest);
        assert rest[j] == x || rest[j] in s[1..];
      }
    }
  }

  lemma {:induction false} SortBySorts<T>(key: T -> Key, s: seq<T>)
    ensures SortedBy(key, SortBy(key, s))
    ensures multiset(SortBy(key, s)) == multiset(s)
  {
    if s == [] {
    } else {
      assert s == [s[0]] + s[1..];
      SortBySorts(key, s[1..]);
      InsertKeepsSorted(key, s[0], SortBy(key, s[1..]));
      InsertContents(key, s[0], SortBy(key, s[1..]));
    }
  }

  lemma SortByMembers<T(!new)>(key: T -> Key, s: seq<T>)
    ensures forall x :: x in SortBy(key, s) <==> x in s
  {
    SortBySorts(key, s);
    forall x
      ensures x in SortBy(key, s) <==> x in s
    {
      assert x in SortBy(key, s) <==> x in multiset(SortBy(key, s));
      assert x in s <==> x in multiset(s);
    }
  }

  /** `related` holds between any two entries at different positions. */
  ghost predicate Pairwise<T>(related: (T, T) -> bool, s: seq<T>) {
    forall i, j :: 0 <= i < |s| && 0 <= j < |s| && i != j ==> related(s[i], s[j])
  }

  lemma {:induction false} FilterPairwise<T(!new)>(related: (T, T) -> bool, keep: T -> bool, s: seq<T>)
    requires Pairwise(related, s)
    ensures Pairwise(related, Filter(keep, s))
  {
    if s == [] {
    } else {
      var rest := Filter(keep, s[1..]);
      FilterPairwise(related, keep, s[1..]);
      forall j | 0 <= j < |rest|
        ensures related(s[0], rest[j]) && related(rest[j], s[0])
      {
        assert rest[j] in s[1..];
      }
    }
  }

  lemma {:induction false} InsertPairwise<T>(related: (T, T) -> bool, key: T -> Key, x: T, s: seq<T>)
    requires Pairwise(related, s)
    requires forall y :: y in s ==> related(x, y) && related(y, x)
    ensures Pairwise(related, Insert(key, x, s))
  {
    if s != [] && !Leq(key(x), key(s[0])) {
      var rest := Insert(key, x, s[1..]);
      InsertPairwise(related, key, x, s[1..]);
      InsertContents(key, x, s[1..]);
      forall j | 0 <= j < |rest|
        ensures related(s[0], rest[j]) && related(rest[j], s[0])
      {
        assert rest[j] in multiset(rest);
        assert rest[j] == x || rest[j] in s[1..];
      }
    }
  }

  lemma {:induction false} SortPairwise<T(!new)>(related: (T, T) -> bool, key: T -> Key, s: seq<T>)
    requires Pairwise(related, s)
    ensures Pairwise(related, SortBy(key, s))
  {
    if s == [] {
    } else {
      SortPairwise(related, key, s[1..]);
      var rest := SortBy(key, s[1..]);
      SortByMembers(key, s[1..]);
      forall y | y in rest
        ensures related(s[0], y) && related(y, s[0])
      {
        assert y in s[1..];
      }
      InsertPairwise(related, key, s[0], rest);
    }
  }

  /** A sorted list is left as it is. */
  lemma {:induction false} SortedStays<T>(key: T -> Key, s: seq<T>)
    requires SortedBy(key, s)
    ensures SortBy(key, s) == s
  {
    if s == [] {
    } else {
      SortedStays(key, s[1..]);
      assert s == [s[0]] + s[1..];
    }
  }

  lemma {:induction false} FilterAll<T(!new)>(keep: T -> bool, s: seq<T>)
    requires forall x :: x in s ==> keep(x)
    ensures Filter(keep, s) == s
  {
    if s == [] {
    } else {
      FilterAll(keep, s[1..]);
      assert s == [s[0]] + s[1..];
    }
  }

  /** If only the first element is dropped and the rest is sorted, filtering and sorting leave the rest. */
  lemma DropFirstSorted<T(!new)>(key: T -> Key, keep: T -> bool, s: seq<T>, rest: seq<T>)
    requires s != [] && !keep(s[0]) && s[1..] == rest && (forall x :: x in rest ==> keep(x)) && SortedBy(key, rest)
    ensures SortBy(key, Filter(keep, s)) == rest
  {
    FilterAll(keep, rest);
    SortedStays(key, rest);
  }

  /** A filter keeps every occurrence of what it keeps. */
  lemma {:induction false} FilterCounts<T(!new)>(keep: T -> bool, s: seq<T>, x: T)
    ensures multiset(Filter(keep, s))[x] == if keep(x) then multiset(s)[x] else 0
  {
    if s == [] {
    } else {
      assert s == [s[0]] + s[1..];
      FilterCounts(keep, s[1..], x);
    }
  }

  lemma FilterFirst<T(!new)>(keep: T -> bool, x: T, s: seq<T>)
    ensures Filter(keep, [x] + s) == (if keep(x) then [x] else []) + Filter(keep, s)
  {
    assert ([x] + s)[1..] == s;
  }

  /** All elements of the kind `keep` have one key. */
  ghost predicate OneKey<T(!new)>(key: T -> Key, keep: T -> bool) {
    forall x, y :: keep(x) && keep(y) ==> key(x) == key(y)
  }

  lemma {:induction false} InsertStable<T(!new)>(key: T -> Key, keep: T -> bool, x: T, s: seq<T>)
    requires OneKey(key, keep)
    ensures Filter(keep, Insert(key, x, s)) == Filter(keep, [x] + s)
  {
    if s == [] || Leq(key(x), key(s[0])) {
    } else {
      var rest := s[1..];
      InsertStable(key, keep, x, rest);
      FilterFirst(keep, s[0], Insert(key, x, rest));
      FilterFirst(keep, x, rest);
      FilterFirst(keep, x, s);
    }
  }

  /** The sort is stable: elements with the same key keep their order. */
  lemma {:induction false} SortIsStable<T(!new)>(key: T -> Key, keep: T -> bool, s: seq<T>)
    requires OneKey(key, keep)
    ensures Filter(keep, SortBy(key, s)) == Filter(keep, s)
  {
    if s == [] {
    } else {
      var rest := SortBy(key, s[1..]);
      SortIsStable(key, keep, s[1..]);
      InsertStable(key, keep, s[0], rest);
      FilterFirst(keep, s[0], rest);
    }
  }
}
