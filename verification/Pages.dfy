/** Database images as page lists, and the in-place page writes of `apply_ltx_to_db`. */
module Pages {

  newtype Byte = x: int | 0 <= x < 256

  type Page = seq<Byte>

  type Db = seq<Page>

  /** Page numbers start at 1. */
  type PageNo = n: nat | n >= 1 witness 1

  datatype PageWrite = PageWrite(pn: PageNo, page: Page)

  const PAGE_SIZE := 4096

  function Zeros(n: nat): (r: Page)
    ensures |r| == n && forall i :: 0 <= i < n ==> r[i] == 0
  {
    if n == 0 then [] else Zeros(n - 1) + [0]
  }

  /** What a file reads as where nothing was ever written. */
  const ZERO_PAGE: Page := Zeros(PAGE_SIZE)

  /** Seek to a page's offset and write it; writing past the end leaves a hole of zeros. */
  function WritePage(db: Db, w: PageWrite): (r: Db)
  {
    if w.pn <= |db| then db[w.pn - 1 := w.page]
    else db + seq(w.pn - 1 - |db|, _ => ZERO_PAGE) + [w.page]
  }

  /** `page` is what a file reads as at place `i`, counted from 0. */
  predicate ReadsAs(db: Db, i: nat, page: Page) {
    if i < |db| then page == db[i] else page == ZERO_PAGE
  }

  /** The file is never cut: an apply keeps every page beyond those it writes. */
  function ApplyPages(db: Db, writes: seq<PageWrite>): (r: Db)
  {
    if writes == [] then db
    else WritePage(ApplyPages(db, writes[..|writes| - 1]), writes[|writes| - 1])
  }

  ghost predicate Writes(writes: seq<PageWrite>, pn: nat) {
    exists k :: 0 <= k < |writes| && writes[k].pn == pn
  }

  /** Every write carries the page that `target` holds at that place. */
  ghost predicate TakenFrom(writes: seq<PageWrite>, target: Db) {
    forall k :: 0 <= k < |writes| ==> writes[k].pn <= |target| && writes[k].page == target[writes[k].pn - 1]
  }

  lemma WritesSnoc(writes: seq<PageWrite>, pn: nat)
    requires writes != []
    ensures Writes(writes, pn) <==> Writes(writes[..|writes| - 1], pn) || pn == writes[|writes| - 1].pn
  {
    var init := writes[..|writes| - 1];
    if Writes(init, pn) {
      var k :| 0 <= k < |init| && init[k].pn == pn;
      assert writes[k].pn == pn;
    }
    if Writes(writes, pn) {
      var k :| 0 <= k < |writes| && writes[k].pn == pn;
      assert k == |writes| - 1 || init[k].pn == pn;
    }
  }

  /** Applying pages taken from one image: written places get that image's pages, other kept
      places are untouched, and the length only grows, to no more than the image's. */
  lemma {:induction false} ApplyPagesEffect(db: Db, writes: seq<PageWrite>, target: Db)
    requires TakenFrom(writes, target)
    ensures var r := ApplyPages(db, writes);
            && |db| <= |r| <= (if |db| < |target| then |target| else |db|)
            && (forall i :: 0 <= i < |r| && Writes(writes, i + 1) ==> i < |target| && r[i] == target[i])
            && (forall i :: 0 <= i < |db| && !Writes(writes, i + 1) ==> r[i] == db[i])
            && (forall pn: nat :: Writes(writes, pn) ==> pn <= |r|)
  {
    if writes != [] {
      var init, w := writes[..|writes| - 1], writes[|writes| - 1];
      ApplyPagesEffect(db, init, target);
      forall pn: nat
        ensures Writes(writes, pn) <==> Writes(init, pn) || pn == w.pn
      {
        WritesSnoc(writes, pn);
      }
      var prev, r := ApplyPages(db, init), ApplyPages(db, writes);
      forall i | 0 <= i < |r| && Writes(writes, i + 1)
        ensures i < |target| && r[i] == target[i]
      {
        assert i + 1 == w.pn || Writes(init, i + 1);
      }
    } else {
      assert forall pn: nat :: !Writes(writes, pn);
    }
  }

  /** Where the file grows without being written it reads as zeros, and it ends with a page that was written. */
  lemma {:induction false} ApplyPagesHoles(db: Db, writes: seq<PageWrite>)
    ensures var r := ApplyPages(db, writes);
            && |db| <= |r| && (|r| > |db| ==> Writes(writes, |r|))
            && (forall i :: |db| <= i < |r| && !Writes(writes, i + 1) ==> r[i] == ZERO_PAGE)
  {
    if writes == [] {
    } else {
      var init, w := writes[..|writes| - 1], writes[|writes| - 1];
      ApplyPagesHoles(db, init);
      forall pn: nat
        ensures Writes(writes, pn) <==> Writes(init, pn) || pn == w.pn
      {
        WritesSnoc(writes, pn);
      }
    }
  }
}
