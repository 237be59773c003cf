/**
 The list of free page runs: sorted by address, disjoint, and fully coalesced.
 Addresses and sizes are counted in pages.
 */
module FreeLists {
  import opened PageDirectories

  /** `struct pgfree`: the first page, the number of pages, and the directory of the first page. */
  datatype Run = Run(page: nat, size: nat, pdir: nat) {
    function End(): nat { page + size }
  }

  ghost predicate In(r: Run, i: nat) { r.page <= i < r.End() }

  /** Some entry holds page `i`. */
  ghost predicate Covers(free: seq<Run>, i: nat) {
    free != [] && (In(free[0], i) || Covers(free[1..], i))
  }

  ghost predicate Entry(r: Run) { r.size > 0 && r.pdir == PageDir(r.page) }

  /** No entry is empty, and between two entries there is at least one page that is not free. */
  ghost predicate Canonical(free: seq<Run>) {
    free != [] ==>
      && Entry(free[0])
      && (|free| > 1 ==> free[0].End() < free[1].page)
      && Canonical(free[1..])
  }

  function Total(free: seq<Run>): nat {
    if free == [] then 0 else free[0].size + Total(free[1..])
  }

  // ------------------------------------------------------------ entries of a canonical list

  lemma {:induction false} EntryAt(free: seq<Run>, k: nat)
    requires Canonical(free) && k < |free|
    ensures Entry(free[k])
    ensures k + 1 < |free| ==> free[k].End() < free[k + 1].page
  {
    if k > 0 {
      EntryAt(free[1..], k - 1);
    }
  }

  lemma {:induction false} Ordered(free: seq<Run>, j: nat, k: nat)
    requires Canonical(free) && j < k < |free|
    ensures free[j].End() < free[k].page
    decreases k
  {
    EntryAt(free, k - 1);
    if j < k - 1 {
      Ordered(free, j, k - 1);
    }
  }

  lemma {:induction false} CoveredBy(free: seq<Run>, k: nat, i: nat)
    requires k < |free| && In(free[k], i)
    ensures Covers(free, i)
  {
    if k > 0 {
      CoveredBy(free[1..], k - 1, i);
    }
  }

  lemma {:induction false} Cover(free: seq<Run>, i: nat) returns (k: nat)
    requires Covers(free, i)
    ensures k < |free| && In(free[k], i)
  {
    if In(free[0], i) {
      k := 0;
    } else {
      k := Cover(free[1..], i);
      k := k + 1;
    }
  }

  /** Where a page can only belong to entry `k`. */
  lemma {:induction false} CoversAt(free: seq<Run>, k: nat, i: nat)
    requires Canonical(free) && k < |free|
    requires k > 0 ==> free[k - 1].End() <= i
    requires k + 1 < |free| ==> i < free[k + 1].page
    ensures Covers(free, i) <==> In(free[k], i)
  {
    if In(free[k], i) {
      CoveredBy(free, k, i);
    } else if Covers(free, i) {
      var j := Cover(free, i);
      if j < k - 1 {
        Ordered(free, j, k - 1);
      } else if j > k + 1 {
        Ordered(free, k + 1, j);
      }
    }
  }

  /** A run of pages none of which is free lies beside every entry. */
  lemma Beside(free: seq<Run>, k: nat, lo: nat, hi: nat)
    requires Canonical(free) && k < |free| && lo < hi
    requires forall i :: lo <= i < hi ==> !Covers(free, i)
    ensures free[k].End() <= lo || hi <= free[k].page
  {
    EntryAt(free, k);
    var i := if free[k].page <= lo then lo else free[k].page;
    if In(free[k], i) {
      CoveredBy(free, k, i);
    }
  }

  /** The free pages around `lo .. hi`, these included, reach from `start` to `stop`. */
  ghost predicate Stretch(free: seq<Run>, lo: nat, hi: nat, start: nat, stop: nat) {
    && start <= lo < hi <= stop
    && (forall i: nat {:trigger Covers(free, i)} :: start <= i < stop ==> Covers(free, i) || lo <= i < hi)
    && (start > 0 ==> !Covers(free, start - 1))
    && !Covers(free, stop)
  }

  /** An entry ends where the free pages do. */
  lemma EntryBounds(free: seq<Run>, k: nat)
    requires Canonical(free) && k < |free|
    ensures free[k].page > 0 ==> !Covers(free, free[k].page - 1)
    ensures !Covers(free, free[k].End())
    ensures forall i: nat {:trigger Covers(free, i)} :: In(free[k], i) ==> Covers(free, i)
  {
    EntryAt(free, k);
    if k > 0 {
      EntryAt(free, k - 1);
    }
    if free[k].page > 0 {
      CoversAt(free, k, free[k].page - 1);
    }
    CoversAt(free, k, free[k].End());
    forall i: nat {:trigger Covers(free, i)} | In(free[k], i) ensures Covers(free, i) {
      CoveredBy(free, k, i);
    }
  }

  /** The entry that pages were added to is the whole stretch of free pages around them. */
  lemma EntryIsStretch(free: seq<Run>, free': seq<Run>, k: nat, lo: nat, hi: nat)
    requires Canonical(free') && k < |free'| && In(free'[k], lo) && lo < hi
    requires forall i: nat {:trigger Covers(free', i)} :: Covers(free', i) <==> Covers(free, i) || lo <= i < hi
    ensures Stretch(free, lo, hi, free'[k].page, free'[k].End())
  {
    EntryBounds(free', k);
    var start, stop := free'[k].page, free'[k].End();
    assert start > 0 ==> !Covers(free', start - 1);
    assert !Covers(free', stop);
    forall i: nat {:trigger Covers(free, i)} | start <= i < stop ensures Covers(free, i) || lo <= i < hi {
      assert Covers(free', i);
    }
  }

  // ------------------------------------------------------------ the list is determined by the free pages

  ghost predicate SamePages(a: seq<Run>, b: seq<Run>) {
    forall i: nat {:trigger Covers(a, i)} {:trigger Covers(b, i)} :: Covers(a, i) <==> Covers(b, i)
  }

  /** In a canonical list the pages past the first run are those of the rest. */
  lemma {:induction false} RestCovers(a: seq<Run>, i: nat)
    requires Canonical(a) && a != []
    ensures Covers(a[1..], i) <==> Covers(a, i) && i > a[0].End()
    ensures i == a[0].End() || i < a[0].page ==> !Covers(a, i)
  {
    if Covers(a[1..], i) {
      var k := Cover(a[1..], i);
      Ordered(a, 0, k + 1);
    }
  }

  /** Sorting, separation and coalescing leave no choice: one list for each set of free pages. */
  lemma {:induction false} CanonicalUnique(a: seq<Run>, b: seq<Run>)
    requires Canonical(a) && Canonical(b) && SamePages(a, b)
    ensures a == b
    decreases |a|
  {
    assert b != [] ==> Covers(b, b[0].page);
    if a == [] {
    } else {
      CoveredBy(a, 0, a[0].page);
      assert b != [];
      RestCovers(a, b[0].page);
      RestCovers(b, a[0].page);
      assert a[0].page == b[0].page;
      if a[0].End() < b[0].End() {
        CoveredBy(b, 0, a[0].End());
        RestCovers(a, a[0].End());
      } else if b[0].End() < a[0].End() {
        CoveredBy(a, 0, b[0].End());
        RestCovers(b, b[0].End());
      }
      forall i: nat
        ensures Covers(a[1..], i) <==> Covers(b[1..], i)
      {
        RestCovers(a, i);
        RestCovers(b, i);
      }
      CanonicalUnique(a[1..], b[1..]);
      assert a == [a[0]] + a[1..] && b == [b[0]] + b[1..];
    }
  }

  // ------------------------------------------------------------ concatenation

  lemma {:induction false} TotalConcat(a: seq<Run>, b: seq<Run>)
    ensures Total(a + b) == Total(a) + Total(b)
  {
    if a == [] {
      assert a + b == b;
    } else {
      TotalConcat(a[1..], b);
      assert (a + b)[1..] == a[1..] + b;
    }
  }

  lemma {:induction false} TotalStep(free: seq<Run>, k: nat)
    requires k < |free|
    ensures Total(free[..k + 1]) == Total(free[..k]) + free[k].size
  {
    TotalConcat(free[..k], [free[k]]);
    assert free[..k] + [free[k]] == free[..k + 1];
  }

  lemma {:induction false} EntryTotal(free: seq<Run>, k: nat)
    requires k < |free|
    ensures free[k].size <= Total(free)
  {
    TotalStep(free, k);
    TotalConcat(free[..k + 1], free[k + 1..]);
    assert free[..k + 1] + free[k + 1..] == free;
  }

  lemma {:induction false} CoversConcat(a: seq<Run>, b: seq<Run>, i: nat)
    ensures Covers(a + b, i) <==> Covers(a, i) || Covers(b, i)
  {
    if a == [] {
      assert a + b == b;
    } else {
      CoversConcat(a[1..], b, i);
      assert (a + b)[1..] == a[1..] + b;
    }
  }

  lemma {:induction false} CanonicalConcat(a: seq<Run>, b: seq<Run>)
    ensures Canonical(a + b) <==>
            Canonical(a) && Canonical(b) && (a != [] && b != [] ==> a[|a| - 1].End() < b[0].page)
  {
    if a == [] {
      assert a + b == b;
    } else {
      CanonicalConcat(a[1..], b);
      assert (a + b)[1..] == a[1..] + b;
    }
  }

  /** Replace the entries `a .. b` by `mid`. */
  function Spliced(free: seq<Run>, a: nat, mid: seq<Run>, b: nat): seq<Run>
    requires a <= b <= |free|
  {
    free[..a] + mid + free[b..]
  }

  lemma {:induction false} SplicedCovers(free: seq<Run>, a: nat, mid: seq<Run>, b: nat, i: nat)
    requires a <= b <= |free|
    ensures Covers(Spliced(free, a, mid, b), i) <==> Covers(free[..a], i) || Covers(mid, i) || Covers(free[b..], i)
  {
    CoversConcat(free[..a] + mid, free[b..], i);
    CoversConcat(free[..a], mid, i);
  }

  lemma {:induction false} SplicedTotal(free: seq<Run>, a: nat, mid: seq<Run>, b: nat)
    requires a <= b <= |free|
    ensures Total(Spliced(free, a, mid, b)) + Total(free[a..b]) == Total(free) + Total(mid)
  {
    TotalConcat(free[..a] + mid, free[b..]);
    TotalConcat(free[..a], mid);
    assert free == free[..a] + free[a..b] + free[b..];
    TotalConcat(free[..a] + free[a..b], free[b..]);
    TotalConcat(free[..a], free[a..b]);
  }

  lemma {:induction false} SplicedCanonical(free: seq<Run>, a: nat, mid: seq<Run>, b: nat)
    requires Canonical(free) && a <= b <= |free| && |mid| <= 1 && (mid != [] ==> Entry(mid[0]))
    requires mid != [] ==> (a > 0 ==> free[a - 1].End() < mid[0].page) && (b < |free| ==> mid[0].End() < free[b].page)
    ensures Canonical(Spliced(free, a, mid, b))
  {
    assert free == free[..a] + free[a..];
    CanonicalConcat(free[..a], free[a..]);
    assert free == free[..b] + free[b..];
    CanonicalConcat(free[..b], free[b..]);
    CanonicalConcat(free[..a], mid);
    CanonicalConcat(free[..a] + mid, free[b..]);
    if mid == [] && 0 < a && b < |free| {
      Ordered(free, a - 1, b);
    }
  }

  // ------------------------------------------------------------ taking and giving pages

  /** Entry `k` loses the pages `lo .. hi` and `mid` is what is left of it. */
  ghost predicate Left(r: Run, mid: seq<Run>, lo: nat, hi: nat) {
    || (mid == [] && lo == r.page && hi == r.End())
    || (|mid| == 1 && Entry(mid[0]) && lo == r.page && hi == mid[0].page && mid[0].End() == r.End())
    || (|mid| == 1 && Entry(mid[0]) && mid[0].page == r.page && mid[0].End() == lo && hi == r.End())
  }

  lemma {:induction false} Carve(free: seq<Run>, k: nat, mid: seq<Run>, lo: nat, hi: nat)
    requires Canonical(free) && k < |free| && Left(free[k], mid, lo, hi) && lo < hi
    ensures Canonical(Spliced(free, k, mid, k + 1))
    ensures Total(Spliced(free, k, mid, k + 1)) + (hi - lo) == Total(free)
    ensures forall i: nat {:trigger Covers(Spliced(free, k, mid, k + 1), i)} ::
        Covers(Spliced(free, k, mid, k + 1), i) <==> Covers(free, i) && !(lo <= i < hi)
  {
    EntryAt(free, k);
    if k > 0 {
      EntryAt(free, k - 1);
    }
    SplicedCanonical(free, k, mid, k + 1);
    SplicedTotal(free, k, mid, k + 1);
    assert free[k..k + 1] == [free[k]];
    forall i: nat
      ensures Covers(Spliced(free, k, mid, k + 1), i) <==> Covers(free, i) && !(lo <= i < hi)
    {
      CarveAt(free, k, mid, lo, hi, i);
    }
  }

  lemma {:induction false} CarveAt(free: seq<Run>, k: nat, mid: seq<Run>, lo: nat, hi: nat, i: nat)
    requires Canonical(free) && k < |free| && Left(free[k], mid, lo, hi) && lo < hi
    ensures Covers(Spliced(free, k, mid, k + 1), i) <==> Covers(free, i) && !(lo <= i < hi)
  {
    SplicedCovers(free, k, mid, k + 1, i);
    SplicedCovers(free, k, [free[k]], k + 1, i);
    assert Spliced(free, k, [free[k]], k + 1) == free;
    if Covers(free[..k], i) {
      var j := Cover(free[..k], i);
      Ordered(free, j, k);
    }
    if Covers(free[k + 1..], i) {
      var j := Cover(free[k + 1..], i);
      Ordered(free, k, k + 1 + j);
    }
  }

  /** `r` holds the pages `lo .. hi` together with the entries `a .. b`, each of which touches them. */
  ghost predicate Joined(free: seq<Run>, a: nat, r: Run, b: nat, lo: nat, hi: nat)
    requires a <= b <= |free|
  {
    || (b == a && r.page == lo && r.End() == hi)
    || (b == a + 1 && free[a].End() == lo && r.page == free[a].page && r.End() == hi)
    || (b == a + 1 && free[a].page == hi && r.page == lo && r.End() == free[a].End())
    || (b == a + 2 && free[a].End() == lo && free[a + 1].page == hi && r.page == free[a].page &&
        r.End() == free[a + 1].End())
  }

  lemma {:induction false} Two(x: Run, y: Run, i: nat)
    ensures Total([x]) == x.size && Total([x, y]) == x.size + y.size
    ensures Covers([x], i) <==> In(x, i)
    ensures Covers([x, y], i) <==> In(x, i) || In(y, i)
  {
    assert [x, y] == [x] + [y];
    TotalConcat([x], [y]);
    CoversConcat([x], [y], i);
  }

  lemma {:induction false} JoinAt(free: seq<Run>, a: nat, r: Run, b: nat, lo: nat, hi: nat, i: nat)
    requires Canonical(free) && a <= b <= |free| && lo < hi && Joined(free, a, r, b, lo, hi)
    ensures Covers(Spliced(free, a, [r], b), i) <==> Covers(free, i) || lo <= i < hi
    ensures Total([r]) == Total(free[a..b]) + (hi - lo)
  {
    SplicedCovers(free, a, [r], b, i);
    SplicedCovers(free, a, free[a..b], b, i);
    assert Spliced(free, a, free[a..b], b) == free;
    Two(r, r, i);
    if b == a + 1 {
      assert free[a..b] == [free[a]];
      Two(free[a], r, i);
    } else if b == a + 2 {
      assert free[a..b] == [free[a], free[a + 1]];
      Two(free[a], free[a + 1], i);
    }
    if a < b {
      EntryAt(free, a);
      EntryAt(free, b - 1);
    }
  }

  lemma {:induction false} Join(free: seq<Run>, a: nat, r: Run, b: nat, lo: nat, hi: nat)
    requires Canonical(free) && a <= b <= |free| && lo < hi && Joined(free, a, r, b, lo, hi) && Entry(r)
    requires a > 0 ==> free[a - 1].End() < r.page
    requires b < |free| ==> r.End() < free[b].page
    ensures Canonical(Spliced(free, a, [r], b))
    ensures Total(Spliced(free, a, [r], b)) == Total(free) + (hi - lo)
    ensures forall i: nat {:trigger Covers(Spliced(free, a, [r], b), i)} ::
      Covers(Spliced(free, a, [r], b), i) <==> Covers(free, i) || lo <= i < hi
  {
    SplicedCanonical(free, a, [r], b);
    SplicedTotal(free, a, [r], b);
    JoinAt(free, a, r, b, lo, hi, 0);
    forall i: nat
      ensures Covers(Spliced(free, a, [r], b), i) <==> Covers(free, i) || lo <= i < hi
    {
      JoinAt(free, a, r, b, lo, hi, i);
    }
  }
}
