/**
 Whole pages: first fit from the list of free runs, coalescing on free, and a bounded
 cache beyond which free pages go back to the system.
 */
module PageAllocators {
  import opened Prelude
  import opened PageDirectories
  import opened FreeLists

  // ------------------------------------------------------------ live runs

  /** Page `i` belongs to the live run that starts at `p` (or to its guard page). */
  ghost predicate Inside(live: map<nat, nat>, guard: nat, p: nat, i: nat)
    requires p in live
  {
    p <= i < p + live[p] + guard
  }

  ghost predicate InLive(live: map<nat, nat>, guard: nat, i: nat) {
    exists p :: p in live && Inside(live, guard, p, i)
  }

  /** The marks of a live run: one FIRST (or chunk) page, then FOLLOW pages, then the guard. */
  ghost predicate RunMarked(mark: map<nat, Mark>, p: nat, n: nat, guard: nat) {
    && n > 0
    && (At(mark, p) == First || (At(mark, p) == Chunk && n == 1))
    && (forall i :: p < i < p + n ==> At(mark, i) == Follow)
    && (guard == 1 ==> At(mark, p + n) == First)
  }

  /** The run at `q` starts behind the one at `p` and its guard page. */
  ghost predicate Behind(live: map<nat, nat>, guard: nat, p: nat, q: nat)
    requires p in live
  {
    p + live[p] + guard <= q
  }

  ghost predicate Apart(live: map<nat, nat>, guard: nat) {
    forall p, q {:trigger Behind(live, guard, p, q)} :: p in live && q in live && p < q ==> Behind(live, guard, p, q)
  }

  lemma RunsApart(live: map<nat, nat>, guard: nat, p: nat, q: nat)
    requires Apart(live, guard) && p in live && q in live && p != q
    ensures p + live[p] + guard <= q || q + live[q] + guard <= p
  {
    assert if p < q then Behind(live, guard, p, q) else Behind(live, guard, q, p);
  }

  /** Marks, free list and live runs tell one story, and together they account for every page we own. */
  ghost predicate Agree(mark: map<nat, Mark>, mapped: set<nat>, free: seq<Run>, live: map<nat, nat>, guard: nat) {
    && (forall i: nat {:trigger At(mark, i)} :: At(mark, i) == Free <==> Covers(free, i))
    && (forall i: nat {:trigger Covers(free, i)} :: Covers(free, i) ==> i in mapped)
    && (forall i: nat {:trigger InLive(live, guard, i)} :: Covers(free, i) || InLive(live, guard, i) <==> i in mapped)
    && (forall p {:trigger RunMarked(mark, p, live[p], guard)} :: p in live ==> RunMarked(mark, p, live[p], guard))
    && Apart(live, guard)
  }

  /** A page of a live run is neither free nor unowned. */
  lemma LivePage(mark: map<nat, Mark>, mapped: set<nat>, free: seq<Run>, live: map<nat, nat>, guard: nat, p: nat,
        i: nat)
    requires Agree(mark, mapped, free, live, guard) && guard <= 1 && p in live && Inside(live, guard, p, i)
    ensures i in mapped && !Covers(free, i)
    ensures At(mark, i) != Free && At(mark, i) != NotMine
  {
    assert RunMarked(mark, p, live[p], guard);
    assert At(mark, i) == if p < i < p + live[p] then Follow else if i == p then At(mark, p) else First;
    assert InLive(live, guard, i);
  }

  /** A page that is free, or not ours at all, belongs to no live run. */
  lemma FreshPage(mark: map<nat, Mark>, mapped: set<nat>, free: seq<Run>, live: map<nat, nat>, guard: nat, i: nat)
    requires Agree(mark, mapped, free, live, guard) && guard <= 1 && (Covers(free, i) || i !in mapped)
    ensures !InLive(live, guard, i)
    ensures Covers(free, i) ==> i in mapped
  {
    if InLive(live, guard, i) {
      var p :| p in live && Inside(live, guard, p, i);
      LivePage(mark, mapped, free, live, guard, p, i);
    }
  }

  /** The page behind a live run is never a FOLLOW page, so the walk in `free_pages` stops in time. */
  lemma RunEnds(mark: map<nat, Mark>, mapped: set<nat>, free: seq<Run>, live: map<nat, nat>, guard: nat, p: nat)
    requires Agree(mark, mapped, free, live, guard) && guard <= 1 && p in live
    requires forall i :: i in mark && mark[i] != NotMine ==> i in mapped
    ensures At(mark, p + live[p]) != Follow
  {
    var e := p + live[p];
    assert RunMarked(mark, p, live[p], guard);
    if guard == 0 && e in mapped && !Covers(free, e) {
      assert InLive(live, guard, e);
      var q :| q in live && Inside(live, guard, q, e);
      assert RunMarked(mark, q, live[q], guard);
      if q != p {
        RunsApart(live, guard, p, q);
      }
      assert q == e;
    } else if guard == 0 && Covers(free, e) {
      assert At(mark, e) == Free;
    }
  }

  /** The pages of a live run and its guard are ours and not free, and its marks are those of a run. */
  lemma RunPages(mark: map<nat, Mark>, mapped: set<nat>, free: seq<Run>, live: map<nat, nat>, guard: nat, p: nat)
    requires Agree(mark, mapped, free, live, guard) && guard <= 1 && p in live
    ensures forall i :: p <= i < p + live[p] + guard ==> i in mapped && !Covers(free, i)
    ensures live[p] > 0 && forall i :: p < i < p + live[p] ==> At(mark, i) == Follow
  {
    assert RunMarked(mark, p, live[p], guard);
    forall i | p <= i < p + live[p] + guard ensures i in mapped && !Covers(free, i) {
      LivePage(mark, mapped, free, live, guard, p, i);
    }
  }

  /** The other runs start elsewhere, on pages that are not free. */
  lemma OtherRuns(mark: map<nat, Mark>, mapped: set<nat>, free: seq<Run>, live: map<nat, nat>, guard: nat, p: nat)
    requires Agree(mark, mapped, free, live, guard) && guard <= 1 && p in live
    ensures forall q :: q in live && q != p ==> !Inside(live, guard, p, q) && At(mark, q) != Free
  {
    forall q | q in live && q != p
      ensures !Inside(live, guard, p, q) && At(mark, q) != Free
    {
      assert RunMarked(mark, q, live[q], guard) && RunMarked(mark, p, live[p], guard);
      RunsApart(live, guard, p, q);
    }
  }

  /** Only the first page of a live run can be marked as a page of chunks. */
  lemma ChunkStart(mark: map<nat, Mark>, mapped: set<nat>, free: seq<Run>, live: map<nat, nat>, guard: nat, i: nat)
    requires Agree(mark, mapped, free, live, guard) && guard <= 1 && i in mapped && At(mark, i) == Chunk
    ensures i in live && live[i] == 1
  {
    assert InLive(live, guard, i);
    var p :| p in live && Inside(live, guard, p, i);
    assert RunMarked(mark, p, live[p], guard);
  }

  lemma EntryPages(mark: map<nat, Mark>, mapped: set<nat>, free: seq<Run>, live: map<nat, nat>, guard: nat, k: nat)
    requires Agree(mark, mapped, free, live, guard) && Canonical(free) && k < |free|
    ensures Entry(free[k]) && free[k].page in mapped
    ensures forall i :: free[k].page <= i < free[k].End() ==> Covers(free, i) && i in mapped && At(mark, i) == Free
  {
    EntryAt(free, k);
    forall i | free[k].page <= i < free[k].End()
      ensures Covers(free, i) && i in mapped && At(mark, i) == Free
    {
      CoveredBy(free, k, i);
    }
  }

  lemma StartsLive(mark: map<nat, Mark>, mapped: set<nat>, free: seq<Run>, live: map<nat, nat>, guard: nat, p: nat)
    requires Agree(mark, mapped, free, live, guard) && p in live
    ensures InLive(live, guard, p)
  {
    assert RunMarked(mark, p, live[p], guard) && Inside(live, guard, p, p);
  }

  lemma AllocAgree(mark: map<nat, Mark>, mapped: set<nat>, free: seq<Run>, live: map<nat, nat>, guard: nat,
                   mark': map<nat, Mark>, mapped': set<nat>, free': seq<Run>, p: nat, n: nat)
    requires Agree(mark, mapped, free, live, guard) && n > 0 && guard <= 1
    requires forall i {:trigger InLive(live, guard, i)} :: p <= i < p + n + guard ==> !InLive(live, guard, i)
    requires forall i: nat {:trigger At(mark', i)} ::
               At(mark', i) == if i == p || (i == p + n && guard == 1) then First
                               else if p < i < p + n then Follow else At(mark, i)
    requires forall i: nat {:trigger Covers(free', i)} ::
      Covers(free', i) <==> Covers(free, i) && !(p <= i < p + n + guard)
    requires forall i: nat {:trigger i in mapped'} :: i in mapped' <==> i in mapped || p <= i < p + n + guard
    ensures Agree(mark', mapped', free', live[p := n], guard)
    ensures p !in live && At(mark', p) == First
    ensures forall q {:trigger At(mark', q)} :: q in live ==> At(mark', q) == At(mark, q)
  {
    var live' := live[p := n];
    assert p !in live by {
      if p in live {
        StartsLive(mark, mapped, free, live, guard, p);
        assert false;
      }
    }
    forall q | q in live
      ensures q + live[q] + guard <= p || p + n + guard <= q
      ensures RunMarked(mark', q, live[q], guard) && At(mark', q) == At(mark, q)
    {
      assert RunMarked(mark, q, live[q], guard);
      var i := if q <= p then p else q;
      if Inside(live, guard, q, i) && i < p + n + guard {
        assert InLive(live, guard, i);
      }
      assert q + live[q] + guard <= p || p + n + guard <= q;
    }
    forall i: nat {:trigger InLive(live', guard, i)}
      ensures Covers(free', i) || InLive(live', guard, i) <==> i in mapped'
    {
      InLiveWith(live, guard, p, n, i);
    }
    forall x, y {:trigger Behind(live', guard, x, y)} | x in live' && y in live' && x < y
      ensures Behind(live', guard, x, y)
    {
      if x != p && y != p {
        assert Behind(live, guard, x, y);
      }
    }
  }

  lemma RelabelAgree(mark: map<nat, Mark>, mapped: set<nat>, free: seq<Run>, live: map<nat, nat>, guard: nat,
                     mark': map<nat, Mark>, p: nat, m: Mark)
    requires Agree(mark, mapped, free, live, guard) && guard <= 1 && p in live && live[p] == 1 &&
        (m == First || m == Chunk)
    requires forall i: nat {:trigger At(mark', i)} :: At(mark', i) == if i == p then m else At(mark, i)
    ensures Agree(mark', mapped, free, live, guard)
  {
    LivePage(mark, mapped, free, live, guard, p, p);
    forall q | q in live
      ensures RunMarked(mark', q, live[q], guard)
    {
      assert RunMarked(mark, q, live[q], guard);
      if q != p {
        RunsApart(live, guard, p, q);
      }
    }
  }

  lemma InLiveWith(live: map<nat, nat>, guard: nat, p: nat, n: nat, i: nat)
    requires p !in live
    ensures InLive(live[p := n], guard, i) <==> InLive(live, guard, i) || p <= i < p + n + guard
  {
    var live' := live[p := n];
    if InLive(live, guard, i) {
      var q :| q in live && Inside(live, guard, q, i);
      assert Inside(live', guard, q, i);
    }
    if p <= i < p + n + guard {
      assert Inside(live', guard, p, i);
    }
    if InLive(live', guard, i) {
      var q :| q in live' && Inside(live', guard, q, i);
      assert q == p || Inside(live, guard, q, i);
    }
  }

  lemma FreeAgree(mark: map<nat, Mark>, mapped: set<nat>, free: seq<Run>, live: map<nat, nat>, guard: nat,
                  mark': map<nat, Mark>, free': seq<Run>, p: nat)
    requires Agree(mark, mapped, free, live, guard) && guard <= 1 && p in live
    requires forall i: nat {:trigger At(mark', i)} ::
        At(mark', i) == if Inside(live, guard, p, i) then Free else At(mark, i)
    requires forall i: nat {:trigger Covers(free', i)} ::
      Covers(free', i) <==> Covers(free, i) || Inside(live, guard, p, i)
    ensures Agree(mark', mapped, free', live - {p}, guard)
  {
    var live' := live - {p};
    assert live == live'[p := live[p]];
    forall q | q in live'
      ensures RunMarked(mark', q, live'[q], guard)
    {
      assert RunMarked(mark, q, live[q], guard);
      RunsApart(live, guard, p, q);
    }
    forall x, y {:trigger Behind(live', guard, x, y)} | x in live' && y in live' && x < y
      ensures Behind(live', guard, x, y)
    {
      assert Behind(live, guard, x, y);
    }
    forall i: nat {:trigger InLive(live', guard, i)}
      ensures Covers(free', i) || InLive(live', guard, i) <==> i in mapped
    {
      InLiveWith(live', guard, p, live[p], i);
      assert InLive(live, guard, i) <==> InLive(live', guard, i) || Inside(live, guard, p, i);
    }
    forall i: nat {:trigger Covers(free', i)}
      ensures Covers(free', i) ==> i in mapped
    {
      if Inside(live, guard, p, i) {
        assert InLive(live, guard, i);
      }
    }
  }

  lemma TrimAgree(mark: map<nat, Mark>, mapped: set<nat>, free: seq<Run>, live: map<nat, nat>, guard: nat,
                  mark': map<nat, Mark>, mapped': set<nat>, free': seq<Run>, lo: nat, hi: nat)
    requires Agree(mark, mapped, free, live, guard) && guard <= 1
    requires forall i :: lo <= i < hi ==> Covers(free, i)
    requires forall i: nat {:trigger At(mark', i)} :: At(mark', i) == if lo <= i < hi then NotMine else At(mark, i)
    requires forall i: nat {:trigger Covers(free', i)} :: Covers(free', i) <==> Covers(free, i) && !(lo <= i < hi)
    requires forall i: nat {:trigger i in mapped'} :: i in mapped' <==> i in mapped && !(lo <= i < hi)
    ensures Agree(mark', mapped', free', live, guard)
  {
    forall q | q in live
      ensures RunMarked(mark', q, live[q], guard)
    {
      assert RunMarked(mark, q, live[q], guard);
      forall i | q <= i < q + live[q] + guard
        ensures At(mark', i) == At(mark, i)
      {
        LivePage(mark, mapped, free, live, guard, q, i);
      }
    }
    forall i: nat {:trigger InLive(live, guard, i)}
      ensures Covers(free', i) || InLive(live, guard, i) <==> i in mapped'
    {
      if InLive(live, guard, i) {
        var q :| q in live && Inside(live, guard, q, i);
        LivePage(mark, mapped, free, live, guard, q, i);
      }
    }
  }

  /**
   A guard page is marked like a run of its own, but is none.  To free it, as a run of one page with a
   guard behind it, takes it from the run before it, and the page behind it from whatever is there.
   */
  lemma GuardIsNoRun(mark: map<nat, Mark>, mapped: set<nat>, free: seq<Run>, live: map<nat, nat>, p: nat,
                     mark': map<nat, Mark>, mapped': set<nat>, free': seq<Run>)
    requires Agree(mark, mapped, free, live, 1) && p in live
    requires forall i :: i in mark && mark[i] != NotMine ==> i in mapped
    requires var g := p + live[p];
      forall i: nat {:trigger At(mark', i)} :: At(mark', i) == if g <= i < g + 2 then Free else At(mark, i)
    ensures At(mark, p + live[p]) == First && At(mark, p + live[p] + 1) != Follow && p + live[p] !in live
    ensures !Agree(mark', mapped', free', live, 1)
    ensures forall q :: q in live && q == p + live[p] + 1 ==> At(mark', q) == Free
  {
    assert RunMarked(mark, p, live[p], 1);
    if p + live[p] in live {
      RunsApart(live, 1, p, p + live[p]);
    }
    assert At(mark', p + live[p]) == Free && !RunMarked(mark', p, live[p], 1);
    var e := p + live[p] + 1;
    if e in mapped && !Covers(free, e) {
      assert InLive(live, 1, e);
      var q :| q in live && Inside(live, 1, q, e);
      assert RunMarked(mark, q, live[q], 1);
      if q != p {
        RunsApart(live, 1, p, q);
      }
    } else if Covers(free, e) {
      assert At(mark, e) == Free;
    }
  }

  ghost function Sum(live: map<nat, nat>): nat {
    if live == map[] then 0
    else
      var p :| p in live;
      live[p] + Sum(live - {p})
  }

  lemma {:induction false} SumWithout(live: map<nat, nat>, p: nat)
    requires p in live
    ensures Sum(live) == live[p] + Sum(live - {p})
    decreases |live|
  {
    var q :| q in live && Sum(live) == live[q] + Sum(live - {q});
    if q != p {
      SumWithout(live - {q}, p);
      SumWithout(live - {p}, q);
      assert (live - {q}) - {p} == (live - {p}) - {q};
    }
  }

  lemma SumWith(live: map<nat, nat>, p: nat, n: nat)
    requires p !in live
    ensures Sum(live[p := n]) == Sum(live) + n
  {
    SumWithout(live[p := n], p);
    assert live[p := n] - {p} == live;
  }

  ghost predicate NoFit(free: seq<Run>, need: nat) {
    forall k :: 0 <= k < |free| ==> free[k].size < need
  }

  /** `p` starts the lowest-addressed entry with at least `need` pages. */
  ghost predicate FirstFit(free: seq<Run>, need: nat, p: nat) {
    exists k :: 0 <= k < |free| && free[k].page == p && free[k].size >= need && NoFit(free[..k], need)
  }

  /** The walk over the list for the pages `ptr .. tail`, none of them free, has stopped at entry `pf`. */
  ghost predicate Stopped(free: seq<Run>, pf: nat, ptr: nat, tail: nat) {
    && Canonical(free) && pf < |free|
    && (forall i :: ptr <= i < tail ==> !Covers(free, i))
    && (pf > 0 ==> free[pf - 1].End() < ptr)
    && (ptr <= free[pf].End() || pf + 1 == |free|)
  }

  /** Which neighbours of a run about to be freed are free, read off the entries around it. */
  lemma Neighbours(free: seq<Run>, pf: nat, ptr: nat, tail: nat)
    requires ptr < tail && Stopped(free, pf, ptr, tail)
    ensures ptr > 0 ==> (Covers(free, ptr - 1) <==> free[pf].End() == ptr)
    ensures free[pf].End() == ptr ==> (Covers(free, tail) <==> pf + 1 < |free| && free[pf + 1].page == tail)
  {
    Beside(free, pf, ptr, tail);
    EntryAt(free, pf);
    if ptr > 0 {
      CoversAt(free, pf, ptr - 1);
    }
    if free[pf].End() == ptr && pf + 1 < |free| {
      Beside(free, pf + 1, ptr, tail);
      EntryAt(free, pf + 1);
      CoversAt(free, pf + 1, tail);
    } else if free[pf].End() == ptr {
      CoversAt(free, pf, tail);
    }
  }

  /** The four ways to add `ptr .. tail` at entry `pf`: the entries `a .. b` give way to `r`. */
  method Choose(free: seq<Run>, pf: nat, ptr: nat, tail: nat)
    returns (a: nat, r: Run, b: nat, merged: nat, destroyed: bool, ghost over: nat)
    requires ptr < tail && Stopped(free, pf, ptr, tail)
    ensures !destroyed
    ensures a <= b <= |free| && Joined(free, a, r, b, ptr, tail) && Entry(r)
    ensures a > 0 ==> free[a - 1].End() < r.page
    ensures b < |free| ==> r.End() < free[b].page
    ensures merged + tail - ptr + over == r.size
    ensures over == if free[pf].End() == ptr then r.End() - tail else 0
    ensures over > 0 <==> free[pf].End() == ptr && pf + 1 < |free| && free[pf + 1].page == tail
  {
    var e, l := free[pf], tail - ptr;
    a, b, r := pf, pf + 1, Run(ptr, l, PageDir(ptr));
    merged, destroyed, over := 0, false, 0;
    EntryAt(free, pf);
    if pf > 0 {
      EntryAt(free, pf - 1);
    }
    Beside(free, pf, ptr, tail);
    if e.page > tail {
      b := pf;
    } else if e.End() == ptr {
      merged := e.size;
      r := e.(size := e.size + l);
      if pf + 1 < |free| {
        EntryAt(free, pf + 1);
        Beside(free, pf + 1, ptr, tail);
        if free[pf + 1].page == r.End() {
          over := free[pf + 1].size;
          r := r.(size := r.size + free[pf + 1].size);
          b := pf + 2;
        }
      }
    } else if e.page == tail {
      merged := e.size;
      r := Run(ptr, e.size + l, PageDir(ptr));
    } else if pf + 1 == |free| {
      a := pf + 1;
    } else {
      destroyed := true;
    }
  }

  /** `l` pages at `index` were added to the list, where they are now part of entry `e`. */
  ghost predicate FreedAt(free: seq<Run>, free': seq<Run>, index: nat, l: nat, e: Run, over: nat) {
    && Total(free') == Total(free) + l
    && (forall i: nat {:trigger Covers(free', i)} :: Covers(free', i) <==> Covers(free, i) || index <= i < index + l)
    && Stretch(free, index, index + l, e.page, e.End())
    && over == if index > 0 && Covers(free, index - 1) then e.End() - (index + l) else 0
  }

  /**
   The list after `l` pages at `index` were freed: they join the free pages around them to the
   stretch `e`, of which the first `kept` pages stay.  Everything stays if it fits the cache with
   `over` pages to spare; otherwise the cache is filled up to that.
   */
  ghost predicate Trimmed(free: seq<Run>, free': seq<Run>, index: nat, l: nat, cache: nat, e: Run, over: nat,
        kept: nat) {
    && Stretch(free, index, index + l, e.page, e.End()) && kept <= e.size
    && over == (if index > 0 && Covers(free, index - 1) then e.End() - (index + l) else 0)
    && (forall i: nat {:trigger Covers(free', i)} ::
      Covers(free', i) <==> (Covers(free, i) || index <= i < index + l) && !(e.page + kept <= i < e.End()))
    && Total(free') + over == (if Total(free) + l + over <= cache then Total(free) + l + over else cache)
    && Total(free') + e.size == Total(free) + l + kept
  }

  /** Of entry `pos` the first `kept` pages are left, and of the others everything. */
  ghost predicate Shortened(free: seq<Run>, free': seq<Run>, pos: nat, kept: nat) {
    && pos < |free| && kept <= free[pos].size && Total(free') + free[pos].size == Total(free) + kept
    && forall i: nat {:trigger Covers(free', i)} ::
      Covers(free', i) <==> Covers(free, i) && !(free[pos].page + kept <= i < free[pos].End())
  }

  lemma FreedThenTrimmed(free: seq<Run>, added: seq<Run>, free': seq<Run>, index: nat, l: nat, cache: nat, pos: nat,
        over: nat, kept: nat)
    requires Canonical(added) && pos < |added| && FreedAt(free, added, index, l, added[pos], over)
    requires Total(added) + over - added[pos].size <= cache && Shortened(added, free', pos, kept)
    requires kept ==
      if Total(added) + over > cache then cache - (Total(added) + over - added[pos].size) else added[pos].size
    ensures Trimmed(free, free', index, l, cache, added[pos], over, kept)
  {
  }

  /**
   Of the entry a freed run joins, nothing is kept exactly when the list already filled the cache
   and the run has no free neighbour.
   */
  lemma NothingKeptIff(free: seq<Run>, free': seq<Run>, index: nat, l: nat, cache: nat, e: Run, over: nat, kept: nat)
    requires Canonical(free) && Total(free) <= cache && Trimmed(free, free', index, l, cache, e, over, kept)
    ensures kept == 0 <==> Total(free) == cache && !(index > 0 && Covers(free, index - 1)) && !Covers(free, index + l)
    ensures Covers(free', e.page) <==> kept > 0
  {
    assert e.page < index ==> Covers(free, index - 1);
    assert index + l < e.End() ==> Covers(free, index + l);
    assert Covers(free, index + l) ==> index + l < e.End();
    assert index > 0 && Covers(free, index - 1) ==> e.page < index;
  }

  datatype FreeResult = Freed | AlreadyFree | WrongPage | Corrupt

  class PageAllocator {
    const dir: PageDirectory
    const guard: nat
    const cache: nat
    var free: seq<Run>
    var used: nat
    /** First page and length of every run handed out and not yet freed. */
    ghost var live: map<nat, nat>

    ghost predicate Valid()
      reads this, dir
    {
      && dir.Valid() && guard <= 1 && cache > 0
      && Canonical(free) && Total(free) <= cache
      && Agree(dir.mark, dir.mapped, free, live, guard)
      && used == Sum(live)
    }

    constructor (guarded: bool, cachePages: nat)
      ensures Valid() && fresh(dir) && live == map[] && free == []
      ensures guard == (if guarded then 1 else 0) && cache == if cachePages == 0 then 1 else cachePages
    {
      dir := new PageDirectory();
      guard, cache := if guarded then 1 else 0, if cachePages == 0 then 1 else cachePages;
      free, used, live := [], 0, map[];
    }

    /** The directory of page `i`, found by walking from the directory of an earlier page of the same run. */
    method DirFrom(pdir: nat, i: nat) returns (num: nat, hole: bool)
      requires dir.Valid() && pdir in dir.cnt && pdir <= PageDir(i) && PageDir(i) in dir.cnt
      ensures num == PageDir(i) && !hole
    {
      assert pdir in dir.order;
      var pi := dir.WalkForward(PosOf(dir.order, pdir), PageDir(i));
      FloorExact(dir.order, dir.cnt, pi, PageDir(i));
      num, hole := dir.order[pi], dir.order[pi] != PageDir(i);
    }

    /** Take the first entry with at least `need` pages, or the front of it. */
    method TakeFit(need: nat) returns (found: bool, p: nat, hole: bool)
      requires need > 0 && Canonical(free) && dir.Valid()
      requires forall i: nat :: Covers(free, i) ==> i in dir.mapped
      modifies this`free
      ensures !hole && Canonical(free)
      ensures !found ==> free == old(free) && NoFit(free, need)
      ensures found ==> FirstFit(old(free), need, p)
      ensures found ==> Total(free) + need == old(Total(free))
      ensures found ==> forall i :: p <= i < p + need ==> old(Covers(free, i))
      ensures forall i: nat {:trigger Covers(free, i)} ::
        Covers(free, i) <==> old(Covers(free, i)) && !(found && p <= i < p + need)
    {
      found, p, hole := false, 0, false;
      var k := 0;
      while k < |free| && free[k].size < need
        invariant 0 <= k <= |free|
        invariant forall j :: 0 <= j < k ==> free[j].size < need
      {
        k := k + 1;
      }
      if k < |free| {
        found, p := true, free[k].page;
        EntryAt(free, k);
        forall i | p <= i < free[k].End()
          ensures Covers(free, i)
        {
          CoveredBy(free, k, i);
        }
        var rest: seq<Run> := [];
        if free[k].size != need {
          assert p in dir.mapped && p + need in dir.mapped;
          var num;
          num, hole := DirFrom(free[k].pdir, p + need);
          rest := [Run(p + need, free[k].size - need, num)];
        }
        Carve(free, k, rest, p, p + need);
        free := Spliced(free, k, rest, k + 1);
      }
    }

    /** Put the pages `ptr .. ptr + l` on the list, at the entry where the walk has stopped. */
    method Place(pf: nat, ptr: nat, l: nat) returns (pos: nat, merged: nat, destroyed: bool, ghost over: nat)
      requires l > 0 && Stopped(free, pf, ptr, ptr + l)
      modifies this`free
      ensures !destroyed && Canonical(free)
      ensures forall i: nat {:trigger Covers(free, i)} ::
        Covers(free, i) <==> old(Covers(free, i)) || ptr <= i < ptr + l
      ensures Total(free) == old(Total(free)) + l
      ensures pos < |free| && In(free[pos], ptr)
      ensures merged + Total(free) + over == old(Total(free)) + free[pos].size
      ensures ptr + l <= free[pos].End()
      ensures over == if ptr > 0 && old(Covers(free, ptr - 1)) then free[pos].End() - (ptr + l) else 0
      ensures over > 0 <==> ptr > 0 && old(Covers(free, ptr - 1)) && old(Covers(free, ptr + l))
    {
      var a, r, b;
      a, r, b, merged, destroyed, over := Choose(free, pf, ptr, ptr + l);
      Neighbours(free, pf, ptr, ptr + l);
      Join(free, a, r, b, ptr, ptr + l);
      pos := a;
      free := Spliced(free, a, [r], b);
    }

    /**
     Add the pages `ptr .. ptr + l` to the list, leaving `pos` at the entry that now holds them.
     `cachesize` is what the walk believes the other entries hold: it still counts the `over`
     pages of a following entry that was swallowed as well.
     */
    method AddRun(ptr: nat, l: nat) returns (pos: nat, cachesize: nat, destroyed: bool, ghost over: nat)
      requires l > 0 && Canonical(free)
      requires forall i :: ptr <= i < ptr + l ==> !Covers(free, i)
      modifies this`free
      ensures !destroyed && Canonical(free)
      ensures forall i: nat {:trigger Covers(free, i)} ::
        Covers(free, i) <==> old(Covers(free, i)) || ptr <= i < ptr + l
      ensures Total(free) == old(Total(free)) + l
      ensures pos < |free| && In(free[pos], ptr)
      ensures cachesize <= old(Total(free)) && cachesize + free[pos].size == Total(free) + over
      ensures ptr + l <= free[pos].End()
      ensures over == if ptr > 0 && old(Covers(free, ptr - 1)) then free[pos].End() - (ptr + l) else 0
      ensures over > 0 <==> ptr > 0 && old(Covers(free, ptr - 1)) && old(Covers(free, ptr + l))
    {
      pos, cachesize, destroyed, over := 0, 0, false, 0;
      if free == [] {
        Join(free, 0, Run(ptr, l, PageDir(ptr)), 0, ptr, ptr + l);
        free := Spliced(free, 0, [Run(ptr, l, PageDir(ptr))], 0);
      } else {
        while ptr > free[pos].End() && pos + 1 < |free|
          invariant free == old(free) && pos < |free| && cachesize == Total(free[..pos])
          invariant pos > 0 ==> ptr > free[pos - 1].End()
          decreases |free| - pos
        {
          TotalStep(free, pos);
          cachesize := cachesize + free[pos].size;
          pos := pos + 1;
        }
        var pt := pos;
        while pt < |free|
          invariant free == old(free) && pos <= pt <= |free| && cachesize == Total(free[..pt])
        {
          TotalStep(free, pt);
          cachesize := cachesize + free[pt].size;
          pt := pt + 1;
        }
        assert free[..pt] == free;
        var merged;
        pos, merged, destroyed, over := Place(pos, ptr, l);
        EntryTotal(free, pos);
        cachesize := cachesize - merged;
      }
    }

    /** The first half of `malloc_pages`: `need` unmarked pages, off the free list or else at `region`. */
    method Obtain(need: nat, region: nat) returns (p: nat)
      requires dir.Valid() && guard <= 1 && Canonical(free) && Agree(dir.mark, dir.mapped, free, live, guard)
      requires need > 0 && PAGESHIFT <= region && forall i :: region <= i < region + need ==> i !in dir.mapped
      modifies this`free, dir`order, dir`cnt, dir`mapped, dir`lastDir, dir`prevDir
      ensures dir.Valid() && Canonical(free) && Total(free) <= old(Total(free))
      ensures FirstFit(old(free), need, p) || (NoFit(old(free), need) && p == region)
      ensures forall i {:trigger InLive(live, guard, i)} :: p <= i < p + need ==> !InLive(live, guard, i)
      ensures forall i: nat {:trigger Covers(free, i)} ::
        Covers(free, i) <==> old(Covers(free, i)) && !(p <= i < p + need)
      ensures forall i: nat {:trigger i in dir.mapped} :: i in dir.mapped <==> i in old(dir.mapped) || p <= i < p + need
    {
      var found, hole;
      found, p, hole := TakeFit(need);
      if !found {
        p := region;
        var count, reserved := dir.AddPages(p, need);
      }
      forall i {:trigger InLive(live, guard, i)} | p <= i < p + need
        ensures !InLive(live, guard, i)
      {
        FreshPage(dir.mark, old(dir.mapped), old(free), live, guard, i);
      }
    }

    /** `malloc_pages`: a run of `n` pages, from the free list or else from `mmap`, which would return `region`. */
    method MallocPages(n: nat, region: nat) returns (p: nat)
      requires Valid() && n > 0 && PAGESHIFT <= region
      requires forall i :: region <= i < region + n + guard ==> i !in dir.mapped
      modifies this, dir
      ensures Valid()
      ensures p !in old(live) && live == old(live)[p := n] && used == old(used) + n
      ensures FirstFit(old(free), n + guard, p) || (NoFit(old(free), n + guard) && p == region)
      ensures Total(free) <= old(Total(free))
      ensures forall i: nat {:trigger Covers(free, i)} ::
        Covers(free, i) <==> old(Covers(free, i)) && !(p <= i < p + n + guard)
      ensures At(dir.mark, p) == First && forall q {:trigger At(dir.mark, q)} ::
        q in old(live) ==> At(dir.mark, q) == old(At(dir.mark, q))
    {
      ghost var mark0, mapped0 := dir.mark, dir.mapped;
      p := Obtain(n + guard, region);
      dir.MarkRun(p, n, guard);
      AllocAgree(mark0, mapped0, old(free), live, guard, dir.mark, dir.mapped, free, p, n);
      SumWith(live, p, n);
      used := used + n;
      live := live[p := n];
    }

    /** Give the end of entry `pos` back to the system, keeping `keep` pages of it. */
    method Trim(pos: nat, keep: nat)
      requires dir.Valid() && guard <= 1 && Canonical(free) && Agree(dir.mark, dir.mapped, free, live, guard)
      requires pos < |free| && keep < free[pos].size && dir.lastDir == Some(free[pos].pdir)
      modifies this`free, dir
      ensures dir.Valid() && Canonical(free) && Agree(dir.mark, dir.mapped, free, live, guard)
      ensures Total(free) + old(free[pos].size) == old(Total(free)) + keep
      ensures var e := old(free[pos]);
        forall i: nat {:trigger Covers(free, i)} ::
          Covers(free, i) <==> old(Covers(free, i)) && !(e.page + keep <= i < e.End())
      ensures forall i: nat {:trigger At(dir.mark, i)} ::
          At(dir.mark, i) == old(At(dir.mark, i)) || old(At(dir.mark, i)) == Free
    {
      ghost var mark0, mapped0 := dir.mark, dir.mapped;
      var e := free[pos];
      var lo, hi := e.page + keep, e.End();
      EntryPages(dir.mark, dir.mapped, free, live, guard, pos);
      Release(e, lo, hi);
      var rest := if keep == 0 then [] else [e.(size := keep)];
      Carve(free, pos, rest, lo, hi);
      TrimAgree(mark0, mapped0, free, live, guard, dir.mark, dir.mapped, Spliced(free, pos, rest, pos + 1), lo, hi);
      free := Spliced(free, pos, rest, pos + 1);
    }

    /** The directory's share of `Trim`: unmap the pages and drop the caches that may dangle. */
    method Release(e: Run, lo: nat, hi: nat)
      requires dir.Valid() && Entry(e) && e.page <= lo < hi == e.End() && dir.lastDir == Some(e.pdir)
      requires forall i :: e.page <= i < hi ==> i in dir.mapped && At(dir.mark, i) == Free
      modifies dir
      ensures dir.Valid()
      ensures forall i: nat {:trigger i in dir.mapped} :: i in dir.mapped <==> i in old(dir.mapped) && !(lo <= i < hi)
      ensures forall i: nat {:trigger At(dir.mark, i)} ::
          At(dir.mark, i) == if lo <= i < hi then NotMine else old(At(dir.mark, i))
    {
      if dir.prevDir.Some? && dir.prevDir.value >= PageDir(lo) {
        dir.prevDir := None;
      }
      assert e.pdir in dir.order;
      dir.Unmap(PosOf(dir.order, e.pdir), lo, hi);
      if lo == e.page {
        dir.lastDir := dir.prevDir;
        dir.prevDir := None;
      } else {
        assert e.page in dir.mapped;
      }
    }

    /** The first half of `free_pages`: marks and list take over the pages of the run at `index`. */
    method Reclaim(index: nat) returns (pages: nat, pos: nat, cachesize: nat, destroyed: bool, ghost over: nat)
      requires dir.Valid() && guard <= 1 && Canonical(free) && Agree(dir.mark, dir.mapped, free, live, guard)
      requires At(dir.mark, index) == First && index in live
      modifies this`free, dir`mark
      ensures !destroyed && pages == live[index]
      ensures dir.Valid() && Canonical(free) && Agree(dir.mark, dir.mapped, free, live - {index}, guard)
      ensures Total(free) == old(Total(free)) + pages + guard
      ensures forall q {:trigger At(dir.mark, q)} ::
        q in live && q != index ==> At(dir.mark, q) == old(At(dir.mark, q)) && At(dir.mark, q) != Free
      ensures pos < |free| && In(free[pos], index)
      ensures cachesize <= old(Total(free)) && cachesize + free[pos].size == Total(free) + over
      ensures FreedAt(old(free), free, index, pages + guard, free[pos], over)
    {
      ghost var mark0, n := dir.mark, live[index];
      RunEnds(dir.mark, dir.mapped, free, live, guard, index);
      RunPages(dir.mark, dir.mapped, free, live, guard, index);
      OtherRuns(dir.mark, dir.mapped, free, live, guard, index);
      pages := dir.FreeRun(index, guard, n);
      pos, cachesize, destroyed, over := AddRun(index, pages + guard);
      EntryIsStretch(old(free), free, pos, index, index + pages + guard);
      FreeAgree(mark0, dir.mapped, old(free), live, guard, dir.mark, free, index);
    }

    /** The second half of `free_pages`: keep the front of entry `pos`, as much of it as the cache has room for. */
    method Settle(pos: nat, cachesize: nat) returns (ghost kept: nat)
      requires dir.Valid() && guard <= 1 && Canonical(free) && Agree(dir.mark, dir.mapped, free, live, guard)
      requires pos < |free| && cachesize <= cache
      modifies this`free, dir
      ensures dir.Valid() && Canonical(free) && Agree(dir.mark, dir.mapped, free, live, guard)
      ensures kept == if old(free[pos].size) > cache - cachesize then cache - cachesize else old(free[pos].size)
      ensures Shortened(old(free), free, pos, kept)
      ensures forall i: nat {:trigger At(dir.mark, i)} ::
          At(dir.mark, i) == old(At(dir.mark, i)) || old(At(dir.mark, i)) == Free
    {
      EntryPages(dir.mark, dir.mapped, free, live, guard, pos);
      dir.Touch(free[pos].pdir);
      kept := free[pos].size;
      if free[pos].size > cache - cachesize {
        kept := cache - cachesize;
        Trim(pos, cache - cachesize);
      }
    }

    /** `free_pages` behind its checks; a destroyed list would end it half way. */
    method Dispose(index: nat) returns (pages: nat, destroyed: bool, ghost e: Run, ghost over: nat, ghost kept: nat)
      requires dir.Valid() && guard <= 1 && Canonical(free) && Agree(dir.mark, dir.mapped, free, live, guard)
      requires Total(free) <= cache && At(dir.mark, index) == First && index in live
      modifies this`free, this`live, dir
      ensures !destroyed && pages == old(live)[index] && live == old(live) - {index}
      ensures dir.Valid() && Canonical(free) && Agree(dir.mark, dir.mapped, free, live, guard)
      ensures Total(free) + over <= cache
      ensures forall q {:trigger At(dir.mark, q)} :: q in live ==> At(dir.mark, q) == old(At(dir.mark, q))
      ensures Trimmed(old(free), free, index, old(live)[index] + guard, cache, e, over, kept)
    {
      var pos, cachesize;
      pages, pos, cachesize, destroyed, over := Reclaim(index);
      live := live - {index};
      e, kept := free[pos], 0;
      if !destroyed {
        ghost var added := free;
        kept := Settle(pos, cachesize);
        FreedThenTrimmed(old(free), added, free, index, pages + guard, cache, pos, over, kept);
      }
    }

    /**
     `free_pages`: the run at `index` becomes free, and what exceeds the cache goes back to the system.
     `e` is the entry it joins, `over` the size of a following free run swallowed together with a
     preceding one, and `kept` how many pages, from its front, are kept of the entry.
     */
    method FreePages(index: nat) returns (r: FreeResult, ghost e: Run, ghost over: nat, ghost kept: nat)
      requires Valid()
      requires At(dir.mark, index) == First ==> index in live
      modifies this, dir
      ensures Valid()
      ensures r == match old(At(dir.mark, index))
                   case Free => AlreadyFree
                   case First => Freed
                   case _ => WrongPage
      ensures r != Freed ==> free == old(free) && live == old(live) && used == old(used)
      ensures r != Freed ==> dir.mark == old(dir.mark) && dir.mapped == old(dir.mapped)
      ensures r == Freed ==> live == old(live) - {index} && used + old(live)[index] == old(used)
      ensures forall q {:trigger At(dir.mark, q)} :: q in live ==> At(dir.mark, q) == old(At(dir.mark, q))
      ensures r == Freed ==> Trimmed(old(free), free, index, old(live)[index] + guard, cache, e, over, kept)
    {
      over, kept, e := 0, 0, Run(0, 0, 0);
      var info := At(dir.mark, index);
      if info == Free {
        return AlreadyFree, e, 0, 0;
      }
      if info != First {
        return WrongPage, e, 0, 0;
      }
      SumWithout(live, index);
      var pages, destroyed;
      pages, destroyed, e, over, kept := Dispose(index);
      used := used - pages;
      r := if destroyed then Corrupt else Freed;
    }

    /** The mark of a page that some directory covers. */
    method Inspect(p: nat) returns (m: Mark)
      requires Valid() && PageDir(p) in dir.cnt
      modifies dir`lastDir, dir`prevDir
      ensures Valid() && m == At(dir.mark, p)
    {
      var k, r := dir.Lookup(p);
      FloorExact(dir.order, dir.cnt, k, PageDir(p));
      dir.Touch(PageDir(p));
      m := dir.Get(k, p);
    }

    /** Record that the one-page run at `p` is (or, with FIRST, is no longer) a page of chunks. */
    method Relabel(p: nat, m: Mark)
      requires Valid() && p in live && live[p] == 1 && (m == First || m == Chunk)
      modifies dir`mark, dir`lastDir, dir`prevDir
      ensures Valid()
      ensures forall i: nat {:trigger At(dir.mark, i)} :: At(dir.mark, i) == if i == p then m else old(At(dir.mark, i))
    {
      LivePage(dir.mark, dir.mapped, free, live, guard, p, p);
      ghost var mark0 := dir.mark;
      var k := dir.Find(p);
      dir.Touch(PageDir(p));
      dir.Put(k, p, m);
      OwnedMarks(mark0, dir.mark, dir.mapped, p, p + 1);
      RelabelAgree(mark0, dir.mapped, free, live, guard, dir.mark, p, m);
    }
  }

  /** It happens: with a cache of one page, two pages freed one after the other, apart from each other. */
  method NothingKept() returns (a: PageAllocator, ghost e: Run)
    ensures fresh(a) && a.Valid() && a.cache == 1 && a.live == map[]
    ensures e.page == 200 && e.size == 1 && !Covers(a.free, 200) && Covers(a.free, 100)
  {
    a := new PageAllocator(false, 1);
    assert !Covers(a.free, 100) && !InLive(a.live, 0, 100);
    var p := a.MallocPages(1, 100);
    assert !Covers(a.free, 200) && !InLive(a.live, 0, 200);
    var q := a.MallocPages(1, 200);
    var r;
    ghost var over, kept;
    ghost var before := a.free;
    assert !Covers(before, 101);
    r, e, over, kept := a.FreePages(100);
    assert e.page == 100 && e.size == 1;
    before := a.free;
    assert Total(before) == 1 && Covers(before, 100) && !Covers(before, 199) && !Covers(before, 201);
    r, e, over, kept := a.FreePages(200);
    NothingKeptIff(before, a.free, 200, 1, 1, e, over, kept);
    assert Covers(a.free, 100);
  }
}
