/**
 The page directory: which pages the allocator owns and what each one holds.

 Pages are named by their index (address / page size + PAGESHIFT).  Directory page
 number `d` holds the marks of the SPAN pages `d * SPAN .. (d + 1) * SPAN`.  The
 directory pages are linked in increasing order of number (`order`), each counts its
 resident pages, and two of them are cached.  Slot `o` of directory `d` is the mark of
 page `d * SPAN + o`.
 */
module PageDirectories {
  import opened Prelude

  /** log2 of the page size; also the number of slots of directory 0 used as bucket heads. */
  const PAGESHIFT: nat := 12

  /** Marks that fit in one directory page beside its own list node. */
  const SPAN: nat := 508

  function PageDir(i: nat): nat { i / 508 }

  function PageOff(i: nat): (o: nat)
    ensures o < SPAN
  {
    i % 508
  }

  lemma PageStep(i: nat)
    ensures i == PageDir(i) * SPAN + PageOff(i)
    ensures PageOff(i + 1) == 0 ==> PageDir(i + 1) == PageDir(i) + 1
    ensures PageOff(i + 1) != 0 ==> PageDir(i + 1) == PageDir(i) && PageOff(i + 1) == PageOff(i) + 1
  {
  }

  datatype Mark = NotMine | Free | First | Follow | Chunk

  // ------------------------------------------------------------ marks

  /** The mark of page `i`; what no directory has recorded is not ours. */
  function At(mark: map<nat, Mark>, i: nat): Mark {
    if i in mark then mark[i] else NotMine
  }

  /** The mark behind `pd[off]` when `pd` is the base of directory `num`. */
  function Slot(num: nat, off: nat): nat { num * 508 + off }

  // ------------------------------------------------------------ the list of directories

  ghost predicate Linked(order: seq<nat>, cnt: map<nat, nat>) {
    && |order| > 0 && order[0] == 0
    && (forall j, k :: 0 <= j < k < |order| ==> order[j] < order[k])
    && (forall d {:trigger d in order} :: d in cnt <==> d in order)
  }

  /** Crossing into the next directory page: `pi = pi->next` lands on the right one. */
  lemma NextDir(order: seq<nat>, cnt: map<nat, nat>, k: nat)
    requires Linked(order, cnt) && k < |order| && order[k] + 1 in cnt
    ensures k + 1 < |order| && order[k + 1] == order[k] + 1
  {
    assert order[k] + 1 in order;
    var j :| 0 <= j < |order| && order[j] == order[k] + 1;
    assert k < j;
  }

  /** The position of the greatest directory not above `num`. */
  ghost predicate IsFloor(order: seq<nat>, k: nat, num: nat) {
    k < |order| && order[k] <= num && (k + 1 < |order| ==> num < order[k + 1])
  }

  lemma FloorExact(order: seq<nat>, cnt: map<nat, nat>, k: nat, num: nat)
    requires Linked(order, cnt) && IsFloor(order, k, num)
    ensures num in cnt <==> order[k] == num
  {
    assert order[k] in order;
    if num in order {
      var j :| 0 <= j < |order| && order[j] == num;
      assert j <= k || k + 1 <= j;
    }
  }

  lemma LinkAfter(order: seq<nat>, cnt: map<nat, nat>, s: nat, num: nat, c: nat)
    requires Linked(order, cnt) && IsFloor(order, s, num) && order[s] != num
    ensures Linked(order[..s + 1] + [num] + order[s + 1..], cnt[num := c])
    ensures num !in cnt
  {
    FloorExact(order, cnt, s, num);
    var order' := order[..s + 1] + [num] + order[s + 1..];
    assert forall k ::
      0 <= k < |order'| ==> order'[k] == if k <= s then order[k] else if k == s + 1 then num else order[k - 1];
    forall j, k | 0 <= j < k < |order'|
      ensures order'[j] < order'[k]
    {
      if j == s + 1 {
        assert s + 1 == k - 1 || order[s + 1] < order[k - 1];
      } else if k == s + 1 {
        assert j == s || order[j] < order[s];
      }
    }
    forall d {:trigger d in order'}
      ensures d in cnt[num := c] <==> d in order'
    {
      assert d in order' <==> d in order || d == num;
    }
  }

  lemma Unlink(order: seq<nat>, cnt: map<nat, nat>, k: nat)
    requires Linked(order, cnt) && 0 < k < |order|
    ensures Linked(order[..k] + order[k + 1..], cnt - {order[k]})
  {
    var order' := order[..k] + order[k + 1..];
    assert forall j :: 0 <= j < |order'| ==> order'[j] == order[if j < k then j else j + 1];
    forall d {:trigger d in order'}
      ensures d in cnt - {order[k]} <==> d in order'
    {
      if d in order && d != order[k] {
        var j :| 0 <= j < |order| && order[j] == d;
        assert order'[if j < k then j else j - 1] == d;
      }
    }
  }

  // ------------------------------------------------------------ residency counts

  /** The pages of `mapped` that belong to directory `num`. */
  ghost function Pages(mapped: set<nat>, num: nat): set<nat> {
    set i | i in mapped && PageDir(i) == num
  }

  /** How many slots of directory `num` are taken: its resident pages, and the bucket heads in directory 0. */
  ghost function Resident(mapped: set<nat>, num: nat): nat {
    |Pages(mapped, num)| + if num == 0 then PAGESHIFT else 0
  }

  lemma AddResident(mapped: set<nat>, more: set<nat>, num: nat, n: nat)
    requires mapped !! more
    requires forall i :: i in more ==> PageDir(i) == num
    ensures Resident(mapped + more, n) == Resident(mapped, n) + if n == num then |more| else 0
  {
    if n == num {
      assert Pages(mapped + more, n) == Pages(mapped, n) + more;
    } else {
      assert Pages(mapped + more, n) == Pages(mapped, n);
    }
  }

  lemma DropResident(mapped: set<nat>, i: nat, n: nat)
    requires i in mapped
    ensures Resident(mapped, n) == Resident(mapped - {i}, n) + if n == PageDir(i) then 1 else 0
  {
    assert mapped == (mapped - {i}) + {i};
    AddResident(mapped - {i}, {i}, PageDir(i), n);
  }

  /** The count fits the low half of `dirnum`, so the packed word decodes to both halves. */
  lemma DirnumDecodes(mapped: set<nat>, num: nat)
    requires forall i :: i in mapped ==> PAGESHIFT <= i
    ensures Resident(mapped, num) <= SPAN
    ensures (num * 512 + Resident(mapped, num)) / 512 == num
    ensures (num * 512 + Resident(mapped, num)) % 512 == Resident(mapped, num)
  {
    var lo := if num == 0 then PAGESHIFT else num * SPAN;
    SubsetSize(Pages(mapped, num), Interval(lo, num * SPAN + SPAN));
  }

  ghost predicate Counted(cnt: map<nat, nat>, mapped: set<nat>) {
    forall d {:trigger Resident(mapped, d)} :: d in cnt ==> cnt[d] == Resident(mapped, d)
  }

  ghost predicate Housed(cnt: map<nat, nat>, mapped: set<nat>) {
    forall i :: i in mapped ==> PAGESHIFT <= i && PageDir(i) in cnt
  }

  /** The directory list fits the resident pages; a directory may be left without any. */
  ghost predicate Dirs(order: seq<nat>, cnt: map<nat, nat>, mapped: set<nat>) {
    Linked(order, cnt) && Counted(cnt, mapped) && Housed(cnt, mapped)
  }

  lemma DirsInsert(order: seq<nat>, cnt: map<nat, nat>, mapped: set<nat>, s: nat, num: nat)
    requires Dirs(order, cnt, mapped) && IsFloor(order, s, num) && order[s] != num
    ensures Dirs(order[..s + 1] + [num] + order[s + 1..], cnt[num := 0], mapped)
    ensures num !in cnt
  {
    LinkAfter(order, cnt, s, num, 0);
    assert Pages(mapped, num) == {};
  }

  lemma DirsGrow(order: seq<nat>, cnt: map<nat, nat>, mapped: set<nat>, num: nat, more: set<nat>)
    requires Dirs(order, cnt, mapped) && num in cnt && mapped !! more
    requires forall i :: i in more ==> PAGESHIFT <= i && PageDir(i) == num
    ensures Dirs(order, cnt[num := cnt[num] + |more|], mapped + more)
  {
    forall d {:trigger Resident(mapped + more, d)} | d in cnt
      ensures Resident(mapped + more, d) == cnt[d] + if d == num then |more| else 0
    {
      AddResident(mapped, more, num, d);
    }
  }

  lemma DirsDrop(order: seq<nat>, cnt: map<nat, nat>, mapped: set<nat>, i: nat)
    requires Dirs(order, cnt, mapped) && i in mapped
    ensures PageDir(i) in cnt && cnt[PageDir(i)] > 0
    ensures Dirs(order, cnt[PageDir(i) := cnt[PageDir(i)] - 1], mapped - {i})
  {
    DropResident(mapped, i, PageDir(i));
    var cnt' := cnt[PageDir(i) := cnt[PageDir(i)] - 1];
    forall d {:trigger Resident(mapped - {i}, d)} | d in cnt'
      ensures Resident(mapped - {i}, d) == cnt'[d]
    {
      DropResident(mapped, i, d);
    }
  }

  lemma DirsRemove(order: seq<nat>, cnt: map<nat, nat>, mapped: set<nat>, k: nat)
    requires Dirs(order, cnt, mapped) && k < |order| && order[k] in cnt && cnt[order[k]] == 0
    ensures 0 < k && Dirs(order[..k] + order[k + 1..], cnt - {order[k]}, mapped)
    ensures forall i :: i in mapped ==> PageDir(i) != order[k]
  {
    var num := order[k];
    assert cnt[num] == Resident(mapped, num);
    assert Pages(mapped, num) == {};
    assert forall i :: i in mapped ==> i in Pages(mapped, PageDir(i));
    Unlink(order, cnt, k);
  }

  /** The part of the run `index .. index + n` that lies in directory `num`, and its size. */
  lemma Slice(index: nat, n: nat, num: nat) returns (part: set<nat>)
    requires 0 < n && PageDir(index) <= num <= PageDir(index + n - 1)
    ensures forall i :: i in part <==> index <= i < index + n && PageDir(i) == num
    ensures |part| ==
            if num == PageDir(index) then
              if num == PageDir(index + n - 1) then n else SPAN - PageOff(index)
            else if num == PageDir(index + n - 1) then PageOff(index + n - 1) + 1 else SPAN
    ensures |part| > 0
  {
    part := Interval(if num == PageDir(index) then index else num * SPAN,
                     if num == PageDir(index + n - 1) then index + n else num * SPAN + SPAN);
  }

  ghost predicate Owned(mark: map<nat, Mark>, mapped: set<nat>) {
    forall i :: i in mark && mark[i] != NotMine ==> i in mapped
  }

  lemma OwnedMarks(mark: map<nat, Mark>, mark': map<nat, Mark>, mapped: set<nat>, lo: nat, hi: nat)
    requires Owned(mark, mapped) && forall i :: lo <= i < hi ==> i in mapped
    requires forall i: nat {:trigger At(mark', i)} :: !(lo <= i < hi) ==> At(mark', i) == At(mark, i)
    ensures Owned(mark', mapped)
  {
    forall i | i in mark' && mark'[i] != NotMine
      ensures i in mapped
    {
      assert At(mark', i) != NotMine;
    }
  }

  lemma OwnedLess(mark: map<nat, Mark>, mark': map<nat, Mark>, mapped: set<nat>, p: nat)
    requires Owned(mark, mapped)
    requires forall i: nat {:trigger At(mark', i)} :: At(mark', i) == if i == p then NotMine else At(mark, i)
    ensures Owned(mark', mapped - {p})
  {
    forall i | i in mark' && mark'[i] != NotMine
      ensures i in mapped - {p}
    {
      assert At(mark', i) != NotMine;
    }
  }

  ghost predicate Busy(cnt: map<nat, nat>) {
    forall d :: d in cnt ==> cnt[d] > 0
  }

  // ------------------------------------------------------------ lookup

  /** `unsigned long` subtraction. */
  function WrapSub(a: nat, b: nat): nat {
    (a - b) % 0x1_0000_0000_0000_0000
  }

  /** The test meant to pick the nearer cache, grouped as C groups its two conditional operators. */
  predicate PrefersLast(last: nat, prev: nat, target: nat) {
    (if last > target then last - target
     else if target - last < (if prev > target then 1 else 0) then WrapSub(prev, target)
     else WrapSub(target, prev)) != 0
  }

  /** Grouped that way the test never prefers the older cache. */
  lemma NearerCacheTestIsConstant(last: nat, prev: nat, target: nat)
    requires last != target && prev != target
    requires prev < 0x1_0000_0000_0000_0000 && target < 0x1_0000_0000_0000_0000
    ensures PrefersLast(last, prev, target)
  {
    assert target > prev ==> WrapSub(target, prev) == target - prev;
    assert target < prev ==> WrapSub(target, prev) == target - prev + 0x1_0000_0000_0000_0000;
  }

  function Distance(a: nat, b: nat): nat { if a > b then a - b else b - a }

  /** The cache that the walk starts from is the nearer one (or as near) exactly when the last one happens to be. */
  lemma StartsNearestIff(last: nat, prev: nat, target: nat)
    requires last != target && prev != target
    requires prev < 0x1_0000_0000_0000_0000 && target < 0x1_0000_0000_0000_0000
    ensures var start := if PrefersLast(last, prev, target) then last else prev;
      (Distance(start, target) <= Distance(last, target) && Distance(start, target) <= Distance(prev, target)) <==>
      Distance(last, target) <= Distance(prev, target)
  {
    NearerCacheTestIsConstant(last, prev, target);
  }

  /** For directory 6, with 100 and 5 in the caches, it starts from 100. */
  lemma StartsFarther()
    ensures PrefersLast(100, 5, 6) && Distance(5, 6) < Distance(100, 6)
  {
  }

  /** Where a directory stands in the list (dereferencing a pointer to it). */
  function PosOf(order: seq<nat>, num: nat): (k: nat)
    requires num in order
    ensures k < |order| && order[k] == num
  {
    if order[0] == num then 0 else 1 + PosOf(order[1..], num)
  }

  class PageDirectory {
    var order: seq<nat>
    var cnt: map<nat, nat>
    var mark: map<nat, Mark>
    var lastDir: Option<nat>
    var prevDir: Option<nat>
    /** The pages currently obtained from the system. */
    ghost var mapped: set<nat>

    ghost predicate Valid()
      reads this
    {
      && Dirs(order, cnt, mapped) && Busy(cnt) && Owned(mark, mapped)
      && (lastDir.Some? ==> lastDir.value in cnt)
      && (prevDir.Some? ==> prevDir.value in cnt)
    }

    constructor ()
      ensures Valid() && mapped == {} && mark == map[]
    {
      order, cnt, mark := [0], map[0 := PAGESHIFT], map[];
      lastDir, prevDir := Some(0), None;
      mapped := {};
      new;
      assert Pages({}, 0) == {};
    }

    /** `pdir_lookup` */
    method Lookup(index: nat) returns (k: nat, r: int)
      requires Valid()
      ensures IsFloor(order, k, PageDir(index))
      ensures r == if PageDir(index) in cnt then 0 else -1
    {
      var target := PageDir(index);
      if lastDir.Some? && lastDir.value == target {
        k := PosOf(order, target);
      } else if prevDir.Some? && prevDir.value == target {
        k := PosOf(order, target);
      } else if lastDir.Some? && prevDir.Some? {
        k := PosOf(order, if PrefersLast(lastDir.value, prevDir.value, target) then lastDir.value else prevDir.value);
        if order[k] > target {
          var s: int := k - 1;
          while s >= 0 && order[s] > target
            invariant -1 <= s == k - 1 && k < |order| && order[k] > target
          {
            k := s;
            s := s - 1;
          }
          if s >= 0 {
            k := s;
          }
        } else {
          k := WalkForward(k, target);
        }
      } else {
        k := WalkForward(0, target);
      }
      FloorExact(order, cnt, k, target);
      r := if order[k] == target then 0 else if order[k] > target then 1 else -1;
    }

    /** Follow `next` from a directory at or below the target. */
    method WalkForward(start: nat, target: nat) returns (k: nat)
      requires Linked(order, cnt) && start < |order| && order[start] <= target
      ensures IsFloor(order, k, target)
    {
      k := start;
      var s := k + 1;
      while s < |order| && order[s] <= target
        invariant s == k + 1 <= |order| && order[k] <= target
      {
        k := s;
        s := s + 1;
      }
    }

    /** The caches after a directory has been used. */
    method Touch(num: nat)
      requires num in cnt && (lastDir.Some? ==> lastDir.value in cnt) && (prevDir.Some? ==> prevDir.value in cnt)
      modifies this`lastDir, this`prevDir
      ensures lastDir == Some(num) && (prevDir.Some? ==> prevDir.value in cnt)
    {
      if lastDir != Some(num) {
        prevDir := lastDir;
        lastDir := Some(num);
      }
    }

    /** One round of `map_pages`: make sure directory `num` exists and account for `more` in it. */
    method House(spi: nat, pi: nat, num: nat, add: nat, ghost more: set<nat>) returns (p: nat, linked: bool)
      requires Dirs(order, cnt, mapped) && spi < |order| && pi <= |order|
      requires (pi < |order| && order[pi] == num) || (IsFloor(order, spi, num) && order[spi] != num)
      requires add == |more| && mapped !! more
      requires forall i :: i in more ==> PAGESHIFT <= i && PageDir(i) == num
      modifies this`order, this`cnt, this`mapped
      ensures Dirs(order, cnt, mapped) && mapped == old(mapped) + more
      ensures p < |order| && order[p] == num
      ensures num in cnt && cnt[num] >= add && forall d ::
        d in cnt && d != num ==> d in old(cnt) && cnt[d] == old(cnt[d])
      ensures forall d :: d in old(cnt) ==> d in cnt
      ensures linked <==> !(pi < |old(order)| && old(order)[pi] == num)
      ensures |order| == |old(order)| + if linked then 1 else 0
    {
      p, linked := pi, false;
      if pi == |order| || order[pi] != num {
        DirsInsert(order, cnt, mapped, spi, num);
        order := order[..spi + 1] + [num] + order[spi + 1..];
        cnt := cnt[num := 0];
        p, linked := spi + 1, true;
      }
      assert order[p] in order;
      DirsGrow(order, cnt, mapped, num, more);
      cnt := cnt[num := cnt[num] + add];
      mapped := mapped + more;
    }

    /** `map_pages`: directories for `n` fresh pages at `index`, with `used` of the `reserved` new directory pages. */
    method AddPages(index: nat, n: nat) returns (used: nat, reserved: nat)
      requires Valid() && PAGESHIFT <= index && 0 < n
      requires forall i :: index <= i < index + n ==> i !in mapped
      modifies this`order, this`cnt, this`mapped, this`lastDir, this`prevDir
      ensures Valid() && forall i :: i in mapped <==> i in old(mapped) || index <= i < index + n
      ensures |order| == |old(order)| + used && used <= reserved
      ensures reserved == PageDir(index + n - 1) - PageDir(index) + if PageDir(index) in old(cnt) then 0 else 1
    {
      var first, last := PageDir(index), PageDir(index + n - 1);
      var pi, r := Lookup(index);
      reserved := last - first + if r != 0 then 1 else 0;
      used := 0;
      FloorExact(order, cnt, pi, first);
      var spi: nat, num: nat := pi, first;
      while num <= last
        invariant first <= num <= last + 1
        invariant Dirs(order, cnt, mapped) && Busy(cnt)
        invariant (lastDir.Some? ==> lastDir.value in cnt) && (prevDir.Some? ==> prevDir.value in cnt)
        invariant forall i {:trigger i in mapped} ::
          i in mapped <==> i in old(mapped) || (index <= i < index + n && PageDir(i) < num)
        invariant spi < |order| && |order| == |old(order)| + used
        invariant num == first ==> used == 0 && spi == pi && IsFloor(order, pi, num) && (r == 0 <==> order[pi] == num)
        invariant num > first ==>
            used < num - first + (if r != 0 then 1 else 0) && pi == spi + 1 && order[spi] == num - 1
      {
        var add := if first < num < last then SPAN
                   else if num == first then if first == last then n else SPAN - PageOff(index)
                   else PageOff(index + n - 1) + 1;
        ghost var part := Slice(index, n, num);
        var p, linked := House(spi, pi, num, add, part);
        used := used + if linked then 1 else 0;
        if num == first {
          Touch(first);
        }
        spi := p;
        pi := spi + 1;
        num := num + 1;
      }
      assert forall i :: i in old(mapped) ==> i in mapped;
    }

    /** The directory position for page `i`, coming from the one for page `i - 1`: `pi` moves on at offset 0. */
    method Cross(k: nat, i: nat) returns (k': nat)
      requires Linked(order, cnt) && 0 < i && k < |order| && order[k] == PageDir(i - 1) && PageDir(i) in cnt
      ensures k' < |order| && order[k'] == PageDir(i)
    {
      PageStep(i - 1);
      k' := k;
      if PageOff(i) == 0 {
        NextDir(order, cnt, k);
        k' := k + 1;
      }
    }

    /** As `Cross`, but -1 (a null `pi`) when page `i` has no directory. */
    method Advance(k: nat, i: nat) returns (k': int)
      requires Linked(order, cnt) && 0 < i && k < |order| && order[k] == PageDir(i - 1)
      ensures k' == -1 <==> PageDir(i) !in cnt
      ensures k' != -1 ==> 0 <= k' < |order| && order[k'] == PageDir(i)
    {
      PageStep(i - 1);
      assert order[k] in order;
      k' := k;
      if PageOff(i) == 0 {
        k' := k + 1;
        if k' == |order| || order[k'] != PageDir(i) {
          FloorExact(order, cnt, k, PageDir(i));
          k' := -1;
        } else {
          assert order[k'] in order;
        }
      }
    }

    /** `pd[PI_OFF(i)] = m` through the directory at position `k`. */
    method Put(k: nat, i: nat, m: Mark)
      requires k < |order| && order[k] == PageDir(i)
      modifies this`mark
      ensures forall j: nat {:trigger At(mark, j)} :: At(mark, j) == if j == i then m else old(At(mark, j))
    {
      PageStep(i);
      mark := mark[Slot(order[k], PageOff(i)) := m];
    }

    /** `pd[PI_OFF(i)]` through the directory at position `k`. */
    method Get(k: nat, i: nat) returns (m: Mark)
      requires k < |order| && order[k] == PageDir(i)
      ensures m == At(mark, i)
    {
      PageStep(i);
      m := At(mark, Slot(order[k], PageOff(i)));
    }

    /** The directory of a page that has one. */
    method Find(i: nat) returns (k: nat)
      requires Valid() && i in mapped
      ensures k < |order| && order[k] == PageDir(i)
    {
      var r;
      k, r := Lookup(i);
      FloorExact(order, cnt, k, PageDir(i));
    }

    /** `malloc_pages`: mark `n` pages at `index` as one run, and the guard page behind it as another. */
    method MarkRun(index: nat, n: nat, guard: nat)
      requires Valid() && 0 < n && guard <= 1
      requires forall i :: index <= i < index + n + guard ==> i in mapped
      modifies this`mark, this`lastDir, this`prevDir
      ensures Valid()
      ensures forall i: nat {:trigger At(mark, i)} ::
                At(mark, i) == if i == index || (i == index + n && guard == 1) then First
                               else if index < i < index + n then Follow else old(At(mark, i))
    {
      var k := Find(index);
      Touch(PageDir(index));
      Put(k, index, First);
      var i := 1;
      while i < n
        invariant 1 <= i <= n && 0 <= k < |order| && order[k] == PageDir(index + i - 1)
        invariant forall j: nat {:trigger At(mark, j)} ::
                    At(mark, j) ==
                      if j == index then First else if index < j < index + i then Follow else old(At(mark, j))
        modifies this`mark
      {
        assert index + i in mapped;
        k := Cross(k, index + i);
        Put(k, index + i, Follow);
        i := i + 1;
      }
      if guard == 1 {
        assert index + n in mapped;
        k := Cross(k, index + n);
        Put(k, index + n, First);
      }
      OwnedMarks(old(mark), mark, mapped, index, index + n + guard);
    }

    /** `free_pages`: turn the run at `index`, whose length the marks alone reveal, into free pages. */
    method FreeRun(index: nat, guard: nat, ghost len: nat) returns (n: nat)
      requires Valid() && guard <= 1 && 0 < len
      requires forall i :: index <= i < index + len + guard ==> i in mapped
      requires forall i :: index < i < index + len ==> At(mark, i) == Follow
      requires At(mark, index + len) != Follow
      modifies this`mark
      ensures Valid() && n == len
      ensures forall i: nat {:trigger At(mark, i)} ::
                At(mark, i) == if index <= i < index + len + guard then Free else old(At(mark, i))
    {
      var start := Find(index);
      Put(start, index, Free);
      var k;
      n, k := FreeFollows(index, start, len);
      assert n < len ==> index + n in mapped;
      if guard == 1 {
        assert index + n in mapped;
        Put(k, index + n, Free);
      }
      OwnedMarks(old(mark), mark, mapped, index, index + len + guard);
    }

    /** The walk over the FOLLOW pages behind a page already freed; `k` is where the directory of its end is, if any. */
    method FreeFollows(index: nat, start: nat, ghost len: nat) returns (n: nat, k: int)
      requires Linked(order, cnt) && start < |order| && order[start] == PageDir(index) && 0 < len
      requires forall i :: index < i < index + len ==> At(mark, i) == Follow
      requires At(mark, index) == Free && At(mark, index + len) != Follow
      modifies this`mark
      ensures 1 <= n <= len && (n < len ==> PageDir(index + n) !in cnt)
      ensures k == -1 <==> PageDir(index + n) !in cnt
      ensures k != -1 ==> 0 <= k < |order| && order[k] == PageDir(index + n)
      ensures forall i: nat {:trigger At(mark, i)} ::
        At(mark, i) == if index <= i < index + n then Free else old(At(mark, i))
    {
      n := 1;
      k := Advance(start, index + 1);
      var more := false;
      if k != -1 {
        var m := Get(k, index + n);
        more := m == Follow;
      }
      while more
        invariant 1 <= n <= len
        invariant k == -1 <==> PageDir(index + n) !in cnt
        invariant k != -1 ==> 0 <= k < |order| && order[k] == PageDir(index + n)
        invariant more <==> k != -1 && At(mark, index + n) == Follow
        invariant forall i: nat {:trigger At(mark, i)} ::
            At(mark, i) == if index <= i < index + n then Free else old(At(mark, i))
        decreases len - n
      {
        Put(k, index + n, Free);
        n := n + 1;
        k := Advance(k, index + n);
        more := false;
        if k != -1 {
          var m := Get(k, index + n);
          more := m == Follow;
        }
      }
    }

    /** Unlink the directory at `k`, which counts no page, and give its page back. */
    method DropDir(k: nat)
      requires Dirs(order, cnt, mapped) && Owned(mark, mapped) && k < |order| && order[k] in cnt && cnt[order[k]] == 0
      modifies this`order, this`cnt, this`mark
      ensures Dirs(order, cnt, mapped) && Owned(mark, mapped) && 0 < k
      ensures order == old(order[..k] + order[k + 1..]) && cnt == old(cnt - {order[k]})
      ensures forall i: nat {:trigger At(mark, i)} :: At(mark, i) == old(At(mark, i))
    {
      var num := order[k];
      DirsRemove(order, cnt, mapped, k);
      order := order[..k] + order[k + 1..];
      cnt := cnt - {num};
      mark := map i | i in mark && PageDir(i) != num :: mark[i];
    }

    /** Give page `i` back, and its directory if that leaves it empty and the walk moves on. */
    method Release(k: nat, i: nat) returns (k': nat)
      requires Dirs(order, cnt, mapped) && Owned(mark, mapped) && k < |order| && order[k] == PageDir(i)
      requires i in mapped && At(mark, i) != NotMine
      requires forall d :: d in cnt && d != order[k] ==> cnt[d] > 0
      modifies this`order, this`cnt, this`mark, this`mapped
      ensures Dirs(order, cnt, mapped) && Owned(mark, mapped) && mapped == old(mapped) - {i}
      ensures forall j: nat {:trigger At(mark, j)} :: At(mark, j) == if j == i then NotMine else old(At(mark, j))
      ensures k' <= |order| && (PageDir(i + 1) in cnt ==> k' < |order| && order[k'] == PageDir(i + 1))
      ensures k' < |order| ==> PageDir(i) <= order[k']
      ensures forall d :: d in cnt ==> cnt[d] > 0 || (k' < |order| && d == order[k'])
      ensures forall d :: d in old(cnt) && d != PageDir(i) ==> d in cnt
    {
      k' := k;
      PageStep(i);
      assert order[k] in order;
      var m := Get(k, i);
      if m != NotMine {
        DirsDrop(order, cnt, mapped, i);
        Put(k, i, NotMine);
        cnt := cnt[order[k] := cnt[order[k]] - 1];
        mapped := mapped - {i};
        OwnedLess(old(mark), mark, old(mapped), i);
      }
      if PageOff(i + 1) == 0 {
        if PageDir(i + 1) in cnt {
          NextDir(order, cnt, k);
        }
        if cnt[order[k]] == 0 {
          DropDir(k);
        } else {
          k' := k + 1;
        }
      }
    }

    /**
     `free_pages`: give the pages `lo .. hi` back to the system, and every directory they leave empty.
     The walk never runs out of directories before `hi`, so the early exit of the original loop changes nothing.
     */
    method Unmap(start: nat, lo: nat, hi: nat)
      requires Dirs(order, cnt, mapped) && Owned(mark, mapped) && Busy(cnt)
      requires lo < hi && start < |order| && order[start] <= PageDir(lo)
      requires forall i :: lo <= i < hi ==> i in mapped && At(mark, i) != NotMine
      modifies this`order, this`cnt, this`mark, this`mapped
      ensures Dirs(order, cnt, mapped) && Owned(mark, mapped) && Busy(cnt)
      ensures forall i: nat {:trigger i in mapped} :: i in mapped <==> i in old(mapped) && !(lo <= i < hi)
      ensures forall i: nat {:trigger At(mark, i)} :: At(mark, i) == if lo <= i < hi then NotMine else old(At(mark, i))
      ensures forall d :: d in old(cnt) && d < PageDir(lo) ==> d in cnt
    {
      assert lo in mapped;
      var k := WalkForward(start, PageDir(lo));
      FloorExact(order, cnt, k, PageDir(lo));
      var i := lo;
      while i < hi
        invariant lo <= i <= hi && 0 <= k <= |order| && Dirs(order, cnt, mapped) && Owned(mark, mapped)
        invariant i < hi ==> k < |order| && order[k] == PageDir(i)
        invariant forall d :: d in cnt && (k == |order| || d != order[k]) ==> cnt[d] > 0
        invariant forall j: nat {:trigger j in mapped} :: j in mapped <==> j in old(mapped) && !(lo <= j < i)
        invariant forall j: nat {:trigger At(mark, j)} ::
            At(mark, j) == if lo <= j < i then NotMine else old(At(mark, j))
        invariant forall d :: d in old(cnt) && d < PageDir(lo) ==> d in cnt
        invariant k < |order| ==> PageDir(lo) <= order[k]
      {
        PageStep(i);
        assert i + 1 < hi ==> i + 1 in mapped;
        k := Release(k, i);
        i := i + 1;
      }
      assert k < |order| ==> order[k] in order;
      if k < |order| && cnt[order[k]] == 0 {
        DropDir(k);
      }
    }
  }
}
