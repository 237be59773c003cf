/**
 The allocator as its callers see it: blocks of bytes, cut from pages of chunks or made of
 whole pages.
 */
module Mallocs {
  import opened Prelude
  import opened PageDirectories
  import opened PageAllocators
  import opened ChunkPages

  // ------------------------------------------------------------ the queue of pages with room

  /** The insertion meant to keep a bucket's queue in address order. */
  method Enqueue(list: seq<nat>, page: nat) returns (list': seq<nat>)
    ensures list' == Inserted(list, page, 0)
    ensures forall p :: p in list' <==> p in list || p == page
    ensures NoDup(list) && page !in list ==> NoDup(list')
  {
    InsertedMembers(list, page, 0);
    var mp := 0;
    while mp < |list| && mp + 1 < |list| && list[mp + 1] < page
      invariant mp == 0 || mp < |list|
      invariant Inserted(list, page, mp) == Inserted(list, page, 0)
    {
      mp := mp + 1;
    }
    list' := list[..mp] + [page] + list[mp..];
  }

  /** What inserting `page` from position `mp` on gives. */
  function Inserted(list: seq<nat>, page: nat, mp: nat): seq<nat>
    requires mp <= |list|
    decreases |list| - mp
  {
    if mp + 1 < |list| && list[mp + 1] < page then Inserted(list, page, mp + 1)
    else list[..mp] + [page] + list[mp..]
  }

  lemma {:induction false} InsertedMembers(list: seq<nat>, page: nat, mp: nat)
    requires mp <= |list|
    ensures forall p :: p in Inserted(list, page, mp) <==> p in list || p == page
    ensures NoDup(list) && page !in list ==> NoDup(Inserted(list, page, mp))
    decreases |list| - mp
  {
    if mp + 1 < |list| && list[mp + 1] < page {
      InsertedMembers(list, page, mp + 1);
    } else {
      assert list == list[..mp] + list[mp..];
    }
  }

  ghost predicate Ascending(list: seq<nat>) {
    forall i, j :: 0 <= i < j < |list| ==> list[i] < list[j]
  }

  /** The insertion keeps a queue in address order exactly when the page belongs in front of it. */
  lemma {:induction false} AddressOrderIff(list: seq<nat>, page: nat)
    requires Ascending(list) && page !in list
    ensures Ascending(Inserted(list, page, 0)) <==> list == [] || page < list[0]
  {
    if list == [] || page < list[0] {
      assert Inserted(list, page, 0) == [page] + list;
    } else {
      OutOfOrder(list, page, 0);
    }
  }

  lemma {:induction false} OutOfOrder(list: seq<nat>, page: nat, mp: nat)
    requires mp < |list| && list[mp] < page
    ensures !Ascending(Inserted(list, page, mp))
    decreases |list| - mp
  {
    if mp + 1 < |list| && list[mp + 1] < page {
      OutOfOrder(list, page, mp + 1);
    } else {
      var l := Inserted(list, page, mp);
      assert l[mp] == page && l[mp + 1] == list[mp];
    }
  }

  /** Take a page out of a queue it is on. */
  method Dequeue(list: seq<nat>, page: nat) returns (list': seq<nat>)
    requires page in list && NoDup(list)
    ensures NoDup(list') && forall p :: p in list' <==> p in list && p != page
    ensures exists i :: 0 <= i < |list| && list[i] == page && list' == list[..i] + list[i + 1..]
  {
    var mp := 0;
    while list[mp] != page
      invariant mp < |list| && page in list[mp..]
      decreases |list| - mp
    {
      mp := mp + 1;
    }
    list' := list[..mp] + list[mp + 1..];
    assert list == list[..mp] + [page] + list[mp + 1..];
  }

  // ------------------------------------------------------------ blocks

  /** What a caller holds: whole pages, or chunk `k` of a page. */
  datatype Block = Large(page: nat, n: nat) | Small(page: nat, k: nat, shift: nat)

  function Start(b: Block): nat {
    match b
    case Large(p, _) => p * 4096
    case Small(p, k, s) => p * 4096 + ShiftLeft(k, s)
  }

  function Length(b: Block): nat {
    match b
    case Large(_, n) => n * 4096
    case Small(_, _, s) => Pow2(s)
  }

  ghost predicate Live(info: map<nat, Info>, live: map<nat, nat>, b: Block) {
    match b
    case Large(p, n) => p in live && live[p] == n && p !in info
    case Small(p, k, s) =>
      p in info && info[p].shift == s && Usable(info[p], k) && k < |info[p].bits| && !info[p].bits[k]
  }

  /** Chunk pages are live one-page runs, known as such to the page directory. */
  ghost predicate Chunked(info: map<nat, Info>, live: map<nat, nat>, mark: map<nat, Mark>) {
    && (forall p {:trigger info[p]} {:trigger p in info} :: p in info ==> ChunkOk(info[p]) && p in live && live[p] == 1)
    && (forall p {:trigger At(mark, p)} :: p in live ==> (At(mark, p) == Chunk <==> p in info))
  }

  /** The queue of bucket `j` holds exactly the pages of that bucket with a free chunk. */
  ghost predicate Queued(info: map<nat, Info>, list: seq<nat>, j: nat) {
    && NoDup(list)
    && forall p {:trigger p in list} :: p in list <==> p in info && info[p].bucket == j && info[p].free > 0
  }

  ghost predicate Queues(info: map<nat, Info>, bucket: seq<seq<nat>>) {
    |bucket| == 12 && forall j :: 0 <= j < 12 ==> Queued(info, bucket[j], j)
  }

  /** A chunk that holds `size` bytes, and of which no smaller one would. */
  ghost predicate Fitting(size: nat, b: Block) {
    b.Small? && size <= Length(b) && (Length(b) == 16 || Length(b) < 2 * size)
  }

  /** The page that serves a request: the first of its queue, and a new one only for an empty queue. */
  ghost predicate Supplied(list: seq<nat>, live: map<nat, nat>, live': map<nat, nat>, page: nat) {
    if list != [] then page == list[0] && live' == live else page !in live && live' == live[page := 1]
  }

  lemma BucketFits(size: nat, j: nat)
    requires size <= 2048
    requires if size == 0 then j == 0 else size <= Pow2(j) && j >= 4 && (j == 4 || Pow2(j - 1) < size)
    ensures (j == 0 || 4 <= j <= 11) && 64 * Words(j) <= 4096
    ensures forall p, k: nat :: Fitting(size, Small(p, k, Shift(j)))
  {
    Powers();
    if j > 11 {
      PowMono(11, j - 1);
    }
  }

  // ------------------------------------------------------------ no two live blocks share a byte

  ghost predicate Disjoint(a: Block, b: Block) {
    Start(a) + Length(a) <= Start(b) || Start(b) + Length(b) <= Start(a)
  }

  /** A chunk lies in its page, behind the descriptor if that is there too. */
  lemma ChunkInPage(info: map<nat, Info>, live: map<nat, nat>, mark: map<nat, Mark>, b: Block)
    requires Chunked(info, live, mark) && b.Small? && Live(info, live, b)
    ensures b.page * 4096 <= Start(b) && Start(b) + Length(b) <= (b.page + 1) * 4096
    ensures InPage(info[b.page].bucket) ==> b.page * 4096 + AdminLen(info[b.page].bucket) <= Start(b)
  {
    ChunkFits(info[b.page], b.k);
  }

  /** Where a block starts within its page. */
  function Offset(b: Block): nat {
    if b.Large? then 0 else ShiftLeft(b.k, b.shift)
  }

  /** The address of a block names its page and, in a page of chunks, its chunk. */
  lemma StartDecodes(info: map<nat, Info>, live: map<nat, nat>, mark: map<nat, Mark>, b: Block)
    requires Chunked(info, live, mark) && Live(info, live, b)
    ensures Start(b) == b.page * 4096 + Offset(b) && 0 <= Offset(b) < 4096
    ensures b.Small? ==> Aligned(Offset(b), b.shift) && ShiftRight(Offset(b), b.shift) == b.k
  {
    if b.Small? {
      ChunkInPage(info, live, mark, b);
      ShiftBack(b.k, b.shift);
    }
  }

  /** Nothing the caller owns starts at `addr`. */
  ghost predicate NoBlockAt(info: map<nat, Info>, live: map<nat, nat>, addr: nat) {
    forall x {:trigger Live(info, live, x)} :: Live(info, live, x) ==> Start(x) != addr
  }

  lemma SamePlace(p: nat, off: nat, q: nat, o: nat)
    requires off < 4096 && o < 4096 && p * 4096 + off == q * 4096 + o
    ensures p == q && off == o
  {
  }

  /** A live block that starts at offset `off` of page `p` is the one `ifree` would take it for. */
  lemma BlockAt(info: map<nat, Info>, live: map<nat, nat>, mark: map<nat, Mark>, p: nat, off: nat, x: Block)
    requires Chunked(info, live, mark) && off < 4096 && Live(info, live, x) && Start(x) == p * 4096 + off
    ensures if p in info
            then Aligned(off, info[p].shift) && x == Small(p, ShiftRight(off, info[p].shift), info[p].shift)
            else p in live && off == 0 && x == Large(p, live[p])
  {
    StartDecodes(info, live, mark, x);
    SamePlace(p, off, x.page, Offset(x));
  }

  lemma NothingAt(info: map<nat, Info>, live: map<nat, nat>, mark: map<nat, Mark>, p: nat, off: nat)
    requires Chunked(info, live, mark) && off < 4096
    requires if p in info
             then Aligned(off, info[p].shift) ==>
               !Live(info, live, Small(p, ShiftRight(off, info[p].shift), info[p].shift))
             else p !in live || off != 0
    ensures NoBlockAt(info, live, p * 4096 + off)
  {
    forall x {:trigger Live(info, live, x)} | Live(info, live, x) && Start(x) == p * 4096 + off
      ensures false
    {
      BlockAt(info, live, mark, p, off, x);
    }
  }

  lemma BlocksDisjoint(info: map<nat, Info>, live: map<nat, nat>, mark: map<nat, Mark>, guard: nat, a: Block, b: Block)
    requires Chunked(info, live, mark) && Apart(live, guard)
    requires Live(info, live, a) && Live(info, live, b) && a != b
    ensures Disjoint(a, b)
  {
    if a.Small? {
      ChunkInPage(info, live, mark, a);
    }
    if b.Small? {
      ChunkInPage(info, live, mark, b);
    }
    if a.page == b.page {
      if a.k < b.k {
        ShiftApart(a.k, b.k, a.shift);
      } else {
        ShiftApart(b.k, a.k, a.shift);
      }
    } else {
      RunsApart(live, guard, a.page, b.page);
    }
  }

  // ------------------------------------------------------------ one descriptor at a time

  /** Replacing the descriptor of one page touches one queue only. */
  lemma Requeue(info: map<nat, Info>, bucket: seq<seq<nat>>, p: nat, c: Info, list: seq<nat>)
    requires Queues(info, bucket) && c.bucket < 12 && (p in info ==> info[p].bucket == c.bucket)
    requires Queued(info[p := c], list, c.bucket)
    ensures Queues(info[p := c], bucket[c.bucket := list])
  {
    forall j | 0 <= j < 12 && j != c.bucket
      ensures Queued(info[p := c], bucket[j], j)
    {
      assert Queued(info, bucket[j], j);
    }
  }

  lemma Unqueue(info: map<nat, Info>, bucket: seq<seq<nat>>, p: nat, list: seq<nat>)
    requires Queues(info, bucket) && p in info && info[p].bucket < 12
    requires NoDup(list) && forall q :: q in list <==> q in bucket[info[p].bucket] && q != p
    ensures Queues(info - {p}, bucket[info[p].bucket := list])
  {
    var info' := info - {p};
    forall j | 0 <= j < 12
      ensures Queued(info', if j == info[p].bucket then list else bucket[j], j)
    {
      assert Queued(info, bucket[j], j);
    }
  }

  /** The blocks the caller owns are those of before, and `b` as well (or, with `gained` false, all but `b`). */
  ghost predicate Changed(info: map<nat, Info>, live: map<nat, nat>, info': map<nat, Info>, live': map<nat, nat>,
        gained: bool, b: Block) {
    && (Live(info, live, b) <==> !gained)
    && forall x {:trigger Live(info', live', x)} ::
      Live(info', live', x) <==> if x == b then gained else Live(info, live, x)
  }

  ghost predicate Same(info: map<nat, Info>, live: map<nat, nat>, info': map<nat, Info>, live': map<nat, nat>) {
    forall x {:trigger Live(info', live', x)} :: Live(info', live', x) <==> Live(info, live, x)
  }

  lemma PushQueue(info: map<nat, Info>, list: seq<nat>, p: nat, c: Info)
    requires Queued(info, list, c.bucket) && p !in info && c.free > 0
    ensures Queued(info[p := c], [p] + list, c.bucket)
  {
    assert p !in list;
  }

  /** A page of chunks fresh from `malloc_pages` owns no block. */
  lemma AddLive(info: map<nat, Info>, live: map<nat, nat>, mark: map<nat, Mark>, mark': map<nat, Mark>, p: nat, c: Info)
    requires Chunked(info, live, mark) && p !in live && ChunkOk(c)
    requires forall k: nat {:trigger Usable(c, k)} :: Usable(c, k) ==> k < |c.bits| && c.bits[k]
    requires At(mark', p) == Chunk && forall q {:trigger At(mark', q)} :: q in live ==> At(mark', q) == At(mark, q)
    ensures p !in info
    ensures Chunked(info[p := c], live[p := 1], mark') && Same(info, live, info[p := c], live[p := 1])
  {
  }

  lemma AddPage(info: map<nat, Info>, bucket: seq<seq<nat>>, live: map<nat, nat>, mark: map<nat, Mark>,
                mark': map<nat, Mark>, p: nat, c: Info)
    requires Chunked(info, live, mark) && Queues(info, bucket) && p !in live && ChunkOk(c) && c.free == c.total
    requires At(mark', p) == Chunk && forall q {:trigger At(mark', q)} :: q in live ==> At(mark', q) == At(mark, q)
    ensures Chunked(info[p := c], live[p := 1], mark')
    ensures c.bucket < 12 && Queues(info[p := c], bucket[c.bucket := [p] + bucket[c.bucket]])
    ensures Same(info, live, info[p := c], live[p := 1])
  {
    AllFreeBits(c);
    AddLive(info, live, mark, mark', p, c);
    assert Queued(info, bucket[c.bucket], c.bucket);
    PushQueue(info, bucket[c.bucket], p, c);
    Requeue(info, bucket, p, c, [p] + bucket[c.bucket]);
  }

  lemma ShrinkQueue(info: map<nat, Info>, list: seq<nat>, c: Info)
    requires list != [] && Queued(info, list, c.bucket)
    ensures Queued(info[list[0] := c], if c.free == 0 then list[1..] else list, c.bucket)
  {
    var p := list[0];
    assert p in list;
    assert list == [p] + list[1..];
    forall q {:trigger q in list[1..]}
      ensures q in list[1..] <==> q in list && q != p
    {
      if q in list[1..] {
        var i :| 0 <= i < |list[1..]| && list[1..][i] == q;
        assert list[i + 1] == q;
      }
    }
  }

  /** Handing out chunk `k` turns it into a block of the caller, and no other. */
  lemma TakeLive(info: map<nat, Info>, live: map<nat, nat>, p: nat, k: nat)
    requires p in info && info[p].free > 0 && Usable(info[p], k) && k < |info[p].bits| && info[p].bits[k]
    ensures Changed(info, live, info[p := Taken(info[p], k)], live, true, Small(p, k, info[p].shift))
  {
  }

  /** Taking chunk `k` back. */
  lemma ReturnLive(info: map<nat, Info>, live: map<nat, nat>, p: nat, k: nat)
    requires p in info && Usable(info[p], k) && k < |info[p].bits| && !info[p].bits[k]
    ensures Changed(info, live, info[p := Returned(info[p], k)], live, false, Small(p, k, info[p].shift))
  {
  }

  /** A page of chunks without a live one takes no block away when it goes. */
  lemma DropLive(info: map<nat, Info>, live: map<nat, nat>, p: nat)
    requires p in info && forall k: nat {:trigger Usable(info[p], k)} ::
      Usable(info[p], k) ==> k < |info[p].bits| && info[p].bits[k]
    ensures Same(info, live, info - {p}, live - {p})
  {
  }

  class Malloc {
    const pages: PageAllocator
    var info: map<nat, Info>
    /** `page_dir[0 .. 12]`: for each chunk size, the pages with room. */
    var bucket: seq<seq<nat>>

    ghost predicate Valid()
      reads this, pages, pages.dir
    {
      pages.Valid() && Chunked(info, pages.live, pages.dir.mark) && Queues(info, bucket)
    }

    /** The caller owns block `b`. */
    ghost predicate Holds(b: Block)
      reads this, pages
    {
      Live(info, pages.live, b)
    }

    constructor (guarded: bool, cachePages: nat)
      ensures Valid() && fresh(pages) && fresh(pages.dir) && forall b :: !Holds(b)
    {
      pages := new PageAllocator(guarded, cachePages);
      info := map[];
      bucket := seq(12, _ => []);
    }

    /** `malloc_make_chunks`: a page `p` of bucket `j`, all of it free, goes to the front of the bucket's queue. */
    method MakeChunks(j: nat, region: nat, junk: seq<bool>) returns (ghost p: nat)
      requires Valid() && (j == 0 || 4 <= j <= 11) && |junk| == 64 * Words(j)
      requires PAGESHIFT <= region && forall i :: region <= i < region + 1 + pages.guard ==> i !in pages.dir.mapped
      modifies this, pages, pages.dir
      ensures Valid() && Same(old(info), old(pages.live), info, pages.live)
      ensures p !in old(pages.live) && pages.live == old(pages.live)[p := 1]
      ensures p !in old(info) && p in info && info == old(info)[p := info[p]]
      ensures info[p].bucket == j && info[p].free == info[p].total
      ensures bucket == old(bucket)[j := [p] + old(bucket)[j]]
    {
      ghost var live0, mark0 := pages.live, pages.dir.mark;
      var page := pages.MallocPages(1, region);
      var c := NewInfo(j, junk);
      pages.Relabel(page, Chunk);
      AddPage(info, bucket, live0, mark0, pages.dir.mark, page, c);
      info := info[page := c];
      bucket := bucket[j := [page] + bucket[j]];
      p := page;
    }

    /** A page for bucket `j` exactly when it has none with a free chunk. */
    method MakeRoom(j: nat, region: nat, junk: seq<bool>)
      requires Valid() && (j == 0 || 4 <= j <= 11) && |junk| == 4096
      requires PAGESHIFT <= region && forall i :: region <= i < region + 1 + pages.guard ==> i !in pages.dir.mapped
      modifies this, pages, pages.dir
      ensures Valid() && bucket[j] != [] && Same(old(info), old(pages.live), info, pages.live)
      ensures Supplied(old(bucket)[j], old(pages.live), pages.live, bucket[j][0])
    {
      if bucket[j] == [] {
        ghost var p := MakeChunks(j, region, junk[..64 * Words(j)]);
      }
    }

    /** The second half of `malloc_bytes`: a chunk from the page at the head of queue `j`. */
    method TakeFrom(j: nat, draw: nat) returns (b: Block)
      requires Valid() && j < 12 && bucket[j] != []
      modifies this
      ensures Valid() && Changed(old(info), pages.live, info, pages.live, true, b)
      ensures b.Small? && b.page == old(bucket)[j][0] && b.shift == Shift(j)
      ensures b.page in old(info) && b.page in info && info[b.page].bucket == j
      ensures info == old(info)[b.page := info[b.page]]
      ensures var c := old(info)[b.page];
        && c.free > 0 && b.k < |c.bits| && info[b.page] == Taken(c, b.k)
        && Count(c.bits, 0, b.k) == (if pages.guard > 0 then draw % c.free else 0)
        && bucket == old(bucket)[j := if c.free == 1 then old(bucket)[j][1..] else old(bucket)[j]]
    {
      assert Queued(info, bucket[j], j);
      assert bucket[j][0] in bucket[j];
      var p := bucket[j][0];
      var c := info[p];
      var k := Pick(c, pages.guard > 0, draw);
      var list := if c.free == 1 then bucket[j][1..] else bucket[j];
      TakeOk(c, k);
      ShrinkQueue(info, bucket[j], Taken(c, k));
      Requeue(info, bucket, p, Taken(c, k), list);
      TakeLive(info, pages.live, p, k);
      info := info[p := Taken(c, k)];
      bucket := bucket[j := list];
      b := Small(p, k, c.shift);
    }

    /** `malloc_bytes`; `junk` is what a descriptor's memory holds before it is filled in. */
    method MallocBytes(size: nat, draw: nat, region: nat, junk: seq<bool>) returns (b: Block)
      requires Valid() && size <= 2048 && |junk| == 4096
      requires PAGESHIFT <= region && forall i :: region <= i < region + 1 + pages.guard ==> i !in pages.dir.mapped
      modifies this, pages, pages.dir
      ensures Valid() && Changed(old(info), old(pages.live), info, pages.live, true, b)
      ensures Fitting(size, b)
      ensures b.page in info && (info[b.page].bucket == 0 <==> size == 0) && info[b.page].bucket < |old(bucket)|
      ensures Supplied(old(bucket)[info[b.page].bucket], old(pages.live), pages.live, b.page)
    {
      var j := BucketFor(size);
      BucketFits(size, j);
      MakeRoom(j, region, junk);
      b := TakeFrom(j, draw);
    }

    /** `imalloc`: `size` bytes, as the smallest chunk or the fewest whole pages that hold them. */
    method Allocate(size: nat, draw: nat, region: nat, junk: seq<bool>) returns (b: Block)
      requires Valid() && |junk| == 4096
      requires PAGESHIFT <= region && forall i ::
        region <= i < region + size / 4096 + 1 + pages.guard ==> i !in pages.dir.mapped
      modifies this, pages, pages.dir
      ensures Valid() && Changed(old(info), old(pages.live), info, pages.live, true, b)
      ensures size <= Length(b)
      ensures if size <= 2048 then Fitting(size, b) else b.Large? && Length(b) < size + 4096
      ensures b.Small? ==> b.page in info && (info[b.page].bucket == 0 <==> size == 0)
    {
      if size <= 2048 {
        b := MallocBytes(size, draw, region, junk);
      } else {
        var n := (size + 4095) / 4096;
        b := AllocatePages(n, region);
      }
    }

    method AllocatePages(n: nat, region: nat) returns (b: Block)
      requires Valid() && n > 0
      requires PAGESHIFT <= region && forall i :: region <= i < region + n + pages.guard ==> i !in pages.dir.mapped
      modifies this, pages, pages.dir
      ensures Valid() && Changed(old(info), old(pages.live), info, pages.live, true, b)
      ensures b.Large? && b.n == n
    {
      var p := pages.MallocPages(n, region);
      b := Large(p, n);
    }

    /** `free_bytes`: take back the chunk at offset `off` of chunk page `p`, and the page once it is all free. */
    method FreeBytes(p: nat, off: nat) returns (freed: bool)
      requires Valid() && p in info && off < 4096 && Stolen(info[p].bucket) <= ShiftRight(off, info[p].shift)
      modifies this, pages, pages.dir
      ensures Valid()
      ensures !freed ==> info == old(info) && pages.live == old(pages.live)
      ensures var b := Small(p, ShiftRight(off, old(info)[p].shift), old(info)[p].shift);
              && (freed <==> Aligned(off, b.shift) && Live(old(info), old(pages.live), b))
              && (freed ==> Changed(old(info), old(pages.live), info, pages.live, false, b))
              && (freed ==> (p !in info <==> OnlyUsed(old(info)[p], b.k)))
      ensures p in info <==> p in pages.live
    {
      var c := info[p];
      ChunkAt(c, off);
      var i := ShiftRight(off, c.shift);
      if !Aligned(off, c.shift) || c.bits[i] {
        return false;
      }
      freed := true;
      ReturnLive(info, pages.live, p, i);
      LastOneBack(c, i);
      var full := GiveBack(p, i);
      if full {
        ReleasePage(p);
      }
    }

    /** The bookkeeping of `free_bytes`: bitmap, count and queue; true when the page has no live chunk left. */
    method GiveBack(p: nat, i: nat) returns (full: bool)
      requires Valid() && p in info && Usable(info[p], i) && i < |info[p].bits| && !info[p].bits[i]
      modifies this
      ensures Valid() && info == old(info)[p := Returned(old(info)[p], i)]
      ensures full <==> info[p].free == info[p].total
      ensures var j := info[p].bucket;
        && j < |old(bucket)|
        && bucket == if info[p].free == 1 then old(bucket)[j := Inserted(old(bucket)[j], p, 0)] else old(bucket)
    {
      var c := info[p];
      var c' := Returned(c, i);
      var j := c.bucket;
      ReturnOk(c, i);
      FreeAtMostTotal(c');
      assert Queued(info, bucket[j], j);
      var list := bucket[j];
      if c'.free == 1 {
        assert p !in list;
        list := Enqueue(list, p);
      } else {
        assert p in list;
      }
      Requeue(info, bucket, p, c', list);
      info := info[p := c'];
      bucket := bucket[j := list];
      full := c'.free != 1 && c'.free == c'.total;
    }

    /** A page of chunks without a live chunk leaves its queue and goes back to the page layer. */
    method ReleasePage(p: nat)
      requires Valid() && p in info && info[p].free == info[p].total
      modifies this, pages, pages.dir
      ensures Valid() && Same(old(info), old(pages.live), info, pages.live)
      ensures info == old(info) - {p} && p !in pages.live
    {
      var c := info[p];
      AllFreeBits(c);
      assert Queued(info, bucket[c.bucket], c.bucket);
      assert p in bucket[c.bucket];
      var list := Dequeue(bucket[c.bucket], p);
      Unqueue(info, bucket, p, list);
      DropLive(info, pages.live, p);
      pages.Relabel(p, First);
      info := info - {p};
      bucket := bucket[c.bucket := list];
      var r;
      ghost var e, over, kept;
      r, e, over, kept := pages.FreePages(p);
    }

    /**
     `ifree`: give back the block that starts at `addr`.  Pointers into a descriptor or a guard page, or to
     a page without a directory, are not recognised as foreign, so they must not be passed.
     */
    method Release(addr: nat) returns (freed: bool, ghost b: Block)
      requires Valid() && PageDir(addr / 4096) in pages.dir.cnt
      requires At(pages.dir.mark, addr / 4096) == First ==> addr / 4096 in pages.live
      requires addr / 4096 in info ==>
          Stolen(info[addr / 4096].bucket) <= ShiftRight(addr % 4096, info[addr / 4096].shift)
      modifies this, pages, pages.dir
      ensures Valid()
      ensures freed ==> Start(b) == addr && Changed(old(info), old(pages.live), info, pages.live, false, b)
      ensures !freed ==> info == old(info) && pages.live == old(pages.live) && NoBlockAt(info, pages.live, addr)
    {
      var p, off := addr / 4096, addr % 4096;
      var m := pages.Inspect(p);
      if m == Chunk {
        ChunkStart(pages.dir.mark, pages.dir.mapped, pages.free, pages.live, pages.guard, p);
        freed, b := ReleaseChunk(p, off);
      } else {
        freed, b := ReleaseRun(p, off, m);
      }
    }

    method ReleaseChunk(p: nat, off: nat) returns (freed: bool, ghost b: Block)
      requires Valid() && p in info && off < 4096 && Stolen(info[p].bucket) <= ShiftRight(off, info[p].shift)
      modifies this, pages, pages.dir
      ensures Valid()
      ensures freed ==> Start(b) == p * 4096 + off && Changed(old(info), old(pages.live), info, pages.live, false, b)
      ensures !freed ==>
          info == old(info) && pages.live == old(pages.live) && NoBlockAt(info, pages.live, p * 4096 + off)
    {
      b := Small(p, ShiftRight(off, info[p].shift), info[p].shift);
      freed := FreeBytes(p, off);
      if !freed {
        NothingAt(info, pages.live, pages.dir.mark, p, off);
      } else {
        ShiftForth(off, b.shift);
      }
    }

    method ReleaseRun(p: nat, off: nat, m: Mark) returns (freed: bool, ghost b: Block)
      requires Valid() && off < 4096 && m == At(pages.dir.mark, p) && m != Chunk && (m == First ==> p in pages.live)
      modifies this, pages, pages.dir
      ensures Valid()
      ensures freed ==> Start(b) == p * 4096 + off && Changed(old(info), old(pages.live), info, pages.live, false, b)
      ensures !freed ==>
          info == old(info) && pages.live == old(pages.live) && NoBlockAt(info, pages.live, p * 4096 + off)
    {
      b := Large(p, if p in pages.live then pages.live[p] else 0);
      freed := false;
      if m == First && off == 0 {
        var r;
        ghost var e, over, kept;
        r, e, over, kept := pages.FreePages(p);
        freed := r == Freed;
      } else {
        assert p in pages.live ==> RunMarked(pages.dir.mark, p, pages.live[p], pages.guard);
        NothingAt(info, pages.live, pages.dir.mark, p, off);
      }
    }
  }
}
