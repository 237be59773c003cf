/**
 Pages split into chunks of one power-of-two size, with a bitmap of the free ones.
 Bit `b` of bitmap word `w` is `bits[64 * w + b]`.
 */
module ChunkPages {

  const MINSIZE: nat := 16
  /** Bits in one bitmap word. */
  const WORD: nat := 64

  function Pow2(n: nat): (r: nat)
    ensures r > 0
  {
    if n == 0 then 1 else 2 * Pow2(n - 1)
  }

  /** Chunks of `2^shift` bytes in a page, for the shifts in use (`PageSplits`). */
  function PerPage(shift: nat): nat {
    if shift == 4 then 256 else if shift == 5 then 128 else if shift == 6 then 64 else if shift == 7 then 32
    else if shift == 8 then 16 else if shift == 9 then 8 else if shift == 10 then 4 else if shift == 11 then 2 else 0
  }

  /** `k << shift` */
  function ShiftLeft(k: nat, shift: nat): nat {
    if shift == 0 then k else 2 * ShiftLeft(k, shift - 1)
  }

  /** `x >> shift` */
  function ShiftRight(x: nat, shift: nat): nat {
    if shift == 0 then x else ShiftRight(x / 2, shift - 1)
  }

  /** The low `shift` bits of `x` are zero. */
  predicate Aligned(x: nat, shift: nat) {
    shift == 0 || (x % 2 == 0 && Aligned(x / 2, shift - 1))
  }

  lemma {:induction false} ShiftBack(k: nat, shift: nat)
    ensures ShiftRight(ShiftLeft(k, shift), shift) == k && Aligned(ShiftLeft(k, shift), shift)
  {
    if shift > 0 {
      ShiftBack(k, shift - 1);
    }
  }

  lemma {:induction false} ShiftForth(x: nat, shift: nat)
    requires Aligned(x, shift)
    ensures ShiftLeft(ShiftRight(x, shift), shift) == x
  {
    if shift > 0 {
      ShiftForth(x / 2, shift - 1);
    }
  }

  /** Shifted numbers stay apart, and so do the pieces between them. */
  lemma {:induction false} ShiftApart(k: nat, m: nat, shift: nat)
    requires k < m
    ensures ShiftLeft(k, shift) + Pow2(shift) <= ShiftLeft(m, shift)
  {
    if shift > 0 {
      ShiftApart(k, m, shift - 1);
    }
  }

  lemma {:induction false} ShiftBelow(x: nat, n: nat, shift: nat)
    requires x < ShiftLeft(n, shift)
    ensures ShiftRight(x, shift) < n
  {
    if shift > 0 {
      ShiftBelow(x / 2, n, shift - 1);
    }
  }

  lemma {:induction false} PageSplits(shift: nat)
    requires 4 <= shift <= 11
    ensures ShiftLeft(PerPage(shift), shift) == 4096
  {
    Powers();
    ShiftUp(PerPage(shift), shift);
  }

  lemma {:induction false} ShiftUp(k: nat, shift: nat)
    ensures ShiftLeft(k, shift) == k * Pow2(shift)
  {
    if shift > 0 {
      ShiftUp(k, shift - 1);
    }
  }

  lemma {:induction false} Powers()
    ensures Pow2(0) == 1 && Pow2(1) == 2 && Pow2(2) == 4 && Pow2(3) == 8 && Pow2(4) == 16 && Pow2(5) == 32 &&
        Pow2(6) == 64
    ensures Pow2(7) == 128 && Pow2(8) == 256 && Pow2(9) == 512 && Pow2(10) == 1024 && Pow2(11) == 2048 &&
        Pow2(12) == 4096
  {
    assert Pow2(2) == 4;
    assert Pow2(4) == 16;
    assert Pow2(6) == 64;
    assert Pow2(8) == 256;
    assert Pow2(10) == 1024;
  }

  // ------------------------------------------------------------ geometry of a bucket

  /** Bucket 0 serves requests for no bytes at all, with chunks of the smallest size. */
  function Shift(bucket: nat): nat { if bucket == 0 then 4 else bucket }

  /** Bitmap words set aside for a page of bucket `bucket` (`Geometry`). */
  function Words(bucket: nat): nat {
    if bucket == 0 then 64 else if bucket == 4 then 4 else if bucket == 5 then 2 else 1
  }

  /** Bytes of the page descriptor, bitmap included. */
  function AdminLen(bucket: nat): nat { 24 + 8 * Words(bucket) }

  /** The descriptor lives in the page it describes when that costs no more than two chunks. */
  predicate InPage(bucket: nat) { bucket != 0 && Pow2(bucket) <= 2 * AdminLen(bucket) }

  /** Chunks at the front of the page taken by the descriptor: none, or just enough to hold it (`Geometry`). */
  function Stolen(bucket: nat): nat {
    if bucket == 4 then 4 else if bucket == 5 then 2 else if bucket == 6 then 1 else 0
  }

  lemma {:induction false} Geometry(bucket: nat)
    requires bucket == 0 || 4 <= bucket <= 11
    ensures Stolen(bucket) == if InPage(bucket) then (AdminLen(bucket) + Pow2(bucket) - 1) / Pow2(bucket) else 0
    ensures PerPage(Shift(bucket)) * Pow2(Shift(bucket)) == 4096 && Words(bucket) == (4096 / Pow2(bucket) + 63) / 64
    ensures AdminLen(bucket) == if bucket == 0 then 536 else if bucket == 4 then 56 else if bucket == 5 then 40 else 32
    ensures InPage(bucket) <==> 4 <= bucket <= 6
    ensures PerPage(Shift(bucket)) <= 64 * Words(bucket)
    ensures Stolen(bucket) + 2 <= PerPage(Shift(bucket))
    ensures InPage(bucket) ==> AdminLen(bucket) <= ShiftLeft(Stolen(bucket), bucket)
  {
    Powers();
    ShiftUp(Stolen(bucket), bucket);
  }

  // ------------------------------------------------------------ counting bits

  /** How many of the bits `lo .. hi` are set. */
  ghost function Count(bits: seq<bool>, lo: nat, hi: nat): (n: nat)
    requires hi <= |bits|
    ensures n <= if lo <= hi then hi - lo else 0
    decreases hi
  {
    if hi <= lo then 0 else Count(bits, lo, hi - 1) + if bits[hi - 1] then 1 else 0
  }

  lemma {:induction false} CountSplit(bits: seq<bool>, lo: nat, mid: nat, hi: nat)
    requires lo <= mid <= hi <= |bits|
    ensures Count(bits, lo, hi) == Count(bits, lo, mid) + Count(bits, mid, hi)
    decreases hi
  {
    if mid < hi {
      CountSplit(bits, lo, mid, hi - 1);
    }
  }

  lemma {:induction false} CountSame(a: seq<bool>, b: seq<bool>, lo: nat, hi: nat)
    requires hi <= |a| && hi <= |b| && forall i :: lo <= i < hi ==> a[i] == b[i]
    ensures Count(a, lo, hi) == Count(b, lo, hi)
    decreases hi
  {
    if lo < hi {
      CountSame(a, b, lo, hi - 1);
    }
  }

  lemma {:induction false} CountConstant(bits: seq<bool>, lo: nat, hi: nat, v: bool)
    requires lo <= hi <= |bits| && forall i :: lo <= i < hi ==> bits[i] == v
    ensures Count(bits, lo, hi) == if v then hi - lo else 0
    decreases hi
  {
    if lo < hi {
      CountConstant(bits, lo, hi - 1, v);
    }
  }

  lemma {:induction false} CountFull(bits: seq<bool>, lo: nat, hi: nat)
    requires lo <= hi <= |bits|
    ensures Count(bits, lo, hi) == hi - lo <==> forall k :: lo <= k < hi ==> bits[k]
    decreases hi
  {
    if lo < hi {
      CountFull(bits, lo, hi - 1);
    }
  }

  /** Changing one bit changes the count by one. */
  lemma {:induction false} CountUpdate(bits: seq<bool>, hi: nat, k: nat, v: bool)
    requires k < hi <= |bits| && bits[k] != v
    ensures Count(bits[k := v], 0, hi) == Count(bits, 0, hi) + if v then 1 else -1
  {
    var b := bits[k := v];
    CountSplit(bits, 0, k, hi);
    CountSplit(b, 0, k, hi);
    CountSplit(bits, k, k + 1, hi);
    CountSplit(b, k, k + 1, hi);
    CountSame(bits, b, 0, k);
    CountSame(bits, b, k + 1, hi);
  }

  // ------------------------------------------------------------ one page of chunks

  /** `struct pginfo`; the page it describes is the key under which it is kept. */
  datatype Info = Info(bucket: nat, size: nat, shift: nat, free: nat, total: nat, bits: seq<bool>)

  /** Chunk `k` of the page is one that users can be given. */
  ghost predicate Usable(c: Info, k: nat) { Stolen(c.bucket) <= k < PerPage(c.shift) }

  ghost predicate ChunkOk(c: Info) {
    && (c.bucket == 0 || 4 <= c.bucket <= 11)
    && c.shift == Shift(c.bucket)
    && c.size == (if c.bucket == 0 then 0 else Pow2(c.bucket))
    && |c.bits| == 64 * Words(c.bucket)
    && PerPage(c.shift) <= |c.bits|
    && c.total == PerPage(c.shift) - Stolen(c.bucket)
    && (forall k :: 0 <= k < Stolen(c.bucket) ==> !c.bits[k])
    && c.free == Count(c.bits, 0, PerPage(c.shift))
  }

  lemma {:induction false} FreeAtMostTotal(c: Info)
    requires ChunkOk(c)
    ensures c.free <= c.total && c.total >= 2
  {
    Geometry(c.bucket);
    CountSplit(c.bits, 0, Stolen(c.bucket), PerPage(c.shift));
    CountConstant(c.bits, 0, Stolen(c.bucket), false);
  }

  /** A usable chunk ends inside the page and starts behind the descriptor. */
  lemma {:induction false} ChunkFits(c: Info, k: nat)
    requires ChunkOk(c) && Usable(c, k)
    ensures ShiftLeft(k, c.shift) + Pow2(c.shift) <= 4096
    ensures InPage(c.bucket) ==> AdminLen(c.bucket) <= ShiftLeft(k, c.shift)
  {
    Geometry(c.bucket);
    PageSplits(c.shift);
    ShiftApart(k, PerPage(c.shift), c.shift);
    if Stolen(c.bucket) < k {
      ShiftApart(Stolen(c.bucket), k, c.shift);
    }
  }

  /** An offset into the page falls into a chunk of it; the start of a chunk and its number name each other. */
  lemma {:induction false} ChunkAt(c: Info, off: nat)
    requires ChunkOk(c) && off < 4096
    ensures ShiftRight(off, c.shift) < PerPage(c.shift)
    ensures Aligned(off, c.shift) <==> ShiftLeft(ShiftRight(off, c.shift), c.shift) == off
    ensures forall k: nat {:trigger ShiftLeft(k, c.shift)} ::
      off == ShiftLeft(k, c.shift) ==> k == ShiftRight(off, c.shift)
  {
    forall k: nat {:trigger ShiftLeft(k, c.shift)} | off == ShiftLeft(k, c.shift)
      ensures k == ShiftRight(off, c.shift)
    {
      ShiftBack(k, c.shift);
    }
    if Aligned(off, c.shift) {
      ShiftForth(off, c.shift);
    }
    ShiftBack(ShiftRight(off, c.shift), c.shift);
    PageSplits(c.shift);
    ShiftBelow(off, PerPage(c.shift), c.shift);
  }

  /** Every usable chunk is free exactly when all of them are counted free. */
  lemma {:induction false} AllFree(c: Info)
    requires ChunkOk(c)
    ensures c.free == c.total <==> forall k :: Stolen(c.bucket) <= k < PerPage(c.shift) ==> c.bits[k]
  {
    var lo, hi := Stolen(c.bucket), PerPage(c.shift);
    Geometry(c.bucket);
    CountSplit(c.bits, 0, lo, hi);
    CountConstant(c.bits, 0, lo, false);
    CountFull(c.bits, lo, hi);
  }

  /** A descriptor with every chunk free: at least two of them, and none of its usable bits clear. */
  lemma {:induction false} AllFreeBits(c: Info)
    requires ChunkOk(c) && c.free == c.total
    ensures c.free >= 2 && c.bucket < 12
    ensures forall k: nat {:trigger Usable(c, k)} :: Usable(c, k) ==> k < |c.bits| && c.bits[k]
  {
    FreeAtMostTotal(c);
    AllFree(c);
  }

  /** Chunk `k` handed out. */
  function Taken(c: Info, k: nat): Info
    requires k < |c.bits| && c.free > 0
  {
    c.(bits := c.bits[k := false], free := c.free - 1)
  }

  /** Chunk `k` given back. */
  function Returned(c: Info, k: nat): Info
    requires k < |c.bits|
  {
    c.(bits := c.bits[k := true], free := c.free + 1)
  }

  lemma TakeOk(c: Info, k: nat)
    requires ChunkOk(c) && c.free > 0 && Usable(c, k) && c.bits[k]
    ensures ChunkOk(Taken(c, k))
  {
    CountUpdate(c.bits, PerPage(c.shift), k, false);
  }

  lemma ReturnOk(c: Info, k: nat)
    requires ChunkOk(c) && Usable(c, k) && !c.bits[k]
    ensures ChunkOk(Returned(c, k))
  {
    CountUpdate(c.bits, PerPage(c.shift), k, true);
  }

  /** Chunk `k` is the only one of its page that is in use. */
  ghost predicate OnlyUsed(c: Info, k: nat) {
    forall m: nat {:trigger Usable(c, m)} :: Usable(c, m) && m != k ==> m < |c.bits| && c.bits[m]
  }

  /** When it comes back, and only then, all of the page is free. */
  lemma LastOneBack(c: Info, k: nat)
    requires ChunkOk(c) && Usable(c, k) && !c.bits[k]
    ensures Returned(c, k).free == c.total <==> OnlyUsed(c, k)
  {
    ReturnOk(c, k);
    var c' := Returned(c, k);
    AllFree(c');
    if c'.free == c.total {
      forall m: nat {:trigger Usable(c, m)} | Usable(c, m) && m != k ensures m < |c.bits| && c.bits[m] {
        assert c'.bits[m];
      }
    }
    if OnlyUsed(c, k) {
      forall m | Stolen(c.bucket) <= m < PerPage(c.shift) ensures c'.bits[m] {
        assert Usable(c, m);
      }
    }
  }

  /** A chunk under the descriptor is not one to give back: the descriptor is wrong afterwards. */
  lemma HeaderChunkBreaks(c: Info, k: nat)
    requires ChunkOk(c) && k < Stolen(c.bucket)
    ensures k < |c.bits| && !ChunkOk(Returned(c, k))
  {
    Geometry(c.bucket);
    assert Returned(c, k).bits[k];
  }

  // ------------------------------------------------------------ operations

  /** The bucket whose chunks hold `size` bytes: the smallest that does. */
  method BucketFor(size: nat) returns (j: nat)
    ensures size == 0 ==> j == 0
    ensures size > 0 ==> size <= Pow2(j) && j >= 4 && (j == 4 || Pow2(j - 1) < size)
  {
    if size == 0 {
      return 0;
    }
    var s := if size < MINSIZE then MINSIZE else size;
    Powers();
    j := 1;
    var ii: nat := (s - 1) / 2;
    while ii > 0
      invariant 1 <= j && Within(s, ii, Pow2(j)) && Pow2(j - 1) < s
    {
      Halve(s, ii, Pow2(j));
      j := j + 1;
      ii := ii / 2;
    }
    if j < 4 {
      PowMono(j, 3);
    } else if size < MINSIZE && j > 4 {
      PowMono(4, j - 1);
    }
  }

  /** `ii` is `s - 1` shifted right until `p` divides it out. */
  ghost predicate Within(s: nat, ii: nat, p: nat) {
    ii * p < s <= ii * p + p
  }

  lemma Halve(s: nat, ii: nat, p: nat)
    requires Within(s, ii, p) && ii > 0
    ensures Within(s, ii / 2, 2 * p) && p < s
  {
    var h := ii / 2;
    assert h * (2 * p) == (2 * h) * p;
    assert (2 * h + 1) * p == (2 * h) * p + p;
    MulMono(1, ii, p);
  }

  lemma MulMono(a: nat, b: nat, p: nat)
    requires a <= b
    ensures a * p <= b * p
  {
    assert b * p == a * p + (b - a) * p;
  }

  lemma {:induction false} PowMono(a: nat, b: nat)
    requires a <= b
    ensures Pow2(a) <= Pow2(b)
    decreases b
  {
    if a < b {
      PowMono(a, b - 1);
    }
  }

  /** Set the first `n` bits over whatever memory held before, a word at a time while whole words are left. */
  method FillBits(junk: seq<bool>, n: nat) returns (bits: seq<bool>)
    requires n <= |junk|
    ensures |bits| == |junk| && forall k :: 0 <= k < |junk| ==> bits[k] == (k < n || junk[k])
  {
    bits := junk;
    var i := 0;
    while n - i >= WORD
      invariant 0 <= i <= n && |bits| == |junk|
      invariant forall k :: 0 <= k < |junk| ==> bits[k] == (k < i || junk[k])
    {
      bits := bits[..i] + seq(WORD, _ => true) + bits[i + WORD..];
      i := i + WORD;
    }
    while i < n
      invariant 0 <= i <= n && |bits| == |junk|
      invariant forall k :: 0 <= k < |junk| ==> bits[k] == (k < i || junk[k])
    {
      bits := bits[i := true];
      i := i + 1;
    }
  }

  /** Withdraw the chunks of `p` bytes under a descriptor of `l` bytes that lives in its own page. */
  method Steal(bits: seq<bool>, n: nat, l: nat, p: nat) returns (bits': seq<bool>, total: nat)
    requires p > 0 && (l + p - 1) / p <= n <= |bits|
    ensures |bits'| == |bits| && total == n - (l + p - 1) / p
    ensures forall k :: 0 <= k < |bits| ==> bits'[k] == (k >= (l + p - 1) / p && bits[k])
  {
    ghost var stolen := (l + p - 1) / p;
    bits', total := bits, n;
    var i: nat, left: int := 0, l;
    while left > 0
      invariant i <= stolen && left == l - i * p
      invariant |bits'| == |bits| && total == n - i
      invariant forall k :: 0 <= k < |bits| ==> bits'[k] == (k >= i && bits[k])
      decreases stolen - i
    {
      CeilDiv(l, p, i);
      bits' := bits'[i := false];
      total := total - 1;
      assert (i + 1) * p == i * p + p;
      left := left - p;
      i := i + 1;
    }
    CeilDiv(l, p, i);
  }

  lemma CeilDiv(l: nat, p: nat, i: nat)
    requires p > 0
    ensures i * p < l <==> i < (l + p - 1) / p
  {
    var q := (l + p - 1) / p;
    assert q * p <= l + p - 1 < (q + 1) * p;
    if i < q {
      MulMono(i + 1, q, p);
    } else {
      MulMono(q, i, p);
    }
  }

  /** `malloc_make_chunks`: a fresh descriptor for bucket `bucket`. */
  method NewInfo(bucket: nat, junk: seq<bool>) returns (c: Info)
    requires bucket == 0 || 4 <= bucket <= 11
    requires |junk| == 64 * Words(bucket)
    ensures ChunkOk(c) && c.bucket == bucket && c.free == c.total
    ensures forall k :: PerPage(c.shift) <= k < |junk| ==> c.bits[k] == junk[k]
  {
    Geometry(bucket);
    var shift := Shift(bucket);
    var n := PerPage(shift);
    var bits := FillBits(junk, n);
    var total := n;
    if InPage(bucket) {
      bits, total := Steal(bits, n, AdminLen(bucket), Pow2(bucket));
    }
    c := Info(bucket, if bucket == 0 then 0 else Pow2(bucket), shift, total, total, bits);
    CountSplit(bits, 0, Stolen(bucket), n);
    CountConstant(bits, 0, Stolen(bucket), false);
    CountConstant(bits, Stolen(bucket), n, true);
  }

  predicate WordEmpty(bits: seq<bool>, w: nat)
    requires 64 * w + 64 <= |bits|
  {
    forall b :: 64 * w <= b < 64 * w + 64 ==> !bits[b]
  }

  /** The bit `steps` set bits after the first one, found word by word and then bit by bit. */
  method PickBit(bits: seq<bool>, ghost words: nat, ghost hi: nat, ghost free: nat, steps: nat) returns (k: nat)
    requires hi <= |bits| == 64 * words && free == Count(bits, 0, hi) && steps < free
    ensures k < hi && bits[k] && Count(bits, 0, k) == steps
  {
    var w := 0;
    StillInside(bits, 0, hi);
    while WordEmpty(bits, w)
      invariant 64 * w < hi && Count(bits, 0, 64 * w) == 0
      decreases |bits| - 64 * w
    {
      CountConstant(bits, 64 * w, 64 * w + 64, false);
      CountSplit(bits, 0, 64 * w, 64 * w + 64);
      w := w + 1;
      StillInside(bits, 64 * w, hi);
    }
    k := NextBit(bits, 64 * w, hi, 0);
    var i := steps;
    while i > 0
      invariant 0 <= i <= steps && k < hi && bits[k] && Count(bits, 0, k) == steps - i
    {
      k := NextBit(bits, k + 1, hi, steps - i + 1);
      i := i - 1;
    }
  }

  /** The first set bit at or after `start`. */
  method NextBit(bits: seq<bool>, start: nat, ghost hi: nat, ghost seen: nat) returns (k: nat)
    requires start <= hi <= |bits| && Count(bits, 0, start) == seen < Count(bits, 0, hi)
    ensures start <= k < hi && bits[k] && Count(bits, 0, k) == seen
  {
    k := start;
    StillInside(bits, k, hi);
    while !bits[k]
      invariant start <= k < hi && Count(bits, 0, k) == seen
      decreases hi - k
    {
      k := k + 1;
      StillInside(bits, k, hi);
    }
  }

  /** As long as not all set bits below `hi` have been passed, the walk has not left that range. */
  lemma StillInside(bits: seq<bool>, k: nat, hi: nat)
    requires k <= |bits| && hi <= |bits| && Count(bits, 0, k) < Count(bits, 0, hi)
    ensures k < hi
  {
    if hi <= k {
      CountSplit(bits, 0, hi, k);
    }
  }

  /** `malloc_bytes`: the free chunk to hand out; with guard pages on, a drawn number of free chunks past the first. */
  method Pick(c: Info, guarded: bool, draw: nat) returns (k: nat)
    requires ChunkOk(c) && c.free > 0
    ensures Usable(c, k) && c.bits[k]
    ensures Count(c.bits, 0, k) == if guarded then draw % c.free else 0
  {
    k := PickBit(c.bits, Words(c.bucket), PerPage(c.shift), c.free, if guarded then draw % c.free else 0);
  }
}
