/**
 What the generated wire codecs share: bytes, cursors, the three outcomes of parsing, the
 outcomes of encoding into a buffer of limited size, and the laws of counted lists.

 A parser reads a sequence of bytes from a position on.  An encoder is specified by what it
 emits: bytes, until it is done or comes upon something that its length field cannot hold.
 */
module Trunnel {

  type byte = x: int | 0 <= x < 0x100
  type u16 = x: int | 0 <= x < 0x1_0000
  type u32 = x: int | 0 <= x < 0x1_0000_0000

  type Bytes16 = s: seq<byte> | |s| == 16 witness seq(16, _ => 0)
  type Bytes20 = s: seq<byte> | |s| == 20 witness seq(20, _ => 0)
  type Bytes32 = s: seq<byte> | |s| == 32 witness seq(32, _ => 0)
  type Bytes64 = s: seq<byte> | |s| == 64 witness seq(64, _ => 0)

  function Zeros(n: nat): (s: seq<byte>)
    ensures |s| == n
  {
    seq(n, _ => 0)
  }

  // ------------------------------------------------------------ parsing

  /** Parsed up to `next`; or malformed (-1); or cut short (-2). */
  datatype Parsed<+T> = Ok(value: T, next: nat) | Bad | Short

  /** The number a parser returns, and with it the object: what it consumed from `start` on, -1 or -2. */
  ghost predicate Reports<T>(result: int, obj: T, p: Parsed<T>, start: nat) {
    match p
    case Ok(value, next) => obj == value && result == next - start && result >= 0
    case Bad => result == -1
    case Short => result == -2
  }

  function Bytes(b: seq<byte>, i: nat, n: nat): Parsed<seq<byte>> {
    if |b| < i + n then Short else Ok(b[i..i + n], i + n)
  }

  function U8(b: seq<byte>, i: nat): Parsed<byte> {
    if |b| < i + 1 then Short else Ok(b[i], i + 1)
  }

  function U16(b: seq<byte>, i: nat): Parsed<u16> {
    if |b| < i + 2 then Short else Ok(Get16(b[i], b[i + 1]), i + 2)
  }

  function U32(b: seq<byte>, i: nat): Parsed<u32> {
    if |b| < i + 4 then Short
    else Ok(Get32(Get16(b[i], b[i + 1]), Get16(b[i + 2], b[i + 3])), i + 4)
  }

  /**
   The number with these bytes, the more significant one first: `0x100` for each unit of `hi`.
   `Get16Value` has the closed form; layouts are compared without it.
   */
  function Get16(hi: byte, lo: byte): (x: int)
    ensures 0 <= x < 0x100 * hi + 0x100
    decreases hi
  {
    if hi == 0 then lo else 0x100 + Get16(hi - 1, lo)
  }

  function Get32(hi: u16, lo: u16): (x: int)
    ensures 0 <= x < 0x1_0000 * hi + 0x1_0000
    decreases hi
  {
    if hi == 0 then lo else 0x1_0000 + Get32(hi - 1, lo)
  }

  lemma {:induction false} Get16Value(hi: byte, lo: byte)
    ensures Get16(hi, lo) == 0x100 * hi as int + lo
    decreases hi
  {
    if hi > 0 {
      Get16Value(hi - 1, lo);
    }
  }

  lemma {:induction false} Get32Value(hi: u16, lo: u16)
    ensures Get32(hi, lo) == 0x1_0000 * hi as int + lo
    decreases hi
  {
    if hi > 0 {
      Get32Value(hi - 1, lo);
    }
  }

  lemma Get32Injective(hi: u16, lo: u16, hi': u16, lo': u16)
    ensures Get32(hi, lo) == Get32(hi', lo') <==> hi == hi' && lo == lo'
  {
    Get32Value(hi, lo);
    Get32Value(hi', lo');
  }

  /** The number `x` stands at position `i`, the most significant byte first. */
  predicate Int16(b: seq<byte>, i: nat, x: u16) {
    i + 2 <= |b| && x == 0x100 * b[i] as int + b[i + 1]
  }

  predicate Int32(b: seq<byte>, i: nat, x: u32) {
    i + 4 <= |b| && x == 0x100_0000 * b[i] as int + 0x1_0000 * b[i + 1] as int + 0x100 * b[i + 2] as int + b[i + 3]
  }

  lemma U16Value(b: seq<byte>, i: nat, x: u16)
    ensures U16(b, i) == Ok(x, i + 2) <==> Int16(b, i, x)
  {
    if i + 2 <= |b| {
      Get16Value(b[i], b[i + 1]);
    }
  }

  lemma U32Value(b: seq<byte>, i: nat, x: u32)
    ensures U32(b, i) == Ok(x, i + 4) <==> Int32(b, i, x)
  {
    if i + 4 <= |b| {
      Get16Value(b[i], b[i + 1]);
      Get16Value(b[i + 2], b[i + 3]);
      Get32Value(Get16(b[i], b[i + 1]), Get16(b[i + 2], b[i + 3]));
    }
  }

  /** The bytes of a number. */
  function Put16(x: u16): (s: seq<byte>)
    ensures |s| == 2 && Get16(s[0], s[1]) == x
    decreases x
  {
    if x < 0x100 then [0, x]
    else
      var s := Put16(x - 0x100);
      Get16Value(s[0], s[1]);
      [s[0] + 1, s[1]]
  }

  /** The halves of a number. */
  function Halves(x: u32): (p: (u16, u16))
    ensures Get32(p.0, p.1) == x
    decreases x
  {
    if x < 0x1_0000 then (0, x)
    else
      var p := Halves(x - 0x1_0000);
      Get32Value(p.0, p.1);
      (p.0 + 1, p.1)
  }

  function Put32(x: u32): (s: seq<byte>)
    ensures |s| == 4
  {
    Put16(Halves(x).0) + Put16(Halves(x).1)
  }

  /** Bytes `s` stand at position `i`. */
  predicate At(b: seq<byte>, i: nat, s: seq<byte>) {
    i + |s| <= |b| && b[i..i + |s|] == s
  }

  lemma AtConcat(b: seq<byte>, i: nat, s: seq<byte>, t: seq<byte>)
    ensures At(b, i, s + t) <==> At(b, i, s) && At(b, i + |s|, t)
  {
    if At(b, i, s + t) {
      assert b[i..i + |s|] == (s + t)[..|s|];
      assert b[i + |s|..i + |s| + |t|] == (s + t)[|s|..];
    }
    if At(b, i, s) && At(b, i + |s|, t) {
      assert b[i..i + |s + t|] == b[i..i + |s|] + b[i + |s|..i + |s| + |t|];
    }
  }

  lemma AtBytes(b: seq<byte>, i: nat, s: seq<byte>)
    ensures At(b, i, s) <==> Bytes(b, i, |s|) == Ok(s, i + |s|)
  {
  }

  lemma AtPut8(b: seq<byte>, i: nat, x: byte)
    ensures At(b, i, [x]) <==> U8(b, i) == Ok(x, i + 1)
  {
  }

  lemma AtPut16(b: seq<byte>, i: nat, x: u16)
    ensures At(b, i, Put16(x)) <==> U16(b, i) == Ok(x, i + 2)
  {
    if |b| >= i + 2 {
      var s := Put16(x);
      assert b[i..i + 2] == [b[i], b[i + 1]] && s == [s[0], s[1]];
      Get16Value(b[i], b[i + 1]);
      Get16Value(s[0], s[1]);
    }
  }

  lemma AtPut32(b: seq<byte>, i: nat, x: u32)
    ensures At(b, i, Put32(x)) <==> U32(b, i) == Ok(x, i + 4)
  {
    var (hi, lo) := Halves(x);
    AtConcat(b, i, Put16(hi), Put16(lo));
    AtPut16(b, i, hi);
    AtPut16(b, i + 2, lo);
    if |b| >= i + 4 {
      Get32Injective(Get16(b[i], b[i + 1]), Get16(b[i + 2], b[i + 3]), hi, lo);
    }
  }

  lemma SliceStable(b: seq<byte>, x: seq<byte>, i: nat, n: nat)
    requires i + n <= |b|
    ensures (b + x)[i..i + n] == b[i..i + n]
  {
  }

  // ------------------------------------------------------------ encoding

  /** The bytes written before an encoder is done (`ok`) or refuses what it was given. */
  datatype Emission = Emission(bytes: seq<byte>, ok: bool)

  const REFUSED := Emission([], false)

  function Plain(bytes: seq<byte>): Emission { Emission(bytes, true) }

  /** One emission, and another unless it was refused. */
  function Then(a: Emission, b: Emission): Emission {
    if a.ok then Emission(a.bytes + b.bytes, b.ok) else a
  }

  lemma AtThen(b: seq<byte>, i: nat, e: Emission, f: Emission)
    ensures Then(e, f).ok <==> e.ok && f.ok
    ensures e.ok && f.ok ==> |Then(e, f).bytes| == |e.bytes| + |f.bytes|
    ensures e.ok && f.ok ==> (At(b, i, Then(e, f).bytes) <==> At(b, i, e.bytes) && At(b, i + |e.bytes|, f.bytes))
  {
    AtConcat(b, i, e.bytes, f.bytes);
  }

  lemma AtThen3(b: seq<byte>, i: nat, e: Emission, f: Emission, g: Emission)
    ensures Then(e, Then(f, g)).ok <==> e.ok && f.ok && g.ok
    ensures e.ok && f.ok && g.ok ==> |Then(e, Then(f, g)).bytes| == |e.bytes| + |f.bytes| + |g.bytes|
    ensures e.ok && f.ok && g.ok ==>
      (At(b, i, Then(e, Then(f, g)).bytes) <==>
        At(b, i, e.bytes) && At(b, i + |e.bytes|, f.bytes) && At(b, i + |e.bytes| + |f.bytes|, g.bytes))
  {
    AtThen(b, i, e, Then(f, g));
    AtThen(b, i + |e.bytes|, f, g);
  }

  /** Bytes, a list and bytes, each where the one before it ends, are the three of them in a row. */
  lemma Assembled3(b: seq<byte>, i: nat, head: seq<byte>, f: Emission, tail: seq<byte>, j: nat)
    requires At(b, i, head) && RestoredAt(f, b, i + |head|, j) && At(b, j, tail)
    ensures RestoredAt(Then(Plain(head), Then(f, Plain(tail))), b, i, j + |tail|)
  {
    AtThen3(b, i, Plain(head), f, Plain(tail));
  }

  /** After `done`, an encoder goes on with `e` and then with the rest; or fails at `e`, and so on the whole. */
  lemma Onward(done: seq<byte>, e: Emission, rest: Emission, avail: nat)
    ensures e.ok ==> Then(Plain(done), Then(e, rest)) == Then(Plain(done + e.bytes), rest)
    ensures Result(e, avail) < 0 ==> Result(Then(Plain(done), Then(e, rest)), |done| + avail) == Result(e, avail)
  {
    if e.ok {
      assert done + (e.bytes + rest.bytes) == done + e.bytes + rest.bytes;
    }
  }

  /** The number an encoder returns. */
  function Result(e: Emission, avail: nat): int {
    if |e.bytes| > avail then -2 else if !e.ok then -1 else |e.bytes|
  }

  /** The output buffer of an encoder, of which `avail` bytes may be written. */
  class Writer {
    const output: array<byte>
    const avail: nat
    var written: nat

    ghost predicate Valid()
      reads this
    {
      written <= avail <= output.Length
    }

    constructor (output: array<byte>, avail: nat)
      requires avail <= output.Length
      ensures Valid() && this.output == output && this.avail == avail && written == 0
    {
      this.output, this.avail, written := output, avail, 0;
    }

    ghost function Contents(): seq<byte>
      requires Valid()
      reads this, output
    {
      output[..written]
    }

    /** The check for room, the copy and the advance that every field goes through. */
    method Put(bytes: seq<byte>) returns (ok: bool)
      requires Valid()
      modifies this`written, output
      ensures Valid() && ok == (old(written) + |bytes| <= avail)
      ensures Contents() == if ok then old(Contents()) + bytes else old(Contents())
      ensures output[avail..] == old(output[avail..])
    {
      if avail - written < |bytes| {
        return false;
      }
      var k := 0;
      while k < |bytes|
        invariant 0 <= k <= |bytes| && written == old(written)
        invariant output[..written + k] == old(output[..written]) + bytes[..k]
        invariant output[avail..] == old(output[avail..])
      {
        output[written + k] := bytes[k];
        k := k + 1;
      }
      written := written + |bytes|;
      return true;
    }

    /** Write back a byte, between what is before it and behind it. */
    method Patch(at: nat, x: byte, ghost front: seq<byte>, ghost was: byte, ghost back: seq<byte>)
      requires Valid() && Contents() == front + [was] + back && |front| == at
      modifies output
      ensures Valid() && Contents() == front + [x] + back
      ensures output[avail..] == old(output[avail..])
    {
      output[at] := x;
    }

    /** The same for two bytes, between what is before them and behind them. */
    method Patch16(at: nat, x: u16, ghost front: seq<byte>, ghost was: seq<byte>, ghost back: seq<byte>)
      requires Valid() && Contents() == front + was + back && |front| == at && |was| == 2
      modifies output
      ensures Valid() && Contents() == front + Put16(x) + back
      ensures output[avail..] == old(output[avail..])
    {
      output[at] := Put16(x)[0];
      output[at + 1] := Put16(x)[1];
    }
  }

  /** What an encoder did: it emitted `e` and returned `result`, and kept within `avail`. */
  twostate predicate Emitted(w: Writer, e: Emission, result: int)
    requires old(w.Valid())
    reads w, w.output
  {
    && w.Valid()
    && result == Result(e, w.avail - old(w.written))
    && (result >= 0 ==> w.Contents() == old(w.Contents()) + e.bytes)
    && w.output[w.avail..] == old(w.output[w.avail..])
  }

  // ------------------------------------------------------------ counted lists

  /** `n` elements, one after the other, behind those already parsed. */
  function Many<T>(parse: (seq<byte>, nat) -> Parsed<T>, n: nat, b: seq<byte>, i: nat, acc: seq<T>): Parsed<seq<T>> {
    if n == 0 then Ok(acc, i)
    else
      match parse(b, i)
      case Ok(v, j) => Many(parse, n - 1, b, j, acc + [v])
      case Bad => Bad
      case Short => Short
  }

  function EmitAll<T>(emit: T -> Emission, vs: seq<T>): Emission {
    if vs == [] then Plain([]) else Then(emit(vs[0]), EmitAll(emit, vs[1..]))
  }

  lemma Assoc(a: seq<byte>, b: seq<byte>, c: seq<byte>)
    ensures a + b + c == a + (b + c)
  {
  }

  lemma Nest3(was: seq<byte>, a: seq<byte>, b: seq<byte>, c: seq<byte>)
    ensures was + a + b + c == was + (a + (b + c))
  {
    Assoc(was + a, b, c);
    Assoc(was, a, b + c);
  }

  /** Unless it is cut short, a parse does not depend on what follows. */
  ghost predicate Stable<T(!new)>(parse: (seq<byte>, nat) -> Parsed<T>) {
    forall b: seq<byte>, x: seq<byte>, i: nat {:trigger parse(b + x, i)} ::
      !parse(b, i).Short? ==> parse(b + x, i) == parse(b, i)
  }

  /** Parsing what is emitted gives the value back, normalised. */
  ghost predicate Inverts<T(!new)>(parse: (seq<byte>, nat) -> Parsed<T>, emit: T -> Emission, norm: T -> T) {
    forall v, b, i: nat {:trigger At(b, i, emit(v).bytes)} ::
      emit(v).ok && At(b, i, emit(v).bytes) ==> parse(b, i) == Ok(norm(v), i + |emit(v).bytes|)
  }

  /** Emitting what was parsed gives the bytes back. */
  ghost predicate Restores<T(!new)>(parse: (seq<byte>, nat) -> Parsed<T>, emit: T -> Emission) {
    forall b, i: nat {:trigger parse(b, i)} ::
      parse(b, i).Ok? ==> RestoredAt(emit(parse(b, i).value), b, i, parse(b, i).next)
  }

  predicate RestoredAt(e: Emission, b: seq<byte>, i: nat, j: nat) {
    e.ok && At(b, i, e.bytes) && j == i + |e.bytes|
  }

  /** Element `k` was parsed from position `at[k]` up to `at[k + 1]`. */
  ghost predicate ParsedAt<T>(parse: (seq<byte>, nat) -> Parsed<T>, b: seq<byte>, at: seq<nat>, elts: seq<T>, k: nat)
    requires k < |elts| && |at| == |elts| + 1
  {
    parse(b, at[k]) == Ok(elts[k], at[k + 1])
  }

  /** The elements that a loop has parsed so far, with the positions where it was. */
  ghost predicate Trace<T>(parse: (seq<byte>, nat) -> Parsed<T>, b: seq<byte>, at: seq<nat>, elts: seq<T>) {
    |at| == |elts| + 1 && forall k: nat {:trigger ParsedAt(parse, b, at, elts, k)} ::
      k < |elts| ==> ParsedAt(parse, b, at, elts, k)
  }

  lemma TraceStep<T>(parse: (seq<byte>, nat) -> Parsed<T>, b: seq<byte>, at: seq<nat>, elts: seq<T>, result: int, v: T)
    requires Trace(parse, b, at, elts) && Reports(result, v, parse(b, at[|elts|]), at[|elts|]) && result >= 0
    ensures Trace(parse, b, at + [at[|elts|] + result], elts + [v])
  {
    var at', elts' := at + [at[|elts|] + result], elts + [v];
    forall k: nat {:trigger ParsedAt(parse, b, at', elts', k)} | k < |elts'| ensures ParsedAt(parse, b, at', elts', k) {
      assert k == |elts| || ParsedAt(parse, b, at, elts, k);
    }
  }

  /** What is left to parse, behind the elements of a trace. */
  lemma {:induction false} TraceMany<T>(parse: (seq<byte>, nat) -> Parsed<T>, n: nat, b: seq<byte>, at: seq<nat>,
        elts: seq<T>)
    requires Trace(parse, b, at, elts) && |elts| <= n
    ensures Many(parse, n, b, at[0], []) == Many(parse, n - |elts|, b, at[|elts|], elts)
    decreases |elts|
  {
    if elts != [] {
      var k: nat := |elts| - 1;
      var at', elts' := at[..k + 1], elts[..k];
      forall m: nat {:trigger ParsedAt(parse, b, at', elts', m)} | m < k ensures ParsedAt(parse, b, at', elts', m) {
        assert ParsedAt(parse, b, at, elts, m);
      }
      TraceMany(parse, n, b, at', elts');
      assert ParsedAt(parse, b, at, elts, k);
      assert elts' + [elts[k]] == elts;
    }
  }

  /** A trace of all elements is the result; and a failure behind a trace is that of the whole list. */
  lemma TraceEnds<T>(parse: (seq<byte>, nat) -> Parsed<T>, n: nat, b: seq<byte>, at: seq<nat>, elts: seq<T>)
    requires Trace(parse, b, at, elts) && |elts| == n
    ensures Many(parse, n, b, at[0], []) == Ok(elts, at[n])
  {
    TraceMany(parse, n, b, at, elts);
  }

  lemma TraceFails<T>(parse: (seq<byte>, nat) -> Parsed<T>, n: nat, b: seq<byte>, at: seq<nat>, elts: seq<T>,
        result: int, v: T)
    requires Trace(parse, b, at, elts) && |elts| < n && Reports(result, v, parse(b, at[|elts|]), at[|elts|]) &&
        result < 0
    ensures Reports(result, elts, Many(parse, n, b, at[0], []), at[0])
  {
    TraceMany(parse, n, b, at, elts);
  }

  lemma {:induction false} ManyStable<T(!new)>(parse: (seq<byte>, nat) -> Parsed<T>, n: nat, b: seq<byte>,
        x: seq<byte>, i: nat, acc: seq<T>)
    requires Stable(parse) && !Many(parse, n, b, i, acc).Short?
    ensures Many(parse, n, b + x, i, acc) == Many(parse, n, b, i, acc)
  {
    if n > 0 {
      assert parse(b + x, i) == parse(b, i);
      if parse(b, i).Ok? {
        ManyStable(parse, n - 1, b, x, parse(b, i).next, acc + [parse(b, i).value]);
      }
    }
  }

  lemma Regroup<T>(acc: seq<T>, v: T, more: seq<T>)
    ensures acc + [v] + more == acc + ([v] + more)
  {
  }

  function Normalised<T>(norm: T -> T, vs: seq<T>): seq<T> {
    if vs == [] then [] else [norm(vs[0])] + Normalised(norm, vs[1..])
  }

  lemma {:induction false} ManyInverts<T(!new)>(
      parse: (seq<byte>, nat) -> Parsed<T>, emit: T -> Emission, norm: T -> T, vs: seq<T>, b: seq<byte>, i: nat,
          acc: seq<T>)
    requires Inverts(parse, emit, norm) && EmitAll(emit, vs).ok && At(b, i, EmitAll(emit, vs).bytes)
    ensures Many(parse, |vs|, b, i, acc) == Ok(acc + Normalised(norm, vs), i + |EmitAll(emit, vs).bytes|)
  {
    if vs == [] {
      assert acc + Normalised(norm, vs) == acc;
    } else {
      var v, more := vs[0], EmitAll(emit, vs[1..]).bytes;
      AtConcat(b, i, emit(v).bytes, more);
      ManyInverts(parse, emit, norm, vs[1..], b, i + |emit(v).bytes|, acc + [norm(v)]);
      Regroup(acc, norm(v), Normalised(norm, vs[1..]));
    }
  }

  /** The elements parsed, behind those already there. */
  lemma {:induction false} ManyRestores<T(!new)>(
      parse: (seq<byte>, nat) -> Parsed<T>, emit: T -> Emission, n: nat, b: seq<byte>, i: nat, acc: seq<T>)
    requires i <= |b| && Restores(parse, emit) && Many(parse, n, b, i, acc).Ok?
    ensures var Ok(vs, j) := Many(parse, n, b, i, acc);
      |vs| == |acc| + n && vs[..|acc|] == acc && RestoredAt(EmitAll(emit, vs[|acc|..]), b, i, j)
  {
    var Ok(vs, j) := Many(parse, n, b, i, acc);
    if n == 0 {
      assert vs[|acc|..] == [];
    } else {
      var Ok(v, k) := parse(b, i);
      ManyRestores(parse, emit, n - 1, b, k, acc + [v]);
      assert vs[|acc|..] == [v] + vs[|acc| + 1..];
      assert acc == (acc + [v])[..|acc|];
      AtConcat(b, i, emit(v).bytes, EmitAll(emit, vs[|acc| + 1..]).bytes);
    }
  }

  // ------------------------------------------------------------ codecs

  /** The laws of a self-delimiting message. */
  ghost predicate Codec<T(!new)>(parse: (seq<byte>, nat) -> Parsed<T>, emit: T -> Emission, norm: T -> T) {
    Stable(parse) && Inverts(parse, emit, norm) && Restores(parse, emit)
  }

  function Same<T>(v: T): T { v }

  lemma {:induction false} NormalisedSame<T>(vs: seq<T>)
    ensures Normalised(Same, vs) == vs
  {
    if vs != [] {
      NormalisedSame(vs[1..]);
    }
  }

  /** A list is emitted whole if and only if each of its elements is. */
  lemma {:induction false} EmitAllIff<T>(emit: T -> Emission, vs: seq<T>)
    ensures EmitAll(emit, vs).ok <==> forall k :: 0 <= k < |vs| ==> emit(vs[k]).ok
  {
    if vs != [] {
      EmitAllIff(emit, vs[1..]);
      assert forall k :: 0 <= k < |vs| - 1 ==> vs[1..][k] == vs[k + 1];
      if forall k :: 0 <= k < |vs| ==> emit(vs[k]).ok {
        forall k | 0 <= k < |vs| - 1 ensures emit(vs[1..][k]).ok {
          assert emit(vs[k + 1]).ok;
        }
      }
      if EmitAll(emit, vs).ok {
        forall k | 0 <= k < |vs| ensures emit(vs[k]).ok {
          assert k == 0 || vs[k] == vs[1..][k - 1];
        }
      }
    }
  }

  /** The three laws for a counted list of elements that have them. */
  lemma ListStable<T(!new)>(parse: (seq<byte>, nat) -> Parsed<T>, emit: T -> Emission, norm: T -> T, n: nat,
        b: seq<byte>, x: seq<byte>, i: nat)
    requires Codec(parse, emit, norm) && !Many(parse, n, b, i, []).Short?
    ensures Many(parse, n, b + x, i, []) == Many(parse, n, b, i, [])
  {
    ManyStable(parse, n, b, x, i, []);
  }

  lemma ListInverts<T(!new)>(parse: (seq<byte>, nat) -> Parsed<T>, emit: T -> Emission, norm: T -> T, vs: seq<T>,
        b: seq<byte>, i: nat)
    requires Codec(parse, emit, norm) && EmitAll(emit, vs).ok && At(b, i, EmitAll(emit, vs).bytes)
    ensures Many(parse, |vs|, b, i, []) == Ok(Normalised(norm, vs), i + |EmitAll(emit, vs).bytes|)
  {
    ManyInverts(parse, emit, norm, vs, b, i, []);
    assert [] + Normalised(norm, vs) == Normalised(norm, vs);
  }

  lemma ListRestores<T(!new)>(parse: (seq<byte>, nat) -> Parsed<T>, emit: T -> Emission, norm: T -> T, n: nat,
        b: seq<byte>, i: nat)
    requires i <= |b| && Codec(parse, emit, norm) && Many(parse, n, b, i, []).Ok?
    ensures var Ok(vs, j) := Many(parse, n, b, i, []); |vs| == n && RestoredAt(EmitAll(emit, vs), b, i, j)
  {
    ManyRestores(parse, emit, n, b, i, []);
    var vs := Many(parse, n, b, i, []).value;
    assert vs[0..] == vs;
  }

  // ------------------------------------------------------------ formats

  /** What is parsed, and what is emitted, is laid out as `layout` says: from one position to another, for a value. */
  ghost predicate Format<T(!new)>(parse: (seq<byte>, nat) -> Parsed<T>, emit: T -> Emission,
        layout: (seq<byte>, nat, nat, T) -> bool) {
    && (forall b, i: nat {:trigger parse(b, i)} ::
      parse(b, i).Ok? ==> layout(b, i, parse(b, i).next, parse(b, i).value))
    && (forall v, b, i: nat {:trigger At(b, i, emit(v).bytes)} ::
      emit(v).ok && At(b, i, emit(v).bytes) ==> layout(b, i, i + |emit(v).bytes|, v))
  }

  /** Element `k` is laid out from position `at[k]` to `at[k + 1]`. */
  ghost predicate LaidAt<T>(layout: (seq<byte>, nat, nat, T) -> bool, b: seq<byte>, at: seq<nat>, vs: seq<T>, k: nat)
    requires k < |vs| && |at| == |vs| + 1
  {
    layout(b, at[k], at[k + 1], vs[k])
  }

  ghost predicate LaidOut<T>(layout: (seq<byte>, nat, nat, T) -> bool, b: seq<byte>, at: seq<nat>, vs: seq<T>) {
    |at| == |vs| + 1 && forall k: nat {:trigger LaidAt(layout, b, at, vs, k)} ::
      k < |vs| ==> LaidAt(layout, b, at, vs, k)
  }

  /** The elements one after the other, from position `i` to `j`. */
  ghost predicate ListFrom<T>(layout: (seq<byte>, nat, nat, T) -> bool, b: seq<byte>, i: nat, j: nat, vs: seq<T>) {
    exists at {:trigger LaidOut(layout, b, at, vs)} :: LaidOut(layout, b, at, vs) && at[0] == i && at[|vs|] == j
  }

  lemma LaidInFront<T>(layout: (seq<byte>, nat, nat, T) -> bool, b: seq<byte>, i: nat, at: seq<nat>, v: T, vs: seq<T>)
    requires LaidOut(layout, b, at, vs) && layout(b, i, at[0], v)
    ensures LaidOut(layout, b, [i] + at, [v] + vs)
  {
    var at', vs' := [i] + at, [v] + vs;
    forall k: nat {:trigger LaidAt(layout, b, at', vs', k)} | k < |vs'| ensures LaidAt(layout, b, at', vs', k) {
      assert k == 0 || LaidAt(layout, b, at, vs, k - 1);
    }
  }

  /** A counted list is laid out element by element. */
  lemma {:induction false} ManyFormat<T(!new)>(parse: (seq<byte>, nat) -> Parsed<T>, emit: T -> Emission,
        layout: (seq<byte>, nat, nat, T) -> bool, n: nat, b: seq<byte>, i: nat, acc: seq<T>)
      returns (at: seq<nat>)
    requires Format(parse, emit, layout) && Many(parse, n, b, i, acc).Ok?
    ensures var Ok(vs, j) := Many(parse, n, b, i, acc);
      |vs| == |acc| + n && acc <= vs && LaidOut(layout, b, at, vs[|acc|..]) && at[0] == i && at[n] == j
  {
    var Ok(vs, j) := Many(parse, n, b, i, acc);
    if n == 0 {
      at := [i];
      assert vs[|acc|..] == [];
    } else {
      var Ok(v, k) := parse(b, i);
      at := ManyFormat(parse, emit, layout, n - 1, b, k, acc + [v]);
      assert vs[|acc|..] == [v] + vs[|acc| + 1..];
      LaidInFront(layout, b, i, at, v, vs[|acc| + 1..]);
      at := [i] + at;
    }
  }

  lemma {:induction false} EmitAllFormat<T(!new)>(parse: (seq<byte>, nat) -> Parsed<T>, emit: T -> Emission,
        layout: (seq<byte>, nat, nat, T) -> bool, vs: seq<T>, b: seq<byte>, i: nat)
      returns (at: seq<nat>)
    requires Format(parse, emit, layout) && EmitAll(emit, vs).ok && At(b, i, EmitAll(emit, vs).bytes)
    ensures LaidOut(layout, b, at, vs) && at[0] == i && at[|vs|] == i + |EmitAll(emit, vs).bytes|
  {
    if vs == [] {
      at := [i];
    } else {
      var e := emit(vs[0]);
      AtConcat(b, i, e.bytes, EmitAll(emit, vs[1..]).bytes);
      at := EmitAllFormat(parse, emit, layout, vs[1..], b, i + |e.bytes|);
      assert vs == [vs[0]] + vs[1..];
      LaidInFront(layout, b, i, at, vs[0], vs[1..]);
      at := [i] + at;
    }
  }

  lemma ListFormat<T(!new)>(parse: (seq<byte>, nat) -> Parsed<T>, emit: T -> Emission,
        layout: (seq<byte>, nat, nat, T) -> bool, n: nat, b: seq<byte>, i: nat)
    requires Format(parse, emit, layout) && Many(parse, n, b, i, []).Ok?
    ensures var Ok(vs, j) := Many(parse, n, b, i, []); |vs| == n && ListFrom(layout, b, i, j, vs)
  {
    var at := ManyFormat(parse, emit, layout, n, b, i, []);
    var vs := Many(parse, n, b, i, []).value;
    assert vs[0..] == vs;
  }

  lemma EmittedFormat<T(!new)>(parse: (seq<byte>, nat) -> Parsed<T>, emit: T -> Emission,
        layout: (seq<byte>, nat, nat, T) -> bool, vs: seq<T>, b: seq<byte>, i: nat)
    requires Format(parse, emit, layout) && EmitAll(emit, vs).ok && At(b, i, EmitAll(emit, vs).bytes)
    ensures ListFrom(layout, b, i, i + |EmitAll(emit, vs).bytes|, vs)
  {
    var at := EmitAllFormat(parse, emit, layout, vs, b, i);
  }

  /** A list fails exactly as the first of its elements that fails. */
  lemma {:induction false} ManyFails<T>(parse: (seq<byte>, nat) -> Parsed<T>, n: nat, b: seq<byte>, i: nat, acc: seq<T>)
      returns (at: seq<nat>, elts: seq<T>)
    requires !Many(parse, n, b, i, acc).Ok?
    ensures |elts| < n && Trace(parse, b, at, elts) && at[0] == i
    ensures parse(b, at[|elts|]).Bad? <==> Many(parse, n, b, i, acc).Bad?
    ensures parse(b, at[|elts|]).Short? <==> Many(parse, n, b, i, acc).Short?
  {
    if parse(b, i).Ok? {
      var Ok(v, j) := parse(b, i);
      at, elts := ManyFails(parse, n - 1, b, j, acc + [v]);
      var at', elts' := [i] + at, [v] + elts;
      forall k: nat {:trigger ParsedAt(parse, b, at', elts', k)} | k < |elts'|
        ensures ParsedAt(parse, b, at', elts', k)
      {
        assert k == 0 || ParsedAt(parse, b, at, elts, k - 1);
      }
      at, elts := at', elts';
    } else {
      at, elts := [i], [];
    }
  }

  /** Parsing an encoding, whatever follows it, gives back the object and where the encoding ends. */
  lemma RoundTrip<T(!new)>(parse: (seq<byte>, nat) -> Parsed<T>, emit: T -> Emission, norm: T -> T, v: T,
        rest: seq<byte>)
    requires Codec(parse, emit, norm) && emit(v).ok
    ensures parse(emit(v).bytes + rest, 0) == Ok(norm(v), |emit(v).bytes|)
  {
    assert At(emit(v).bytes + rest, 0, emit(v).bytes);
  }

  /** Encoding a parsed object gives back the bytes it was parsed from. */
  lemma ByteExact<T(!new)>(parse: (seq<byte>, nat) -> Parsed<T>, emit: T -> Emission, norm: T -> T, b: seq<byte>)
    requires Codec(parse, emit, norm) && parse(b, 0).Ok?
    ensures parse(b, 0).next <= |b| && emit(parse(b, 0).value) == Plain(b[..parse(b, 0).next])
  {
  }

  /** A longer input gives the same; and every strict prefix is cut short, never malformed. */
  lemma SelfDelimiting<T(!new)>(parse: (seq<byte>, nat) -> Parsed<T>, emit: T -> Emission, norm: T -> T,
        b: seq<byte>, c: seq<byte>)
    requires Codec(parse, emit, norm) && parse(b, 0).Ok?
    ensures var n := parse(b, 0).next;
      n <= |b| && (n <= |c| && c[..n] == b[..n] ==>
          parse(c, 0) == parse(b, 0)) && (|c| < n && c == b[..|c|] ==> parse(c, 0) == Short)
  {
    var Ok(v, n) := parse(b, 0);
    ByteExact(parse, emit, norm, b);
    assert At(b, 0, emit(v).bytes);
    if n <= |c| && c[..n] == b[..n] {
      assert At(c, 0, emit(v).bytes);
    } else if |c| < n && c == b[..|c|] {
      assert b == c + b[|c|..];
      assert parse(c + b[|c|..], 0) == parse(b, 0);
    }
  }
}
