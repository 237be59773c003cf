/**
 Netinfo cells.

 An address of an unknown type is skipped by the parser, which keeps its type and length but not
 its bytes; the encoder then writes it with length 0.  So parsing and encoding again gives back
 the same bytes only where every address is known or empty, and is stable from then on.
 */
module Netinfo {
  import opened Trunnel

  const TYPE_IPV4: byte := 4
  const TYPE_IPV6: byte := 6

  // ------------------------------------------------------------ netinfo_addr

  datatype Addr = Addr(addrType: byte, len: byte, ipv4: u32, ipv6: Bytes16)

  predicate Known(v: Addr) { v.addrType == TYPE_IPV4 || v.addrType == TYPE_IPV6 }

  function AddrBody(v: Addr): (s: seq<byte>)
    ensures |s| <= 16
  {
    if v.addrType == TYPE_IPV4 then Put32(v.ipv4) else if v.addrType == TYPE_IPV6 then v.ipv6 else []
  }

  /** Only the active arm, and the length field that it is given. */
  function NormAddr(v: Addr): Addr {
    Addr(v.addrType, |AddrBody(v)|,
      if v.addrType == TYPE_IPV4 then v.ipv4 else 0,
      if v.addrType == TYPE_IPV6 then v.ipv6 else Zeros(16))
  }

  function EmitAddr(v: Addr): Emission {
    Then(Plain([v.addrType, |AddrBody(v)|]), Plain(AddrBody(v)))
  }

  /** The union, from exactly the bytes that the length field gives it. */
  function AddrOf(t: byte, n: byte, body: seq<byte>, next: nat): Parsed<Addr> {
    if t == TYPE_IPV4 then
      if |body| != 4 then Bad else Ok(Addr(t, n, U32(body, 0).value, Zeros(16)), next)
    else if t == TYPE_IPV6 then
      if |body| != 16 then Bad else Ok(Addr(t, n, 0, body), next)
    else Ok(Addr(t, n, 0, Zeros(16)), next)
  }

  function ParseAddr(b: seq<byte>, i: nat): Parsed<Addr> {
    if |b| < i + 2 || |b| < i + 2 + b[i + 1] then Short
    else AddrOf(b[i], b[i + 1], b[i + 2..i + 2 + b[i + 1]], i + 2 + b[i + 1])
  }

  lemma AddrStable(b: seq<byte>, x: seq<byte>, i: nat)
    requires !ParseAddr(b, i).Short?
    ensures ParseAddr(b + x, i) == ParseAddr(b, i)
  {
    SliceStable(b, x, i + 2, b[i + 1]);
  }

  lemma AddrInverts(v: Addr, b: seq<byte>, i: nat)
    requires At(b, i, EmitAddr(v).bytes)
    ensures ParseAddr(b, i) == Ok(NormAddr(v), i + |EmitAddr(v).bytes|)
  {
    var body := AddrBody(v);
    AtThen(b, i, Plain([v.addrType, |body|]), Plain(body));
    assert b[i..i + 2][0] == v.addrType && b[i..i + 2][1] == |body|;
    AtPut32(body, 0, v.ipv4);
  }

  /** The bytes of an address come back exactly when its type is known or it has none. */
  predicate Faithful(v: Addr) { Known(v) || v.len == 0 }

  /**
   Encoding a parsed address takes no more bytes than it was parsed from, and the same ones if and
   only if it is faithful.
   */
  lemma AddrRestoresIff(b: seq<byte>, i: nat)
    requires ParseAddr(b, i).Ok?
    ensures var Ok(v, j) := ParseAddr(b, i);
      && j <= |b| && |EmitAddr(v).bytes| <= j - i
      && (Faithful(v) ==> RestoredAt(EmitAddr(v), b, i, j))
      && (!Faithful(v) ==> |EmitAddr(v).bytes| < j - i)
  {
    var Ok(v, j) := ParseAddr(b, i);
    var body := b[i + 2..j];
    assert b[i..i + 2] == [v.addrType, v.len];
    if v.addrType == TYPE_IPV4 {
      AtPut32(body, 0, v.ipv4);
      assert body[0..4] == body;
    }
    AtThen(b, i, Plain([v.addrType, |AddrBody(v)|]), Plain(AddrBody(v)));
  }

  /**
   What is encoded is parsed to the normal form, and that encodes and parses to itself; its length
   is 0 if the type is unknown.
   */
  lemma AddrSettles(v: Addr)
    ensures EmitAddr(NormAddr(v)) == EmitAddr(v) && NormAddr(NormAddr(v)) == NormAddr(v) && Faithful(NormAddr(v))
    ensures ParseAddr(EmitAddr(v).bytes, 0) == Ok(NormAddr(v), |EmitAddr(v).bytes|)
    ensures !Known(v) ==> NormAddr(v).len == 0
  {
    AddrInverts(v, EmitAddr(v).bytes, 0);
  }

  lemma AddrLaws()
    ensures Stable(ParseAddr) && Inverts(ParseAddr, EmitAddr, NormAddr)
  {
    forall b: seq<byte>, x: seq<byte>, i: nat | !ParseAddr(b, i).Short? ensures ParseAddr(b + x, i) == ParseAddr(b, i) {
      AddrStable(b, x, i);
    }
    forall v, b, i: nat | EmitAddr(v).ok && At(b, i, EmitAddr(v).bytes)
      ensures ParseAddr(b, i) == Ok(NormAddr(v), i + |EmitAddr(v).bytes|)
    {
      AddrInverts(v, b, i);
    }
  }

  method EncodeAddr(w: Writer, obj: Addr) returns (result: int)
    requires w.Valid()
    modifies w`written, w.output
    ensures Emitted(w, EmitAddr(obj), result)
  {
    var start := w.written;
    ghost var was, body := w.Contents(), AddrBody(obj);
    var ok := w.Put([obj.addrType]);
    if !ok {
      return -2;
    }
    var backptr := w.written;
    ok := w.Put([obj.len]);
    if !ok {
      return -2;
    }
    var before := w.written;
    if obj.addrType == TYPE_IPV4 {
      ok := w.Put(Put32(obj.ipv4));
      if !ok {
        return -2;
      }
    } else if obj.addrType == TYPE_IPV6 {
      ok := w.Put(obj.ipv6);
      if !ok {
        return -2;
      }
    }
    if w.written - before > 0xff {
      return -1;
    }
    assert w.Contents() == was + [obj.addrType] + [obj.len] + body;
    w.Patch(backptr, w.written - before, was + [obj.addrType], obj.len, body);
    assert [obj.addrType] + [|body|] == [obj.addrType, |body|];
    Assoc(was, [obj.addrType], [|body|]);
    Assoc(was, [obj.addrType, |body|], body);
    return w.written - start;
  }

  method ReadAddr(input: seq<byte>, start: nat) returns (result: int, obj: Addr)
    requires start <= |input|
    ensures Reports(result, obj, ParseAddr(input, start), start) && start + result <= |input|
  {
    obj := Addr(0, 0, 0, Zeros(16));
    var ptr, remaining := start, |input| - start;
    if remaining < 1 {
      return -2, obj;
    }
    obj := obj.(addrType := input[ptr]);
    remaining, ptr := remaining - 1, ptr + 1;
    if remaining < 1 {
      return -2, obj;
    }
    obj := obj.(len := input[ptr]);
    remaining, ptr := remaining - 1, ptr + 1;
    if remaining < obj.len {
      return -2, obj;
    }
    var remainingAfter := remaining - obj.len;
    remaining := obj.len;
    ghost var body := input[ptr..ptr + obj.len];
    if obj.addrType == TYPE_IPV4 {
      if remaining < 4 {
        return -1, obj;
      }
      assert forall k :: 0 <= k < 4 ==> body[k] == input[ptr + k];
      obj := obj.(ipv4 := Get32(Get16(input[ptr], input[ptr + 1]), Get16(input[ptr + 2], input[ptr + 3])));
      remaining, ptr := remaining - 4, ptr + 4;
    } else if obj.addrType == TYPE_IPV6 {
      if remaining < 16 {
        return -1, obj;
      }
      obj := obj.(ipv6 := input[ptr..ptr + 16]);
      remaining, ptr := remaining - 16, ptr + 16;
    } else {
      ptr, remaining := ptr + remaining, 0;
    }
    if remaining != 0 {
      return -1, obj;
    }
    return |input| - start - remainingAfter, obj;
  }

  // ------------------------------------------------------------ netinfo_cell

  datatype Cell = Cell(timestamp: u32, otherAddr: Addr, nMyAddrs: byte, myAddrs: seq<Addr>)

  predicate CheckCell(v: Cell) { |v.myAddrs| == v.nMyAddrs }

  function NormCell(v: Cell): Cell {
    v.(otherAddr := NormAddr(v.otherAddr), myAddrs := Normalised(NormAddr, v.myAddrs))
  }

  function EmitCell(v: Cell): Emission {
    if !CheckCell(v) then REFUSED
    else
      var mine := Then(Plain([v.nMyAddrs]), EmitAll(EmitAddr, v.myAddrs));
      Then(Plain(Put32(v.timestamp)), Then(EmitAddr(v.otherAddr), mine))
  }

  function ParseCell(b: seq<byte>, i: nat): Parsed<Cell> {
    if |b| < i + 4 then Short
    else
      match ParseAddr(b, i + 4)
      case Bad => Bad
      case Short => Short
      case Ok(other, j) =>
        if |b| < j + 1 then Short
        else
          match Many(ParseAddr, b[j], b, j + 1, [])
          case Bad => Bad
          case Short => Short
          case Ok(mine, k) => Ok(Cell(U32(b, i).value, other, b[j], mine), k)
  }

  lemma CellFrom(b: seq<byte>, i: nat, v: Cell, j: nat, k: nat)
    requires U32(b, i) == Ok(v.timestamp, i + 4) && ParseAddr(b, i + 4) == Ok(v.otherAddr, j)
    requires U8(b, j) == Ok(v.nMyAddrs, j + 1) && Many(ParseAddr, v.nMyAddrs, b, j + 1, []) == Ok(v.myAddrs, k)
    ensures ParseCell(b, i) == Ok(v, k)
  {
  }

  lemma CellStable(b: seq<byte>, x: seq<byte>, i: nat)
    requires !ParseCell(b, i).Short?
    ensures ParseCell(b + x, i) == ParseCell(b, i)
  {
    AddrStable(b, x, i + 4);
    var other := ParseAddr(b, i + 4);
    if other.Ok? {
      var j := other.next;
      assert Many(ParseAddr, b[j], b + x, j + 1, []) == Many(ParseAddr, b[j], b, j + 1, []) by {
        AddrLaws();
        ManyStable(ParseAddr, b[j], b, x, j + 1, []);
      }
    }
  }

  /** The parts of an encoded cell, where it stands. */
  lemma CellParts(b: seq<byte>, i: nat, t: Emission, other: Emission, n: Emission, mine: Emission)
    requires t.ok && other.ok && n.ok && mine.ok
    ensures Then(t, Then(other, Then(n, mine))).ok
    ensures |Then(t, Then(other, Then(n, mine))).bytes| == |t.bytes| + |other.bytes| + |n.bytes| + |mine.bytes|
    ensures At(b, i, Then(t, Then(other, Then(n, mine))).bytes) <==>
      && At(b, i, t.bytes) && At(b, i + |t.bytes|, other.bytes)
      && At(b, i + |t.bytes| + |other.bytes|, n.bytes) && At(b, i + |t.bytes| + |other.bytes| + |n.bytes|, mine.bytes)
  {
    AtThen(b, i, t, Then(other, Then(n, mine)));
    AtThen3(b, i + |t.bytes|, other, n, mine);
  }

  lemma AddrsInvert(vs: seq<Addr>, b: seq<byte>, i: nat)
    requires At(b, i, EmitAll(EmitAddr, vs).bytes)
    ensures Many(ParseAddr, |vs|, b, i, []) == Ok(Normalised(NormAddr, vs), i + |EmitAll(EmitAddr, vs).bytes|)
  {
    AllAddrs(vs);
    AddrLaws();
    ManyInverts(ParseAddr, EmitAddr, NormAddr, vs, b, i, []);
    assert [] + Normalised(NormAddr, vs) == Normalised(NormAddr, vs);
  }

  lemma CellInverts(v: Cell, b: seq<byte>, i: nat)
    requires EmitCell(v).ok && At(b, i, EmitCell(v).bytes)
    ensures ParseCell(b, i) == Ok(NormCell(v), i + |EmitCell(v).bytes|)
  {
    var other, mine := EmitAddr(v.otherAddr), EmitAll(EmitAddr, v.myAddrs);
    var j := i + 4 + |other.bytes|;
    CellAt(v, b, i);
    AddrInverts(v.otherAddr, b, i + 4);
    AddrsInvert(v.myAddrs, b, j + 1);
    CellFrom(b, i, NormCell(v), j, j + 1 + |mine.bytes|);
  }

  lemma CellAt(v: Cell, b: seq<byte>, i: nat)
    requires EmitCell(v).ok && At(b, i, EmitCell(v).bytes)
    ensures var other, mine := EmitAddr(v.otherAddr), EmitAll(EmitAddr, v.myAddrs);
      var j := i + 4 + |other.bytes|;
      && CheckCell(v) && |EmitCell(v).bytes| == 5 + |other.bytes| + |mine.bytes|
      && U32(b, i) == Ok(v.timestamp, i + 4) && U8(b, j) == Ok(v.nMyAddrs, j + 1)
      && At(b, i + 4, other.bytes) && At(b, j + 1, mine.bytes)
  {
    var other, mine := EmitAddr(v.otherAddr), EmitAll(EmitAddr, v.myAddrs);
    AllAddrs(v.myAddrs);
    CellParts(b, i, Plain(Put32(v.timestamp)), other, Plain([v.nMyAddrs]), mine);
    AtPut32(b, i, v.timestamp);
    AtPut8(b, i + 4 + |other.bytes|, v.nMyAddrs);
  }

  /** Addresses are never refused. */
  lemma {:induction false} AllAddrs(vs: seq<Addr>)
    ensures EmitAll(EmitAddr, vs).ok
  {
    if vs != [] {
      AllAddrs(vs[1..]);
    }
  }

  predicate AllFaithful(vs: seq<Addr>) { forall k :: 0 <= k < |vs| ==> Faithful(vs[k]) }

  /** A list of parsed addresses, behind those already there: as for a single one. */
  lemma {:induction false} AddrsRestoreIff(n: nat, b: seq<byte>, i: nat, acc: seq<Addr>)
    requires i <= |b| && Many(ParseAddr, n, b, i, acc).Ok?
    ensures var Ok(vs, j) := Many(ParseAddr, n, b, i, acc);
      && |vs| == |acc| + n && vs[..|acc|] == acc && j <= |b|
      && var mine := vs[|acc|..]; var e := EmitAll(EmitAddr, mine);
      && |e.bytes| <= j - i
      && (AllFaithful(mine) ==> RestoredAt(e, b, i, j))
      && (!AllFaithful(mine) ==> |e.bytes| < j - i)
  {
    var Ok(vs, j) := Many(ParseAddr, n, b, i, acc);
    if n == 0 {
      assert vs[|acc|..] == [];
    } else {
      var Ok(v, k) := ParseAddr(b, i);
      AddrRestoresIff(b, i);
      AddrsRestoreIff(n - 1, b, k, acc + [v]);
      var more := vs[|acc| + 1..];
      assert acc == (acc + [v])[..|acc|];
      FirstAndMore(vs[|acc|..], v, more);
      AllAddrs(more);
      AtThen(b, i, EmitAddr(v), EmitAll(EmitAddr, more));
    }
  }

  lemma FirstAndMore(vs: seq<Addr>, v: Addr, more: seq<Addr>)
    requires vs == [v] + more
    ensures EmitAll(EmitAddr, vs) == Then(EmitAddr(v), EmitAll(EmitAddr, more))
    ensures AllFaithful(vs) <==> Faithful(v) && AllFaithful(more)
  {
    assert vs[0] == v && vs[1..] == more;
    assert forall k :: 0 <= k < |more| ==> vs[k + 1] == more[k];
  }

  /** Encoding a parsed cell gives back its bytes if and only if every address in it is faithful. */
  lemma CellRestoresIff(b: seq<byte>, i: nat)
    requires ParseCell(b, i).Ok?
    ensures var Ok(v, j) := ParseCell(b, i);
      && j <= |b|
      && (RestoredAt(EmitCell(v), b, i, j) <==> Faithful(v.otherAddr) && AllFaithful(v.myAddrs))
  {
    var Ok(v, j) := ParseCell(b, i);
    var k := ParseAddr(b, i + 4).next;
    var other, mine := EmitAddr(v.otherAddr), EmitAll(EmitAddr, v.myAddrs);
    AddrRestoresIff(b, i + 4);
    AddrsRestoreIff(b[k], b, k + 1, []);
    assert v.myAddrs[0..] == v.myAddrs;
    AllAddrs(v.myAddrs);
    AtPut32(b, i, v.timestamp);
    AtPut8(b, k, v.nMyAddrs);
    CellParts(b, i, Plain(Put32(v.timestamp)), other, Plain([v.nMyAddrs]), mine);
  }

  method EncodeAddrs(w: Writer, addrs: seq<Addr>) returns (result: int)
    requires w.Valid()
    modifies w`written, w.output
    ensures Emitted(w, EmitAll(EmitAddr, addrs), result)
  {
    var start := w.written;
    ghost var was, done := w.Contents(), [];
    var idx := 0;
    assert addrs[0..] == addrs;
    while idx < |addrs|
      invariant w.Valid() && 0 <= idx <= |addrs| && w.written == start + |done|
      invariant w.Contents() == was + done && w.output[w.avail..] == old(w.output[w.avail..])
      invariant EmitAll(EmitAddr, addrs) == Then(Plain(done), EmitAll(EmitAddr, addrs[idx..]))
    {
      ghost var e := EmitAddr(addrs[idx]);
      assert addrs[idx..][1..] == addrs[idx + 1..];
      Onward(done, e, EmitAll(EmitAddr, addrs[idx + 1..]), w.avail - w.written);
      Assoc(was, done, e.bytes);
      result := EncodeAddr(w, addrs[idx]);
      if result < 0 {
        return;
      }
      done := done + e.bytes;
      idx := idx + 1;
    }
    return w.written - start;
  }

  method EncodeCell(w: Writer, obj: Cell) returns (result: int)
    requires w.Valid()
    modifies w`written, w.output
    ensures Emitted(w, EmitCell(obj), result)
  {
    if |obj.myAddrs| != obj.nMyAddrs {
      return -1;
    }
    var start := w.written;
    ghost var was, t, n := w.Contents(), Put32(obj.timestamp), [obj.nMyAddrs];
    ghost var other, mine := EmitAddr(obj.otherAddr), EmitAll(EmitAddr, obj.myAddrs);
    var ok := w.Put(Put32(obj.timestamp));
    if !ok {
      return -2;
    }
    Assoc(was, t, other.bytes);
    result := EncodeAddr(w, obj.otherAddr);
    if result < 0 {
      return;
    }
    ok := w.Put([obj.nMyAddrs]);
    if !ok {
      return -2;
    }
    result := EncodeAddrs(w, obj.myAddrs);
    AllAddrs(obj.myAddrs);
    if result < 0 {
      return;
    }
    CellNests(was, t, other.bytes, n, mine.bytes);
    return w.written - start;
  }

  lemma CellNests(was: seq<byte>, a: seq<byte>, b: seq<byte>, c: seq<byte>, d: seq<byte>)
    ensures was + a + b + c + d == was + (a + (b + (c + d)))
  {
    Assoc(was + a + b, c, d);
    Assoc(was + a, b, c + d);
    Assoc(was, a, b + (c + d));
  }

  method ReadAddrs(input: seq<byte>, start: nat, n: nat) returns (result: int, elts: seq<Addr>)
    requires start <= |input|
    ensures Reports(result, elts, Many(ParseAddr, n, input, start, []), start) && start + result <= |input|
  {
    elts := [];
    var ptr, idx := start, 0;
    ghost var at: seq<nat> := [start];
    while idx < n
      invariant 0 <= idx == |elts| <= n && start <= ptr <= |input|
      invariant Trace(ParseAddr, input, at, elts) && at[0] == start && at[idx] == ptr
    {
      var elt;
      result, elt := ReadAddr(input, ptr);
      if result < 0 {
        TraceFails(ParseAddr, n, input, at, elts, result, elt);
        return;
      }
      TraceStep(ParseAddr, input, at, elts, result, elt);
      ptr := ptr + result;
      at, elts := at + [ptr], elts + [elt];
      idx := idx + 1;
    }
    TraceEnds(ParseAddr, n, input, at, elts);
    return ptr - start, elts;
  }

  method ReadCell(input: seq<byte>, start: nat) returns (result: int, obj: Cell)
    requires start <= |input|
    ensures Reports(result, obj, ParseCell(input, start), start)
  {
    obj := Cell(0, Addr(0, 0, 0, Zeros(16)), 0, []);
    var ptr, remaining := start, |input| - start;
    if remaining < 4 {
      return -2, obj;
    }
    obj := obj.(timestamp := Get32(Get16(input[ptr], input[ptr + 1]), Get16(input[ptr + 2], input[ptr + 3])));
    remaining, ptr := remaining - 4, ptr + 4;
    var other;
    result, other := ReadAddr(input, ptr);
    if result < 0 {
      return;
    }
    obj := obj.(otherAddr := other);
    remaining, ptr := remaining - result, ptr + result;
    if remaining < 1 {
      return -2, obj;
    }
    obj := obj.(nMyAddrs := input[ptr]);
    remaining, ptr := remaining - 1, ptr + 1;
    var mine;
    result, mine := ReadAddrs(input, ptr, obj.nMyAddrs);
    if result < 0 {
      return;
    }
    obj := obj.(myAddrs := mine);
    return ptr + result - start, obj;
  }

  /** What is encoded is parsed to the normal form, which encodes to the same bytes again. */
  lemma CellSettles(v: Cell)
    requires CheckCell(v)
    ensures EmitCell(v).ok && ParseCell(EmitCell(v).bytes, 0) == Ok(NormCell(v), |EmitCell(v).bytes|)
    ensures EmitCell(NormCell(v)) == EmitCell(v)
  {
    AllAddrs(v.myAddrs);
    CellInverts(v, EmitCell(v).bytes, 0);
    AddrSettles(v.otherAddr);
    AddrsSettle(v.myAddrs);
  }

  lemma {:induction false} AddrsSettle(vs: seq<Addr>)
    ensures |Normalised(NormAddr, vs)| == |vs| && EmitAll(EmitAddr, Normalised(NormAddr, vs)) == EmitAll(EmitAddr, vs)
  {
    if vs != [] {
      AddrSettles(vs[0]);
      AddrsSettle(vs[1..]);
      assert Normalised(NormAddr, vs)[1..] == Normalised(NormAddr, vs[1..]);
    }
  }

  /** Every strict prefix of a parsed cell is cut short, never malformed. */
  lemma CellPrefixIsShort(b: seq<byte>, k: nat)
    requires ParseCell(b, 0).Ok? && k < ParseCell(b, 0).next
    ensures k < |b| && ParseCell(b[..k], 0) == Short
  {
    CellRestoresIff(b, 0);
    assert b == b[..k] + b[k..];
    if !ParseCell(b[..k], 0).Short? {
      CellStable(b[..k], b[k..], 0);
      CellRestoresIff(b[..k], 0);
    }
  }

  function EncodedLenAddr(v: Addr): (n: nat)
    ensures n == |EmitAddr(v).bytes|
  {
    if v.addrType == TYPE_IPV4 then 1 + 1 + 4 else if v.addrType == TYPE_IPV6 then 1 + 1 + 16 else 1 + 1
  }

  method EncodedLenCell(obj: Cell) returns (result: int)
    ensures result == if CheckCell(obj) then |EmitCell(obj).bytes| else -1
  {
    if |obj.myAddrs| != obj.nMyAddrs {
      return -1;
    }
    result := 4 + EncodedLenAddr(obj.otherAddr) + 1;
    ghost var base := result;
    AllAddrs(obj.myAddrs);
    assert obj.myAddrs[0..] == obj.myAddrs;
    for idx := 0 to |obj.myAddrs|
      invariant EmitAll(EmitAddr, obj.myAddrs).ok ==> EmitAll(EmitAddr, obj.myAddrs[idx..]).ok
      invariant EmitAll(EmitAddr, obj.myAddrs).ok ==>
          result + |EmitAll(EmitAddr, obj.myAddrs[idx..]).bytes| == base + |EmitAll(EmitAddr, obj.myAddrs).bytes|
    {
      assert obj.myAddrs[idx..][1..] == obj.myAddrs[idx + 1..];
      result := result + EncodedLenAddr(obj.myAddrs[idx]);
    }
    assert obj.myAddrs[|obj.myAddrs|..] == [];
  }
}
