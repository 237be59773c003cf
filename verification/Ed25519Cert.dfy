/**
 Link specifiers, the bodies of CREATE2 and EXTEND2 cells, and Ed25519 certificates with their
 extensions.

 A structure with a union holds all arms of it at once; the type field says which one counts,
 and the length field is written from the arm that is encoded, whatever it held before.
 */
module Ed25519Cert {
  import opened Trunnel

  const LS_IPV4: byte := 0
  const LS_IPV6: byte := 1
  const LS_LEGACY_ID: byte := 2
  const LS_ED25519_ID: byte := 3
  const CERTEXT_SIGNED_WITH_KEY: byte := 4

  // ------------------------------------------------------------ create2_cell_body

  datatype Create2 = Create2(handshakeType: u16, handshakeLen: u16, handshakeData: seq<byte>)

  function EmitCreate2(v: Create2): Emission {
    if |v.handshakeData| != v.handshakeLen then REFUSED
    else Then(Plain(Put16(v.handshakeType)), Then(Plain(Put16(v.handshakeLen)), Plain(v.handshakeData)))
  }

  function ParseCreate2(b: seq<byte>, i: nat): Parsed<Create2> {
    if |b| < i + 4 then Short
    else
      var t, n := Get16(b[i], b[i + 1]), Get16(b[i + 2], b[i + 3]);
      if |b| < i + 4 + n then Short else Ok(Create2(t, n, b[i + 4..i + 4 + n]), i + 4 + n)
  }

  lemma Create2Stable(b: seq<byte>, x: seq<byte>, i: nat)
    requires !ParseCreate2(b, i).Short?
    ensures ParseCreate2(b + x, i) == ParseCreate2(b, i)
  {
    var n := Get16(b[i + 2], b[i + 3]);
    SliceStable(b, x, i + 4, n);
    assert (b + x)[i + 2] == b[i + 2] && (b + x)[i + 3] == b[i + 3];
  }

  lemma Create2Inverts(v: Create2, b: seq<byte>, i: nat)
    requires EmitCreate2(v).ok && At(b, i, EmitCreate2(v).bytes)
    ensures ParseCreate2(b, i) == Ok(v, i + |EmitCreate2(v).bytes|)
  {
    var t, n, d := Plain(Put16(v.handshakeType)), Plain(Put16(v.handshakeLen)), Plain(v.handshakeData);
    AtThen3(b, i, t, n, d);
    AtPut16(b, i, v.handshakeType);
    AtPut16(b, i + 2, v.handshakeLen);
  }

  lemma Create2Restores(b: seq<byte>, i: nat)
    requires ParseCreate2(b, i).Ok?
    ensures RestoredAt(EmitCreate2(ParseCreate2(b, i).value), b, i, ParseCreate2(b, i).next)
  {
    var v := ParseCreate2(b, i).value;
    var t, n, d := Plain(Put16(v.handshakeType)), Plain(Put16(v.handshakeLen)), Plain(v.handshakeData);
    AtThen3(b, i, t, n, d);
    AtPut16(b, i, v.handshakeType);
    AtPut16(b, i + 2, v.handshakeLen);
  }

  lemma Create2Codec()
    ensures Codec(ParseCreate2, EmitCreate2, Same)
  {
    forall b: seq<byte>, x: seq<byte>, i: nat | !ParseCreate2(b, i).Short?
      ensures ParseCreate2(b + x, i) == ParseCreate2(b, i)
    {
      Create2Stable(b, x, i);
    }
    forall v, b, i: nat | EmitCreate2(v).ok && At(b, i, EmitCreate2(v).bytes)
      ensures ParseCreate2(b, i) == Ok(Same(v), i + |EmitCreate2(v).bytes|)
    {
      Create2Inverts(v, b, i);
    }
    forall b, i: nat | ParseCreate2(b, i).Ok?
      ensures RestoredAt(EmitCreate2(ParseCreate2(b, i).value), b, i, ParseCreate2(b, i).next)
    {
      Create2Restores(b, i);
    }
  }

  method EncodeCreate2(w: Writer, obj: Create2) returns (result: int)
    requires w.Valid()
    modifies w`written, w.output
    ensures Emitted(w, EmitCreate2(obj), result)
  {
    var start := w.written;
    ghost var was := w.Contents();
    if |obj.handshakeData| != obj.handshakeLen {
      return -1;
    }
    var ok := w.Put(Put16(obj.handshakeType));
    if !ok {
      return -2;
    }
    ok := w.Put(Put16(obj.handshakeLen));
    if !ok {
      return -2;
    }
    Nest3(was, Put16(obj.handshakeType), Put16(obj.handshakeLen), obj.handshakeData);
    ok := w.Put(obj.handshakeData);
    if !ok {
      return -2;
    }
    return w.written - start;
  }

  method ReadCreate2(input: seq<byte>, start: nat) returns (result: int, obj: Create2)
    requires start <= |input|
    ensures Reports(result, obj, ParseCreate2(input, start), start)
  {
    obj := Create2(0, 0, []);
    var ptr, remaining := start, |input| - start;
    if remaining < 2 {
      return -2, obj;
    }
    obj := obj.(handshakeType := Get16(input[ptr], input[ptr + 1]));
    remaining, ptr := remaining - 2, ptr + 2;
    if remaining < 2 {
      return -2, obj;
    }
    obj := obj.(handshakeLen := Get16(input[ptr], input[ptr + 1]));
    remaining, ptr := remaining - 2, ptr + 2;
    if remaining < obj.handshakeLen {
      return -2, obj;
    }
    obj := obj.(handshakeData := input[ptr..ptr + obj.handshakeLen]);
    remaining, ptr := remaining - obj.handshakeLen, ptr + obj.handshakeLen;
    return ptr - start, obj;
  }

  // ------------------------------------------------------------ link_specifier

  datatype LinkSpecifier = LinkSpecifier(
    lsType: byte, lsLen: byte,
    ipv4Addr: u32, ipv4Port: u16,
    ipv6Addr: Bytes16, ipv6Port: u16,
    legacyId: Bytes20, ed25519Id: Bytes32,
    unrecognized: seq<byte>)

  function Blank(t: byte, n: byte): LinkSpecifier {
    LinkSpecifier(t, n, 0, 0, Zeros(16), 0, Zeros(20), Zeros(32), [])
  }

  /** The active arm of the union. */
  function LinkBody(v: LinkSpecifier): seq<byte> {
    if v.lsType == LS_IPV4 then Put32(v.ipv4Addr) + Put16(v.ipv4Port)
    else if v.lsType == LS_IPV6 then v.ipv6Addr + Put16(v.ipv6Port)
    else if v.lsType == LS_LEGACY_ID then v.legacyId
    else if v.lsType == LS_ED25519_ID then v.ed25519Id
    else v.unrecognized
  }

  /** Only the active arm, and the length field that it is given. */
  function NormLink(v: LinkSpecifier): LinkSpecifier {
    var n := if |LinkBody(v)| < 0x100 then |LinkBody(v)| else v.lsLen;
    var u := Blank(v.lsType, n);
    if v.lsType == LS_IPV4 then u.(ipv4Addr := v.ipv4Addr, ipv4Port := v.ipv4Port)
    else if v.lsType == LS_IPV6 then u.(ipv6Addr := v.ipv6Addr, ipv6Port := v.ipv6Port)
    else if v.lsType == LS_LEGACY_ID then u.(legacyId := v.legacyId)
    else if v.lsType == LS_ED25519_ID then u.(ed25519Id := v.ed25519Id)
    else u.(unrecognized := v.unrecognized)
  }

  function EmitLink(v: LinkSpecifier): Emission {
    var body := LinkBody(v);
    Then(Plain([v.lsType, NormLink(v).lsLen]), Emission(body, |body| < 0x100))
  }

  /** The union, from exactly the bytes that the length field gives it. */
  function LinkOf(t: byte, n: byte, body: seq<byte>, next: nat): Parsed<LinkSpecifier> {
    var u := Blank(t, n);
    if t == LS_IPV4 then
      if |body| != 6 then Bad else Ok(u.(ipv4Addr := U32(body, 0).value, ipv4Port := U16(body, 4).value), next)
    else if t == LS_IPV6 then
      if |body| != 18 then Bad else Ok(u.(ipv6Addr := body[..16], ipv6Port := U16(body, 16).value), next)
    else if t == LS_LEGACY_ID then
      if |body| != 20 then Bad else Ok(u.(legacyId := body), next)
    else if t == LS_ED25519_ID then
      if |body| != 32 then Bad else Ok(u.(ed25519Id := body), next)
    else Ok(u.(unrecognized := body), next)
  }

  function ParseLink(b: seq<byte>, i: nat): Parsed<LinkSpecifier> {
    if |b| < i + 2 || |b| < i + 2 + b[i + 1] then Short
    else LinkOf(b[i], b[i + 1], b[i + 2..i + 2 + b[i + 1]], i + 2 + b[i + 1])
  }

  lemma LinkOfBody(v: LinkSpecifier, next: nat)
    requires |LinkBody(v)| < 0x100
    ensures LinkOf(v.lsType, |LinkBody(v)|, LinkBody(v), next) == Ok(NormLink(v), next)
  {
    var body := LinkBody(v);
    if v.lsType == LS_IPV4 {
      AtConcat(body, 0, Put32(v.ipv4Addr), Put16(v.ipv4Port));
      AtPut32(body, 0, v.ipv4Addr);
      AtPut16(body, 4, v.ipv4Port);
    } else if v.lsType == LS_IPV6 {
      AtConcat(body, 0, v.ipv6Addr, Put16(v.ipv6Port));
      AtPut16(body, 16, v.ipv6Port);
    }
  }

  lemma BodyOfLink(t: byte, n: byte, body: seq<byte>, next: nat)
    requires |body| == n && LinkOf(t, n, body, next).Ok?
    ensures var v := LinkOf(t, n, body, next).value;
      v.lsType == t && LinkBody(v) == body && NormLink(v) == v && v.lsLen == n
  {
    var v := LinkOf(t, n, body, next).value;
    if t == LS_IPV4 {
      AtConcat(body, 0, Put32(v.ipv4Addr), Put16(v.ipv4Port));
      AtPut32(body, 0, v.ipv4Addr);
      AtPut16(body, 4, v.ipv4Port);
      assert body[0..6] == body;
    } else if t == LS_IPV6 {
      AtConcat(body, 0, v.ipv6Addr, Put16(v.ipv6Port));
      AtPut16(body, 16, v.ipv6Port);
      assert body[0..18] == body;
    }
  }

  lemma LinkStable(b: seq<byte>, x: seq<byte>, i: nat)
    requires !ParseLink(b, i).Short?
    ensures ParseLink(b + x, i) == ParseLink(b, i)
  {
    SliceStable(b, x, i + 2, b[i + 1]);
  }

  lemma LinkInverts(v: LinkSpecifier, b: seq<byte>, i: nat)
    requires EmitLink(v).ok && At(b, i, EmitLink(v).bytes)
    ensures ParseLink(b, i) == Ok(NormLink(v), i + |EmitLink(v).bytes|)
  {
    var body, n := LinkBody(v), NormLink(v).lsLen;
    AtConcat(b, i, [v.lsType, n], body);
    AtConcat(b, i, [v.lsType], [n]);
    assert [v.lsType] + [n] == [v.lsType, n];
    AtPut8(b, i, v.lsType);
    AtPut8(b, i + 1, n);
    LinkOfBody(v, i + 2 + |body|);
  }

  lemma LinkRestores(b: seq<byte>, i: nat)
    requires ParseLink(b, i).Ok?
    ensures RestoredAt(EmitLink(ParseLink(b, i).value), b, i, ParseLink(b, i).next)
    ensures NormLink(ParseLink(b, i).value) == ParseLink(b, i).value
  {
    var t, n := b[i], b[i + 1];
    var body := b[i + 2..i + 2 + n];
    BodyOfLink(t, n, body, i + 2 + n);
    AtConcat(b, i, [t, n], body);
    assert b[i..i + 2] == [t, n];
  }

  lemma LinkCodec()
    ensures Codec(ParseLink, EmitLink, NormLink)
  {
    forall b: seq<byte>, x: seq<byte>, i: nat | !ParseLink(b, i).Short?
      ensures ParseLink(b + x, i) == ParseLink(b, i)
    {
      LinkStable(b, x, i);
    }
    forall v, b, i: nat | EmitLink(v).ok && At(b, i, EmitLink(v).bytes)
      ensures ParseLink(b, i) == Ok(NormLink(v), i + |EmitLink(v).bytes|)
    {
      LinkInverts(v, b, i);
    }
    forall b, i: nat | ParseLink(b, i).Ok?
      ensures RestoredAt(EmitLink(ParseLink(b, i).value), b, i, ParseLink(b, i).next)
    {
      LinkRestores(b, i);
    }
  }

  method EncodeLink(w: Writer, obj: LinkSpecifier) returns (result: int)
    requires w.Valid()
    modifies w`written, w.output
    ensures Emitted(w, EmitLink(obj), result)
  {
    var start := w.written;
    ghost var was, body := w.Contents(), LinkBody(obj);
    var ok := w.Put([obj.lsType]);
    if !ok {
      return -2;
    }
    var backptr := w.written;
    ok := w.Put([obj.lsLen]);
    if !ok {
      return -2;
    }
    var before := w.written;
    ok := PutArm(w, obj);
    if !ok {
      return -2;
    }
    if w.written - before > 0xff {
      return -1;
    }
    w.Patch(backptr, w.written - before, was + [obj.lsType], obj.lsLen, body);
    assert [obj.lsType] + [|body|] == [obj.lsType, |body|];
    Assoc(was, [obj.lsType], [|body|]);
    Assoc(was, [obj.lsType, |body|], body);
    return w.written - start;
  }

  /** The `switch` of the encoder, with the checks for room of each field. */
  method PutArm(w: Writer, obj: LinkSpecifier) returns (ok: bool)
    requires w.Valid()
    modifies w`written, w.output
    ensures w.Valid() && ok == (old(w.written) + |LinkBody(obj)| <= w.avail)
    ensures ok ==> w.Contents() == old(w.Contents()) + LinkBody(obj)
    ensures w.output[w.avail..] == old(w.output[w.avail..])
  {
    if obj.lsType == LS_IPV4 {
      ok := w.Put(Put32(obj.ipv4Addr));
      if ok {
        ok := w.Put(Put16(obj.ipv4Port));
      }
    } else if obj.lsType == LS_IPV6 {
      ok := w.Put(obj.ipv6Addr);
      if ok {
        ok := w.Put(Put16(obj.ipv6Port));
      }
    } else if obj.lsType == LS_LEGACY_ID {
      ok := w.Put(obj.legacyId);
    } else if obj.lsType == LS_ED25519_ID {
      ok := w.Put(obj.ed25519Id);
    } else {
      ok := w.Put(obj.unrecognized);
    }
  }

  method ReadLink(input: seq<byte>, start: nat) returns (result: int, obj: LinkSpecifier)
    requires start <= |input|
    ensures Reports(result, obj, ParseLink(input, start), start) && start + result <= |input|
  {
    obj := Blank(0, 0);
    var ptr, remaining := start, |input| - start;
    if remaining < 1 {
      return -2, obj;
    }
    obj := obj.(lsType := input[ptr]);
    remaining, ptr := remaining - 1, ptr + 1;
    if remaining < 1 {
      return -2, obj;
    }
    obj := obj.(lsLen := input[ptr]);
    remaining, ptr := remaining - 1, ptr + 1;
    if remaining < obj.lsLen {
      return -2, obj;
    }
    var fits;
    fits, obj := ReadArm(input[ptr..ptr + obj.lsLen], obj, ptr + obj.lsLen);
    if !fits {
      return -1, obj;
    }
    return ptr + obj.lsLen - start, obj;
  }

  /** The `switch` of the parser, on the bytes that the length field sets apart. */
  method ReadArm(body: seq<byte>, blank: LinkSpecifier, ghost next: nat) returns (fits: bool, obj: LinkSpecifier)
    requires blank == Blank(blank.lsType, blank.lsLen)
    ensures fits <==> LinkOf(blank.lsType, blank.lsLen, body, next).Ok?
    ensures fits ==> LinkOf(blank.lsType, blank.lsLen, body, next) == Ok(obj, next) && obj.lsLen == blank.lsLen
  {
    obj := blank;
    var ptr, remaining := 0, |body|;
    assert body[0..|body|] == body;
    if obj.lsType == LS_IPV4 {
      if remaining < 4 {
        return false, obj;
      }
      obj := obj.(ipv4Addr := Get32(Get16(body[ptr], body[ptr + 1]), Get16(body[ptr + 2], body[ptr + 3])));
      remaining, ptr := remaining - 4, ptr + 4;
      if remaining < 2 {
        return false, obj;
      }
      obj := obj.(ipv4Port := Get16(body[ptr], body[ptr + 1]));
      remaining, ptr := remaining - 2, ptr + 2;
    } else if obj.lsType == LS_IPV6 {
      if remaining < 16 {
        return false, obj;
      }
      obj := obj.(ipv6Addr := body[ptr..ptr + 16]);
      remaining, ptr := remaining - 16, ptr + 16;
      if remaining < 2 {
        return false, obj;
      }
      obj := obj.(ipv6Port := Get16(body[ptr], body[ptr + 1]));
      remaining, ptr := remaining - 2, ptr + 2;
    } else if obj.lsType == LS_LEGACY_ID {
      if remaining < 20 {
        return false, obj;
      }
      obj := obj.(legacyId := body[ptr..ptr + 20]);
      remaining, ptr := remaining - 20, ptr + 20;
    } else if obj.lsType == LS_ED25519_ID {
      if remaining < 32 {
        return false, obj;
      }
      obj := obj.(ed25519Id := body[ptr..ptr + 32]);
      remaining, ptr := remaining - 32, ptr + 32;
    } else {
      obj := obj.(unrecognized := body[ptr..ptr + remaining]);
      remaining, ptr := 0, ptr + remaining;
    }
    fits := remaining == 0;
  }

  // ------------------------------------------------------------ extend2_cell_body

  datatype Extend2 = Extend2(nSpec: byte, ls: seq<LinkSpecifier>, create2: Create2)

  predicate CheckExtend2(v: Extend2) {
    |v.ls| == v.nSpec && |v.create2.handshakeData| == v.create2.handshakeLen
  }

  function NormExtend2(v: Extend2): Extend2 { v.(ls := Normalised(NormLink, v.ls)) }

  function EmitExtend2(v: Extend2): Emission {
    if !CheckExtend2(v) then REFUSED
    else Then(Plain([v.nSpec]), Then(EmitAll(EmitLink, v.ls), EmitCreate2(v.create2)))
  }

  function ParseExtend2(b: seq<byte>, i: nat): Parsed<Extend2> {
    if |b| < i + 1 then Short
    else
      match Many(ParseLink, b[i], b, i + 1, [])
      case Bad => Bad
      case Short => Short
      case Ok(ls, j) =>
        match ParseCreate2(b, j)
        case Bad => Bad
        case Short => Short
        case Ok(create2, k) => Ok(Extend2(b[i], ls, create2), k)
  }

  lemma Extend2Stable(b: seq<byte>, x: seq<byte>, i: nat)
    requires !ParseExtend2(b, i).Short?
    ensures ParseExtend2(b + x, i) == ParseExtend2(b, i)
  {
    var ls := Many(ParseLink, b[i], b, i + 1, []);
    assert Many(ParseLink, b[i], b + x, i + 1, []) == ls by {
      LinkCodec();
      ListStable(ParseLink, EmitLink, NormLink, b[i], b, x, i + 1);
    }
    if ls.Ok? {
      Create2Stable(b, x, ls.next);
    }
  }

  lemma Extend2Inverts(v: Extend2, b: seq<byte>, i: nat)
    requires EmitExtend2(v).ok && At(b, i, EmitExtend2(v).bytes)
    ensures ParseExtend2(b, i) == Ok(NormExtend2(v), i + |EmitExtend2(v).bytes|)
  {
    var ls, create2 := EmitAll(EmitLink, v.ls), EmitCreate2(v.create2);
    AtThen3(b, i, Plain([v.nSpec]), ls, create2);
    AtPut8(b, i, v.nSpec);
    var j := i + 1 + |ls.bytes|;
    LinksInvert(v.ls, b, i + 1);
    Create2Inverts(v.create2, b, j);
    Extend2From(b, i, v.nSpec, Normalised(NormLink, v.ls), j, v.create2, j + |create2.bytes|);
  }

  lemma LinksInvert(ls: seq<LinkSpecifier>, b: seq<byte>, i: nat)
    requires EmitAll(EmitLink, ls).ok && At(b, i, EmitAll(EmitLink, ls).bytes)
    ensures Many(ParseLink, |ls|, b, i, []) == Ok(Normalised(NormLink, ls), i + |EmitAll(EmitLink, ls).bytes|)
  {
    LinkCodec();
    ListInverts(ParseLink, EmitLink, NormLink, ls, b, i);
  }

  lemma Extend2From(b: seq<byte>, i: nat, n: byte, ls: seq<LinkSpecifier>, j: nat, create2: Create2, k: nat)
    requires U8(b, i) == Ok(n, i + 1) && Many(ParseLink, n, b, i + 1, []) == Ok(ls, j) &&
        ParseCreate2(b, j) == Ok(create2, k)
    ensures ParseExtend2(b, i) == Ok(Extend2(n, ls, create2), k)
  {
  }

  lemma Extend2Restores(b: seq<byte>, i: nat)
    requires ParseExtend2(b, i).Ok?
    ensures RestoredAt(EmitExtend2(ParseExtend2(b, i).value), b, i, ParseExtend2(b, i).next)
  {
    var v := ParseExtend2(b, i).value;
    var ls, create2 := EmitAll(EmitLink, v.ls), EmitCreate2(v.create2);
    var next := Many(ParseLink, b[i], b, i + 1, []).next;
    assert |v.ls| == b[i] && RestoredAt(ls, b, i + 1, next) by {
      LinkCodec();
      ListRestores(ParseLink, EmitLink, NormLink, b[i], b, i + 1);
    }
    Create2Restores(b, next);
    AtPut8(b, i, v.nSpec);
    AtThen3(b, i, Plain([v.nSpec]), ls, create2);
  }

  lemma Extend2Codec()
    ensures Codec(ParseExtend2, EmitExtend2, NormExtend2)
  {
    forall b: seq<byte>, x: seq<byte>, i: nat | !ParseExtend2(b, i).Short?
      ensures ParseExtend2(b + x, i) == ParseExtend2(b, i)
    {
      Extend2Stable(b, x, i);
    }
    forall v, b, i: nat | EmitExtend2(v).ok && At(b, i, EmitExtend2(v).bytes)
      ensures ParseExtend2(b, i) == Ok(NormExtend2(v), i + |EmitExtend2(v).bytes|)
    {
      Extend2Inverts(v, b, i);
    }
    forall b, i: nat | ParseExtend2(b, i).Ok?
      ensures RestoredAt(EmitExtend2(ParseExtend2(b, i).value), b, i, ParseExtend2(b, i).next)
    {
      Extend2Restores(b, i);
    }
  }

  method EncodeLinks(w: Writer, ls: seq<LinkSpecifier>) returns (result: int)
    requires w.Valid()
    modifies w`written, w.output
    ensures Emitted(w, EmitAll(EmitLink, ls), result)
  {
    var start := w.written;
    ghost var was, done := w.Contents(), [];
    var idx := 0;
    assert ls[0..] == ls;
    while idx < |ls|
      invariant w.Valid() && 0 <= idx <= |ls| && w.written == start + |done|
      invariant w.Contents() == was + done && w.output[w.avail..] == old(w.output[w.avail..])
      invariant EmitAll(EmitLink, ls) == Then(Plain(done), EmitAll(EmitLink, ls[idx..]))
    {
      ghost var e := EmitLink(ls[idx]);
      assert ls[idx..][1..] == ls[idx + 1..];
      Onward(done, e, EmitAll(EmitLink, ls[idx + 1..]), w.avail - w.written);
      Assoc(was, done, e.bytes);
      result := EncodeLink(w, ls[idx]);
      if result < 0 {
        return;
      }
      done := done + e.bytes;
      idx := idx + 1;
    }
    return w.written - start;
  }

  method EncodeExtend2(w: Writer, obj: Extend2) returns (result: int)
    requires w.Valid()
    modifies w`written, w.output
    ensures Emitted(w, EmitExtend2(obj), result)
  {
    if !CheckExtend2(obj) {
      return -1;
    }
    var start := w.written;
    ghost var was, n, ls, create2 := w.Contents(), [obj.nSpec], EmitAll(EmitLink, obj.ls), EmitCreate2(obj.create2);
    var ok := w.Put([obj.nSpec]);
    if !ok {
      return -2;
    }
    Onward(n, ls, create2, w.avail - w.written);
    Assoc(was, n, ls.bytes);
    result := EncodeLinks(w, obj.ls);
    if result < 0 {
      return;
    }
    Assoc(was, n + ls.bytes, create2.bytes);
    result := EncodeCreate2(w, obj.create2);
    if result < 0 {
      return;
    }
    return w.written - start;
  }

  /** The loop over the link specifiers. */
  method ReadLinks(input: seq<byte>, start: nat, n: nat) returns (result: int, elts: seq<LinkSpecifier>)
    requires start <= |input|
    ensures Reports(result, elts, Many(ParseLink, n, input, start, []), start) && start + result <= |input|
  {
    elts := [];
    var ptr, idx := start, 0;
    ghost var at: seq<nat> := [start];
    while idx < n
      invariant 0 <= idx == |elts| <= n && start <= ptr <= |input|
      invariant Trace(ParseLink, input, at, elts) && at[0] == start && at[idx] == ptr
    {
      var elt;
      result, elt := ReadLink(input, ptr);
      if result < 0 {
        TraceFails(ParseLink, n, input, at, elts, result, elt);
        return;
      }
      TraceStep(ParseLink, input, at, elts, result, elt);
      ptr := ptr + result;
      at, elts := at + [ptr], elts + [elt];
      idx := idx + 1;
    }
    TraceEnds(ParseLink, n, input, at, elts);
    return ptr - start, elts;
  }

  method ReadExtend2(input: seq<byte>, start: nat) returns (result: int, obj: Extend2)
    requires start <= |input|
    ensures Reports(result, obj, ParseExtend2(input, start), start)
  {
    obj := Extend2(0, [], Create2(0, 0, []));
    var ptr, remaining := start, |input| - start;
    if remaining < 1 {
      return -2, obj;
    }
    obj := obj.(nSpec := input[ptr]);
    remaining, ptr := remaining - 1, ptr + 1;
    var ls;
    result, ls := ReadLinks(input, ptr, obj.nSpec);
    if result < 0 {
      return;
    }
    obj := obj.(ls := ls);
    remaining, ptr := remaining - result, ptr + result;
    Create2Within(input, ptr);
    var create2;
    result, create2 := ReadCreate2(input, ptr);
    if result < 0 {
      return;
    }
    obj := obj.(create2 := create2);
    remaining, ptr := remaining - result, ptr + result;
    return ptr - start, obj;
  }

  lemma Create2Within(b: seq<byte>, i: nat)
    ensures ParseCreate2(b, i).Ok? ==> i < ParseCreate2(b, i).next <= |b|
  {
  }

  // ------------------------------------------------------------ ed25519_cert_extension

  datatype Extension = Extension(extLength: u16, extType: byte, extFlags: byte, signingKey: Bytes32,
      unparsed: seq<byte>)

  function ExtBody(v: Extension): seq<byte> {
    if v.extType == CERTEXT_SIGNED_WITH_KEY then v.signingKey else v.unparsed
  }

  function NormExt(v: Extension): Extension {
    var n := if |ExtBody(v)| < 0x1_0000 then |ExtBody(v)| else v.extLength;
    if v.extType == CERTEXT_SIGNED_WITH_KEY then v.(extLength := n, unparsed := [])
    else v.(extLength := n, signingKey := Zeros(32))
  }

  function EmitExt(v: Extension): Emission {
    var body := ExtBody(v);
    Then(Plain(Put16(NormExt(v).extLength) + [v.extType, v.extFlags]), Emission(body, |body| < 0x1_0000))
  }

  function ExtOf(n: u16, t: byte, flags: byte, body: seq<byte>, next: nat): Parsed<Extension> {
    if t == CERTEXT_SIGNED_WITH_KEY then
      if |body| != 32 then Bad else Ok(Extension(n, t, flags, body, []), next)
    else Ok(Extension(n, t, flags, Zeros(32), body), next)
  }

  function ParseExt(b: seq<byte>, i: nat): Parsed<Extension> {
    if |b| < i + 4 then Short
    else
      var n := Get16(b[i], b[i + 1]);
      if |b| < i + 4 + n then Short else ExtOf(n, b[i + 2], b[i + 3], b[i + 4..i + 4 + n], i + 4 + n)
  }

  /** The fields before the union. */
  lemma ExtHeadAt(b: seq<byte>, i: nat, n: u16, t: byte, flags: byte)
    ensures At(b, i, Put16(n) + [t, flags]) <==>
      U16(b, i) == Ok(n, i + 2) && U8(b, i + 2) == Ok(t, i + 3) && U8(b, i + 3) == Ok(flags, i + 4)
  {
    AtConcat(b, i, Put16(n), [t, flags]);
    AtPut16(b, i, n);
    assert [t, flags] == [t] + [flags];
    AtConcat(b, i + 2, [t], [flags]);
    AtPut8(b, i + 2, t);
    AtPut8(b, i + 3, flags);
  }

  lemma ExtStable(b: seq<byte>, x: seq<byte>, i: nat)
    requires !ParseExt(b, i).Short?
    ensures ParseExt(b + x, i) == ParseExt(b, i)
  {
    var n := Get16(b[i], b[i + 1]);
    SliceStable(b, x, i + 4, n);
    assert (b + x)[i] == b[i] && (b + x)[i + 1] == b[i + 1];
  }

  lemma ExtInverts(v: Extension, b: seq<byte>, i: nat)
    requires EmitExt(v).ok && At(b, i, EmitExt(v).bytes)
    ensures ParseExt(b, i) == Ok(NormExt(v), i + |EmitExt(v).bytes|)
  {
    var n := NormExt(v).extLength;
    AtConcat(b, i, Put16(n) + [v.extType, v.extFlags], ExtBody(v));
    ExtHeadAt(b, i, n, v.extType, v.extFlags);
  }

  lemma ExtRestores(b: seq<byte>, i: nat)
    requires ParseExt(b, i).Ok?
    ensures RestoredAt(EmitExt(ParseExt(b, i).value), b, i, ParseExt(b, i).next)
  {
    var v := ParseExt(b, i).value;
    AtConcat(b, i, Put16(v.extLength) + [v.extType, v.extFlags], ExtBody(v));
    ExtHeadAt(b, i, v.extLength, v.extType, v.extFlags);
  }

  lemma ExtCodec()
    ensures Codec(ParseExt, EmitExt, NormExt)
  {
    forall b: seq<byte>, x: seq<byte>, i: nat | !ParseExt(b, i).Short? ensures ParseExt(b + x, i) == ParseExt(b, i) {
      ExtStable(b, x, i);
    }
    forall v, b, i: nat | EmitExt(v).ok && At(b, i, EmitExt(v).bytes)
      ensures ParseExt(b, i) == Ok(NormExt(v), i + |EmitExt(v).bytes|)
    {
      ExtInverts(v, b, i);
    }
    forall b, i: nat | ParseExt(b, i).Ok? ensures RestoredAt(EmitExt(ParseExt(b, i).value), b, i, ParseExt(b, i).next) {
      ExtRestores(b, i);
    }
  }

  method EncodeExt(w: Writer, obj: Extension) returns (result: int)
    requires w.Valid()
    modifies w`written, w.output
    ensures Emitted(w, EmitExt(obj), result)
  {
    var start := w.written;
    ghost var was, len, rest := w.Contents(), Put16(obj.extLength), [obj.extType, obj.extFlags];
    var ok := w.Put(Put16(obj.extLength));
    if !ok {
      return -2;
    }
    ok := w.Put([obj.extType]);
    if !ok {
      return -2;
    }
    ok := w.Put([obj.extFlags]);
    if !ok {
      return -2;
    }
    assert w.Contents() == was + len + rest;
    var before := w.written;
    if obj.extType == CERTEXT_SIGNED_WITH_KEY {
      ok := w.Put(obj.signingKey);
    } else {
      ok := w.Put(obj.unparsed);
    }
    if !ok {
      return -2;
    }
    if w.written - before > 0xffff {
      return -1;
    }
    Assoc(was + len, rest, ExtBody(obj));
    w.Patch16(start, w.written - before, was, len, rest + ExtBody(obj));
    Assoc(was, Put16(|ExtBody(obj)|), rest + ExtBody(obj));
    Assoc(Put16(|ExtBody(obj)|), rest, ExtBody(obj));
    return w.written - start;
  }

  method ReadExt(input: seq<byte>, start: nat) returns (result: int, obj: Extension)
    requires start <= |input|
    ensures Reports(result, obj, ParseExt(input, start), start) && start + result <= |input|
  {
    obj := Extension(0, 0, 0, Zeros(32), []);
    var ptr, remaining := start, |input| - start;
    if remaining < 2 {
      return -2, obj;
    }
    obj := obj.(extLength := Get16(input[ptr], input[ptr + 1]));
    remaining, ptr := remaining - 2, ptr + 2;
    if remaining < 1 {
      return -2, obj;
    }
    obj := obj.(extType := input[ptr]);
    remaining, ptr := remaining - 1, ptr + 1;
    if remaining < 1 {
      return -2, obj;
    }
    obj := obj.(extFlags := input[ptr]);
    remaining, ptr := remaining - 1, ptr + 1;
    if remaining < obj.extLength {
      return -2, obj;
    }
    var n := obj.extLength;
    var fits;
    fits, obj := ReadExtArm(input[ptr..ptr + n], obj, ptr + n);
    if !fits {
      return -1, obj;
    }
    return ptr + n - start, obj;
  }

  /** The `switch` of the parser, on the bytes that the length field sets apart. */
  method ReadExtArm(body: seq<byte>, head: Extension, ghost next: nat) returns (fits: bool, obj: Extension)
    requires head.signingKey == Zeros(32) && head.unparsed == []
    ensures fits <==> ExtOf(head.extLength, head.extType, head.extFlags, body, next).Ok?
    ensures fits ==> ExtOf(head.extLength, head.extType, head.extFlags, body, next) == Ok(obj, next)
  {
    obj := head;
    var ptr, remaining := 0, |body|;
    assert body[0..|body|] == body;
    if obj.extType == CERTEXT_SIGNED_WITH_KEY {
      if remaining < 32 {
        return false, obj;
      }
      obj := obj.(signingKey := body[ptr..ptr + 32]);
      remaining, ptr := remaining - 32, ptr + 32;
    } else {
      obj := obj.(unparsed := body[ptr..ptr + remaining]);
      remaining, ptr := 0, ptr + remaining;
    }
    fits := remaining == 0;
  }

  // ------------------------------------------------------------ ed25519_cert

  datatype Cert = Cert(
    version: byte, certType: byte, expField: u32, certKeyType: byte, certifiedKey: Bytes32,
    nExtensions: byte, ext: seq<Extension>, signature: Bytes64)

  predicate CheckCert(v: Cert) { v.version == 1 && |v.ext| == v.nExtensions }

  function NormCert(v: Cert): Cert { v.(ext := Normalised(NormExt, v.ext)) }

  /** The fields before the extensions. */
  function CertHead(v: Cert): (s: seq<byte>)
    ensures |s| == 40
  {
    [v.version] + ([v.certType] + (Put32(v.expField) + ([v.certKeyType] + (v.certifiedKey + [v.nExtensions]))))
  }

  function EmitCert(v: Cert): Emission {
    if !CheckCert(v) then REFUSED
    else Then(Plain(CertHead(v)), Then(EmitAll(EmitExt, v.ext), Plain(v.signature)))
  }

  function ParseCert(b: seq<byte>, i: nat): Parsed<Cert> {
    if |b| < i + 1 then Short
    else if b[i] != 1 then Bad
    else if |b| < i + 40 then Short
    else
      match Many(ParseExt, b[i + 39], b, i + 40, [])
      case Bad => Bad
      case Short => Short
      case Ok(ext, j) =>
        if |b| < j + 64 then Short
        else
          var exp := U32(b, i + 2).value;
          Ok(Cert(b[i], b[i + 1], exp, b[i + 6], b[i + 7..i + 39], b[i + 39], ext, b[j..j + 64]), j + 64)
  }

  /** The fields of `v` before its extensions are what is parsed. */
  predicate HeadParsed(b: seq<byte>, i: nat, v: Cert) {
    && U8(b, i) == Ok(v.version, i + 1) && U8(b, i + 1) == Ok(v.certType, i + 2) &&
        U32(b, i + 2) == Ok(v.expField, i + 6)
    && U8(b, i + 6) == Ok(v.certKeyType, i + 7) && Bytes(b, i + 7, 32) == Ok(v.certifiedKey, i + 39)
    && U8(b, i + 39) == Ok(v.nExtensions, i + 40)
  }

  lemma CertHeadAt(b: seq<byte>, i: nat, v: Cert)
    ensures At(b, i, CertHead(v)) <==> HeadParsed(b, i, v)
  {
    var key := v.certifiedKey + [v.nExtensions];
    AtConcat(b, i, [v.version], [v.certType] + (Put32(v.expField) + ([v.certKeyType] + key)));
    AtConcat(b, i + 1, [v.certType], Put32(v.expField) + ([v.certKeyType] + key));
    AtConcat(b, i + 2, Put32(v.expField), [v.certKeyType] + key);
    AtConcat(b, i + 6, [v.certKeyType], key);
    AtConcat(b, i + 7, v.certifiedKey, [v.nExtensions]);
    AtPut8(b, i, v.version);
    AtPut8(b, i + 1, v.certType);
    AtPut32(b, i + 2, v.expField);
    AtPut8(b, i + 6, v.certKeyType);
    AtPut8(b, i + 39, v.nExtensions);
  }

  lemma CertFrom(b: seq<byte>, i: nat, v: Cert, j: nat)
    requires HeadParsed(b, i, v) && v.version == 1
    requires Many(ParseExt, v.nExtensions, b, i + 40, []) == Ok(v.ext, j) && Bytes(b, j, 64) == Ok(v.signature, j + 64)
    ensures ParseCert(b, i) == Ok(v, j + 64)
  {
  }

  lemma CertStable(b: seq<byte>, x: seq<byte>, i: nat)
    requires !ParseCert(b, i).Short?
    ensures ParseCert(b + x, i) == ParseCert(b, i)
  {
    if b[i] == 1 {
      SliceStable(b, x, i + 7, 32);
      var n := b[i + 39];
      var ext := Many(ParseExt, n, b, i + 40, []);
      assert Many(ParseExt, n, b + x, i + 40, []) == ext by {
        ExtCodec();
        ListStable(ParseExt, EmitExt, NormExt, n, b, x, i + 40);
      }
      if ext.Ok? {
        SliceStable(b, x, ext.next, 64);
      }
    }
  }

  lemma CertInverts(v: Cert, b: seq<byte>, i: nat)
    requires EmitCert(v).ok && At(b, i, EmitCert(v).bytes)
    ensures ParseCert(b, i) == Ok(NormCert(v), i + |EmitCert(v).bytes|)
  {
    var ext, signature := EmitAll(EmitExt, v.ext), Plain(v.signature);
    var j := i + 40 + |ext.bytes|;
    AtThen3(b, i, Plain(CertHead(v)), ext, signature);
    AtBytes(b, j, v.signature);
    CertHeadAt(b, i, v);
    assert Many(ParseExt, |v.ext|, b, i + 40, []) == Ok(Normalised(NormExt, v.ext), j) by {
      ExtCodec();
      ListInverts(ParseExt, EmitExt, NormExt, v.ext, b, i + 40);
    }
    CertFrom(b, i, NormCert(v), j);
  }

  /** The parts of a parsed certificate. */
  lemma CertInto(b: seq<byte>, i: nat)
    requires ParseCert(b, i).Ok?
    ensures var Ok(v, k) := ParseCert(b, i);
      && k >= 64 && i + 40 <= |b| && HeadParsed(b, i, v) && v.version == 1
      && Many(ParseExt, v.nExtensions, b, i + 40, []) == Ok(v.ext, k - 64) && Bytes(b, k - 64, 64) == Ok(v.signature, k)
  {
  }

  lemma CertAssembled(b: seq<byte>, i: nat, v: Cert, j: nat)
    requires CheckCert(v) && HeadParsed(b, i, v)
    requires RestoredAt(EmitAll(EmitExt, v.ext), b, i + 40, j) && Bytes(b, j, 64) == Ok(v.signature, j + 64)
    ensures RestoredAt(EmitCert(v), b, i, j + 64)
  {
    CertHeadAt(b, i, v);
    AtBytes(b, j, v.signature);
    Assembled3(b, i, CertHead(v), EmitAll(EmitExt, v.ext), v.signature, j);
  }

  lemma CertRestores(b: seq<byte>, i: nat)
    requires ParseCert(b, i).Ok?
    ensures RestoredAt(EmitCert(ParseCert(b, i).value), b, i, ParseCert(b, i).next)
  {
    var Ok(v, k) := ParseCert(b, i);
    CertInto(b, i);
    ExtsRestore(v.nExtensions, b, i + 40);
    CertAssembled(b, i, v, k - 64);
  }

  lemma ExtsRestore(n: nat, b: seq<byte>, i: nat)
    requires i <= |b| && Many(ParseExt, n, b, i, []).Ok?
    ensures var Ok(ext, j) := Many(ParseExt, n, b, i, []); |ext| == n && RestoredAt(EmitAll(EmitExt, ext), b, i, j)
  {
    ExtCodec();
    ListRestores(ParseExt, EmitExt, NormExt, n, b, i);
  }

  lemma CertCodec()
    ensures Codec(ParseCert, EmitCert, NormCert)
  {
    forall b: seq<byte>, x: seq<byte>, i: nat | !ParseCert(b, i).Short? ensures ParseCert(b + x, i) == ParseCert(b, i) {
      CertStable(b, x, i);
    }
    forall v, b, i: nat | EmitCert(v).ok && At(b, i, EmitCert(v).bytes)
      ensures ParseCert(b, i) == Ok(NormCert(v), i + |EmitCert(v).bytes|)
    {
      CertInverts(v, b, i);
    }
    forall b, i: nat | ParseCert(b, i).Ok?
      ensures RestoredAt(EmitCert(ParseCert(b, i).value), b, i, ParseCert(b, i).next)
    {
      CertRestores(b, i);
    }
  }

  method EncodeExts(w: Writer, ext: seq<Extension>) returns (result: int)
    requires w.Valid()
    modifies w`written, w.output
    ensures Emitted(w, EmitAll(EmitExt, ext), result)
  {
    var start := w.written;
    ghost var was, done := w.Contents(), [];
    var idx := 0;
    assert ext[0..] == ext;
    while idx < |ext|
      invariant w.Valid() && 0 <= idx <= |ext| && w.written == start + |done|
      invariant w.Contents() == was + done && w.output[w.avail..] == old(w.output[w.avail..])
      invariant EmitAll(EmitExt, ext) == Then(Plain(done), EmitAll(EmitExt, ext[idx..]))
    {
      ghost var e := EmitExt(ext[idx]);
      assert ext[idx..][1..] == ext[idx + 1..];
      Onward(done, e, EmitAll(EmitExt, ext[idx + 1..]), w.avail - w.written);
      Assoc(was, done, e.bytes);
      result := EncodeExt(w, ext[idx]);
      if result < 0 {
        return;
      }
      done := done + e.bytes;
      idx := idx + 1;
    }
    return w.written - start;
  }

  /** The fields before the extensions, each with its own check for room. */
  method PutCertHead(w: Writer, obj: Cert) returns (ok: bool)
    requires w.Valid()
    modifies w`written, w.output
    ensures w.Valid() && ok == (old(w.written) + 40 <= w.avail)
    ensures ok ==> w.Contents() == old(w.Contents()) + CertHead(obj)
    ensures w.output[w.avail..] == old(w.output[w.avail..])
  {
    ghost var was := w.Contents();
    ok := w.Put([obj.version]);
    if !ok {
      return;
    }
    ok := w.Put([obj.certType]);
    if !ok {
      return;
    }
    ok := w.Put(Put32(obj.expField));
    if !ok {
      return;
    }
    ok := w.Put([obj.certKeyType]);
    if !ok {
      return;
    }
    ok := w.Put(obj.certifiedKey);
    if !ok {
      return;
    }
    ok := w.Put([obj.nExtensions]);
    CertHeadNests(was, [obj.version], [obj.certType], Put32(obj.expField), [obj.certKeyType], obj.certifiedKey,
        [obj.nExtensions]);
  }

  lemma CertHeadNests(was: seq<byte>, a: seq<byte>, b: seq<byte>, c: seq<byte>, d: seq<byte>, e: seq<byte>,
        f: seq<byte>)
    ensures was + a + b + c + d + e + f == was + (a + (b + (c + (d + (e + f)))))
  {
    Assoc(was + a + b + c + d, e, f);
    Assoc(was + a + b + c, d, e + f);
    Assoc(was + a + b, c, d + (e + f));
    Assoc(was + a, b, c + (d + (e + f)));
    Assoc(was, a, b + (c + (d + (e + f))));
  }

  method EncodeCert(w: Writer, obj: Cert) returns (result: int)
    requires w.Valid()
    modifies w`written, w.output
    ensures Emitted(w, EmitCert(obj), result)
  {
    if !CheckCert(obj) {
      return -1;
    }
    var start := w.written;
    ghost var was, head, ext, signature := w.Contents(), CertHead(obj), EmitAll(EmitExt, obj.ext), Plain(obj.signature);
    var ok := PutCertHead(w, obj);
    if !ok {
      return -2;
    }
    Onward(head, ext, signature, w.avail - w.written);
    Assoc(was, head, ext.bytes);
    result := EncodeExts(w, obj.ext);
    if result < 0 {
      return;
    }
    Assoc(was, head + ext.bytes, obj.signature);
    ok := w.Put(obj.signature);
    if !ok {
      return -2;
    }
    return w.written - start;
  }

  /** The loop over the extensions. */
  method ReadExts(input: seq<byte>, start: nat, n: nat) returns (result: int, elts: seq<Extension>)
    requires start <= |input|
    ensures Reports(result, elts, Many(ParseExt, n, input, start, []), start) && start + result <= |input|
  {
    elts := [];
    var ptr, idx := start, 0;
    ghost var at: seq<nat> := [start];
    while idx < n
      invariant 0 <= idx == |elts| <= n && start <= ptr <= |input|
      invariant Trace(ParseExt, input, at, elts) && at[0] == start && at[idx] == ptr
    {
      var elt;
      result, elt := ReadExt(input, ptr);
      if result < 0 {
        TraceFails(ParseExt, n, input, at, elts, result, elt);
        return;
      }
      TraceStep(ParseExt, input, at, elts, result, elt);
      ptr := ptr + result;
      at, elts := at + [ptr], elts + [elt];
      idx := idx + 1;
    }
    TraceEnds(ParseExt, n, input, at, elts);
    return ptr - start, elts;
  }

  /** The fields before the extensions. */
  method ReadCertHead(input: seq<byte>, start: nat) returns (result: int, obj: Cert)
    requires start <= |input|
    ensures result == 40 || result == -1 || result == -2
    ensures result == 40 ==> HeadParsed(input, start, obj) && obj.version == 1 && start + 40 <= |input|
    ensures result == -1 ==> ParseCert(input, start) == Bad
    ensures result == -2 ==> ParseCert(input, start) == Short
  {
    obj := Cert(1, 0, 0, 0, Zeros(32), 0, [], Zeros(64));
    var ptr, remaining := start, |input| - start;
    if remaining < 1 {
      return -2, obj;
    }
    obj := obj.(version := input[ptr]);
    remaining, ptr := remaining - 1, ptr + 1;
    if obj.version != 1 {
      return -1, obj;
    }
    if remaining < 1 {
      return -2, obj;
    }
    obj := obj.(certType := input[ptr]);
    remaining, ptr := remaining - 1, ptr + 1;
    if remaining < 4 {
      return -2, obj;
    }
    obj := obj.(expField := Get32(Get16(input[ptr], input[ptr + 1]), Get16(input[ptr + 2], input[ptr + 3])));
    remaining, ptr := remaining - 4, ptr + 4;
    if remaining < 1 {
      return -2, obj;
    }
    obj := obj.(certKeyType := input[ptr]);
    remaining, ptr := remaining - 1, ptr + 1;
    if remaining < 32 {
      return -2, obj;
    }
    obj := obj.(certifiedKey := input[ptr..ptr + 32]);
    remaining, ptr := remaining - 32, ptr + 32;
    if remaining < 1 {
      return -2, obj;
    }
    obj := obj.(nExtensions := input[ptr]);
    return 40, obj;
  }

  method ReadCert(input: seq<byte>, start: nat) returns (result: int, obj: Cert)
    requires start <= |input|
    ensures Reports(result, obj, ParseCert(input, start), start)
  {
    result, obj := ReadCertHead(input, start);
    if result < 0 {
      return;
    }
    var ptr, remaining := start + 40, |input| - start - 40;
    var ext;
    result, ext := ReadExts(input, ptr, obj.nExtensions);
    if result < 0 {
      return;
    }
    obj := obj.(ext := ext);
    remaining, ptr := remaining - result, ptr + result;
    if remaining < 64 {
      return -2, obj;
    }
    obj := obj.(signature := input[ptr..ptr + 64]);
    remaining, ptr := remaining - 64, ptr + 64;
    return ptr - start, obj;
  }

  // ------------------------------------------------------------ encoded lengths

  function EncodedLenLink(v: LinkSpecifier): (n: nat)
    ensures n == |EmitLink(v).bytes|
  {
    if v.lsType == LS_IPV4 then 1 + 1 + 4 + 2
    else if v.lsType == LS_IPV6 then 1 + 1 + 16 + 2
    else if v.lsType == LS_LEGACY_ID then 1 + 1 + 20
    else if v.lsType == LS_ED25519_ID then 1 + 1 + 32
    else 1 + 1 + |v.unrecognized|
  }

  function EncodedLenExt(v: Extension): (n: nat)
    ensures n == |EmitExt(v).bytes|
  {
    if v.extType == CERTEXT_SIGNED_WITH_KEY then 2 + 1 + 1 + 32 else 2 + 1 + 1 + |v.unparsed|
  }

  /** What the encoder returns, given that many bytes and unions that fit their length fields. */
  method EncodedLenExtend2(obj: Extend2) returns (result: int)
    ensures result == -1 <==> !CheckExtend2(obj)
    ensures EmitExtend2(obj).ok ==> result == |EmitExtend2(obj).bytes|
  {
    if !CheckExtend2(obj) {
      return -1;
    }
    result := 1;
    ghost var base := 1;
    assert obj.ls[0..] == obj.ls;
    for idx := 0 to |obj.ls|
      invariant result >= base
      invariant EmitAll(EmitLink, obj.ls).ok ==> EmitAll(EmitLink, obj.ls[idx..]).ok
      invariant EmitAll(EmitLink, obj.ls).ok ==>
          result + |EmitAll(EmitLink, obj.ls[idx..]).bytes| == base + |EmitAll(EmitLink, obj.ls).bytes|
    {
      assert obj.ls[idx..][1..] == obj.ls[idx + 1..];
      result := result + EncodedLenLink(obj.ls[idx]);
    }
    assert obj.ls[|obj.ls|..] == [];
    result := result + 4 + |obj.create2.handshakeData|;
  }

  method EncodedLenCert(obj: Cert) returns (result: int)
    ensures result == -1 <==> !CheckCert(obj)
    ensures EmitCert(obj).ok ==> result == |EmitCert(obj).bytes|
  {
    if !CheckCert(obj) {
      return -1;
    }
    result := 1 + 1 + 4 + 1 + 32 + 1;
    ghost var base := result;
    assert obj.ext[0..] == obj.ext;
    for idx := 0 to |obj.ext|
      invariant result >= base
      invariant EmitAll(EmitExt, obj.ext).ok ==> EmitAll(EmitExt, obj.ext[idx..]).ok
      invariant EmitAll(EmitExt, obj.ext).ok ==>
          result + |EmitAll(EmitExt, obj.ext[idx..]).bytes| == base + |EmitAll(EmitExt, obj.ext).bytes|
    {
      assert obj.ext[idx..][1..] == obj.ext[idx + 1..];
      result := result + EncodedLenExt(obj.ext[idx]);
    }
    assert obj.ext[|obj.ext|..] == [];
    result := result + 64;
  }

  // ------------------------------------------------------------ into a buffer

  /**
   `extend2_cell_body_encode`: with unions that fit, exactly the encoded length if there is room
   for it and -2 otherwise; nothing is written behind the room given.
   */
  method EncodeExtend2Into(output: array<byte>, avail: nat, obj: Extend2) returns (result: int)
    requires avail <= output.Length
    modifies output
    ensures var len := |EmitExtend2(obj).bytes|;
      EmitExtend2(obj).ok ==> result == if len <= avail then len else -2
    ensures result <= avail && (result >= 0 ==> Plain(output[..result]) == EmitExtend2(obj))
    ensures output[avail..] == old(output[avail..])
  {
    var w := new Writer(output, avail);
    result := EncodeExtend2(w, obj);
  }

  method EncodeCertInto(output: array<byte>, avail: nat, obj: Cert) returns (result: int)
    requires avail <= output.Length
    modifies output
    ensures var len := |EmitCert(obj).bytes|;
      EmitCert(obj).ok ==> result == if len <= avail then len else -2
    ensures result <= avail && (result >= 0 ==> Plain(output[..result]) == EmitCert(obj))
    ensures output[avail..] == old(output[avail..])
  {
    var w := new Writer(output, avail);
    result := EncodeCert(w, obj);
  }

  // ------------------------------------------------------------ when the unions fit

  /** An EXTEND2 body encodes exactly when its counts are right and its unrecognised specifiers are short. */
  lemma Extend2EmitsIff(v: Extend2)
    ensures EmitExtend2(v).ok <==> CheckExtend2(v) && forall k :: 0 <= k < |v.ls| ==> |LinkBody(v.ls[k])| < 0x100
  {
    EmitAllIff(EmitLink, v.ls);
    assert forall k :: 0 <= k < |v.ls| ==> (EmitLink(v.ls[k]).ok <==> |LinkBody(v.ls[k])| < 0x100);
  }

  lemma CertEmitsIff(v: Cert)
    ensures EmitCert(v).ok <==> CheckCert(v) && forall k :: 0 <= k < |v.ext| ==> |ExtBody(v.ext[k])| < 0x1_0000
  {
    EmitAllIff(EmitExt, v.ext);
    assert forall k :: 0 <= k < |v.ext| ==> (EmitExt(v.ext[k]).ok <==> |ExtBody(v.ext[k])| < 0x1_0000);
  }
}
