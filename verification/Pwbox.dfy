/**
 Password-protected boxes: a header of its own length, an initialisation vector, data up to the
 end of the input, and a digest in the last 32 bytes of it.
 */
module Pwbox {
  import opened Trunnel

  /** The two constants that a kind of box starts with. */
  datatype Magic = Magic(const0: u32, const1: u32)

  const PWBOX0 := Magic(1414484546, 1331179568)

  datatype Box = Box(
    fixedbytes0: u32, fixedbytes1: u32, headerLen: byte, skeyHeader: seq<byte>,
    iv: Bytes16, data: seq<byte>, hmac: Bytes32)

  predicate CheckBox(m: Magic, v: Box) {
    v.fixedbytes0 == m.const0 && v.fixedbytes1 == m.const1 && |v.skeyHeader| == v.headerLen
  }

  /** What comes before the data. */
  function BoxHead(v: Box): (s: seq<byte>)
    ensures |s| == 25 + |v.skeyHeader|
  {
    Put32(v.fixedbytes0) + (Put32(v.fixedbytes1) + ([v.headerLen] + (v.skeyHeader + v.iv)))
  }

  function EmitBox(m: Magic, v: Box): Emission {
    if !CheckBox(m, v) then REFUSED else Then(Plain(BoxHead(v)), Then(Plain(v.data), Plain(v.hmac)))
  }

  function ParseBox(m: Magic, b: seq<byte>, i: nat): Parsed<Box> {
    if |b| < i + 4 then Short
    else if U32(b, i).value != m.const0 then Bad
    else if |b| < i + 8 then Short
    else if U32(b, i + 4).value != m.const1 then Bad
    else if |b| < i + 9 || |b| < i + 9 + b[i + 8] + 16 + 32 then Short
    else
      var j := i + 9 + b[i + 8];
      Ok(Box(m.const0, m.const1, b[i + 8], b[i + 9..j], b[j..j + 16], b[j + 16..|b| - 32], b[|b| - 32..]), |b|)
  }

  /** The fields before the data are what is parsed. */
  predicate HeadParsed(b: seq<byte>, i: nat, v: Box) {
    var j := i + 9 + |v.skeyHeader|;
    && U32(b, i) == Ok(v.fixedbytes0, i + 4) && U32(b, i + 4) == Ok(v.fixedbytes1, i + 8) &&
        U8(b, i + 8) == Ok(v.headerLen, i + 9)
    && Bytes(b, i + 9, |v.skeyHeader|) == Ok(v.skeyHeader, j) && Bytes(b, j, 16) == Ok(v.iv, j + 16)
  }

  lemma BoxHeadAt(b: seq<byte>, i: nat, v: Box)
    ensures At(b, i, BoxHead(v)) <==> HeadParsed(b, i, v)
  {
    MagicAt(b, i, v.fixedbytes0, v.fixedbytes1, [v.headerLen] + (v.skeyHeader + v.iv));
    HeaderAt(b, i + 8, v.headerLen, v.skeyHeader, v.iv);
  }

  lemma HeaderAt(b: seq<byte>, i: nat, n: byte, header: seq<byte>, iv: Bytes16)
    ensures At(b, i, [n] + (header + iv)) <==>
      && U8(b, i) == Ok(n, i + 1) && Bytes(b, i + 1, |header|) == Ok(header, i + 1 + |header|)
      && Bytes(b, i + 1 + |header|, 16) == Ok(iv, i + 1 + |header| + 16)
  {
    AtConcat(b, i, [n], header + iv);
    AtConcat(b, i + 1, header, iv);
    AtPut8(b, i, n);
    AtBytes(b, i + 1, header);
    AtBytes(b, i + 1 + |header|, iv);
  }

  lemma MagicAt(b: seq<byte>, i: nat, x: u32, y: u32, rest: seq<byte>)
    ensures At(b, i, Put32(x) + (Put32(y) + rest)) <==>
      U32(b, i) == Ok(x, i + 4) && U32(b, i + 4) == Ok(y, i + 8) && At(b, i + 8, rest)
  {
    AtConcat(b, i, Put32(x), Put32(y) + rest);
    AtConcat(b, i + 4, Put32(y), rest);
    AtPut32(b, i, x);
    AtPut32(b, i + 4, y);
  }

  /** Parsing exactly an encoding gives the box back. */
  lemma BoxInverts(m: Magic, v: Box, b: seq<byte>, i: nat)
    requires EmitBox(m, v).ok && At(b, i, EmitBox(m, v).bytes) && |b| == i + |EmitBox(m, v).bytes|
    ensures ParseBox(m, b, i) == Ok(v, |b|)
  {
    AtThen3(b, i, Plain(BoxHead(v)), Plain(v.data), Plain(v.hmac));
    BoxHeadAt(b, i, v);
    AtBytes(b, i + 25 + |v.skeyHeader|, v.data);
    AtBytes(b, |b| - 32, v.hmac);
    BoxFrom(m, b, i, v);
  }

  lemma BoxFrom(m: Magic, b: seq<byte>, i: nat, v: Box)
    requires CheckBox(m, v) && HeadParsed(b, i, v) && |b| == i + 57 + |v.skeyHeader| + |v.data|
    requires Bytes(b, i + 25 + |v.skeyHeader|, |v.data|) == Ok(v.data, |b| - 32)
    requires Bytes(b, |b| - 32, 32) == Ok(v.hmac, |b|)
    ensures ParseBox(m, b, i) == Ok(v, |b|)
  {
    assert b[|b| - 32..] == b[|b| - 32..|b|];
  }

  /** A box takes all of the input, and encodes to all of it. */
  lemma BoxRestores(m: Magic, b: seq<byte>, i: nat)
    requires ParseBox(m, b, i).Ok?
    ensures ParseBox(m, b, i).next == |b| && RestoredAt(EmitBox(m, ParseBox(m, b, i).value), b, i, |b|)
  {
    var v := ParseBox(m, b, i).value;
    assert HeadParsed(b, i, v);
    BoxHeadAt(b, i, v);
    AtBytes(b, i + 25 + |v.skeyHeader|, v.data);
    AtBytes(b, |b| - 32, v.hmac);
    assert b[|b| - 32..] == b[|b| - 32..|b|];
    AtThen3(b, i, Plain(BoxHead(v)), Plain(v.data), Plain(v.hmac));
  }

  /**
   So a box does not say where it ends: whatever follows becomes part of it, the end of it as
   the digest and what is before that as data.
   */
  lemma BoxTakesTheRest(m: Magic, v: Box, rest: seq<byte>)
    requires EmitBox(m, v).ok
    ensures var p := ParseBox(m, EmitBox(m, v).bytes + rest, 0);
      && p.Ok? && p.next == |EmitBox(m, v).bytes| + |rest|
      && p.value.data + p.value.hmac == v.data + v.hmac + rest
      && p.value == v.(data := p.value.data, hmac := p.value.hmac)
  {
    var b := EmitBox(m, v).bytes + rest;
    var tail := v.data + v.hmac + rest;
    var v' := v.(data := tail[..|tail| - 32], hmac := tail[|tail| - 32..]);
    assert v'.data + v'.hmac == tail;
    assert BoxHead(v') == BoxHead(v);
    assert b == BoxHead(v') + (v'.data + v'.hmac);
    BoxInverts(m, v', b, 0);
  }

  /**
   And every prefix of a box that still has room for the fixed parts is a box, with less data and
   another digest; a shorter one is cut short.
   */
  lemma BoxPrefix(m: Magic, v: Box, k: nat)
    requires EmitBox(m, v).ok && k <= |EmitBox(m, v).bytes|
    ensures var p := ParseBox(m, EmitBox(m, v).bytes[..k], 0);
      var tail := v.data + v.hmac;
      var n := |v.skeyHeader| + 25;
      if k < n + 32 then p == Short
      else |tail| >= k - n && p == Ok(v.(data := tail[..k - n - 32], hmac := tail[k - n - 32..k - n]), k)
  {
    var b, tail, n := EmitBox(m, v).bytes, v.data + v.hmac, |v.skeyHeader| + 25;
    assert b == BoxHead(v) + tail;
    if k >= n + 32 {
      var v' := v.(data := tail[..k - n - 32], hmac := tail[k - n - 32..k - n]);
      assert v'.data + v'.hmac == tail[..k - n];
      assert BoxHead(v') == BoxHead(v);
      assert b[..k] == BoxHead(v') + (v'.data + v'.hmac);
      BoxInverts(m, v', b[..k], 0);
    } else {
      BoxTooShort(m, v, b, k);
    }
  }

  lemma BoxTooShort(m: Magic, v: Box, b: seq<byte>, k: nat)
    requires CheckBox(m, v) && At(b, 0, BoxHead(v)) && k <= |b| && k < |v.skeyHeader| + 57
    ensures ParseBox(m, b[..k], 0) == Short
  {
    BoxHeadAt(b, 0, v);
  }

  /** `pwbox_encoded_encode`, whose room is narrowed to the digest once the data are written. */
  method EncodeBox(m: Magic, w: Writer, obj: Box) returns (result: int)
    requires w.Valid()
    modifies w`written, w.output
    ensures Emitted(w, EmitBox(m, obj), result)
  {
    if !CheckBox(m, obj) {
      return -1;
    }
    var start := w.written;
    ghost var was, head := w.Contents(), BoxHead(obj);
    var ok := PutBoxHead(w, obj);
    if !ok {
      return -2;
    }
    ok := w.Put(obj.data);
    if !ok {
      return -2;
    }
    if w.avail - w.written < 32 {
      return -2;
    }
    var avail := w.written + 32;
    if avail - w.written < 32 {
      assert false;
    }
    ok := w.Put(obj.hmac);
    Assoc(was, head, obj.data);
    Assoc(was, head + obj.data, obj.hmac);
    Assoc(head, obj.data, obj.hmac);
    if avail != w.written {
      assert false;
    }
    return w.written - start;
  }

  method PutBoxHead(w: Writer, obj: Box) returns (ok: bool)
    requires w.Valid()
    modifies w`written, w.output
    ensures w.Valid() && ok == (old(w.written) + |BoxHead(obj)| <= w.avail)
    ensures ok ==> w.Contents() == old(w.Contents()) + BoxHead(obj)
    ensures w.output[w.avail..] == old(w.output[w.avail..])
  {
    ghost var was := w.Contents();
    ok := w.Put(Put32(obj.fixedbytes0));
    if !ok {
      return;
    }
    ok := w.Put(Put32(obj.fixedbytes1));
    if !ok {
      return;
    }
    ok := w.Put([obj.headerLen]);
    if !ok {
      return;
    }
    ok := w.Put(obj.skeyHeader);
    if !ok {
      return;
    }
    ok := w.Put(obj.iv);
    BoxHeadNests(was, Put32(obj.fixedbytes0), Put32(obj.fixedbytes1), [obj.headerLen], obj.skeyHeader, obj.iv);
  }

  lemma BoxHeadNests(was: seq<byte>, a: seq<byte>, b: seq<byte>, c: seq<byte>, d: seq<byte>, e: seq<byte>)
    ensures was + a + b + c + d + e == was + (a + (b + (c + (d + e))))
  {
    Assoc(was + a + b + c, d, e);
    Assoc(was + a + b, c, d + e);
    Assoc(was + a, b, c + (d + e));
    Assoc(was, a, b + (c + (d + e)));
  }

  method ReadBox(m: Magic, input: seq<byte>, start: nat) returns (result: int, obj: Box)
    requires start <= |input|
    ensures Reports(result, obj, ParseBox(m, input, start), start)
  {
    obj := Box(m.const0, m.const1, 0, [], Zeros(16), [], Zeros(32));
    var ptr, remaining := start, |input| - start;
    if remaining < 4 {
      return -2, obj;
    }
    obj := obj.(fixedbytes0 := Get32(Get16(input[ptr], input[ptr + 1]), Get16(input[ptr + 2], input[ptr + 3])));
    remaining, ptr := remaining - 4, ptr + 4;
    if obj.fixedbytes0 != m.const0 {
      return -1, obj;
    }
    if remaining < 4 {
      return -2, obj;
    }
    obj := obj.(fixedbytes1 := Get32(Get16(input[ptr], input[ptr + 1]), Get16(input[ptr + 2], input[ptr + 3])));
    remaining, ptr := remaining - 4, ptr + 4;
    if obj.fixedbytes1 != m.const1 {
      return -1, obj;
    }
    if remaining < 1 {
      return -2, obj;
    }
    obj := obj.(headerLen := input[ptr]);
    remaining, ptr := remaining - 1, ptr + 1;
    if remaining < obj.headerLen {
      return -2, obj;
    }
    obj := obj.(skeyHeader := input[ptr..ptr + obj.headerLen]);
    remaining, ptr := remaining - obj.headerLen, ptr + obj.headerLen;
    if remaining < 16 {
      return -2, obj;
    }
    obj := obj.(iv := input[ptr..ptr + 16]);
    remaining, ptr := remaining - 16, ptr + 16;
    if remaining < 32 {
      return -2, obj;
    }
    remaining := remaining - 32;
    obj := obj.(data := input[ptr..ptr + remaining]);
    ptr, remaining := ptr + remaining, 32;
    obj := obj.(hmac := input[ptr..ptr + 32]);
    remaining, ptr := remaining - 32, ptr + 32;
    assert input[|input| - 32..] == input[|input| - 32..|input|];
    return ptr - start, obj;
  }

  /** `pwbox_encoded_encoded_len`. */
  function EncodedLenBox(m: Magic, v: Box): (n: int)
    ensures n == if CheckBox(m, v) then |EmitBox(m, v).bytes| else -1
  {
    if !CheckBox(m, v) then -1 else 4 + 4 + 1 + |v.skeyHeader| + 16 + |v.data| + 32
  }

  /** The encoder and the parser with the constants of the first version. */
  method EncodePwbox(output: array<byte>, avail: nat, obj: Box) returns (result: int)
    requires avail <= output.Length
    modifies output
    ensures result == Result(EmitBox(PWBOX0, obj), avail)
    ensures result >= 0 ==> output[..result] == EmitBox(PWBOX0, obj).bytes
    ensures output[avail..] == old(output[avail..])
  {
    var w := new Writer(output, avail);
    result := EncodeBox(PWBOX0, w, obj);
  }

  method ReadPwbox(input: seq<byte>) returns (result: int, obj: Box)
    ensures Reports(result, obj, ParseBox(PWBOX0, input, 0), 0)
  {
    result, obj := ReadBox(PWBOX0, input, 0);
  }

  /** What is encoded is parsed to the same box, and what is parsed is encoded to the same bytes. */
  lemma BoxRoundTrips(m: Magic, v: Box, b: seq<byte>)
    ensures EmitBox(m, v).ok ==> ParseBox(m, EmitBox(m, v).bytes, 0) == Ok(v, |EmitBox(m, v).bytes|)
    ensures ParseBox(m, b, 0).Ok? ==> EmitBox(m, ParseBox(m, b, 0).value) == Plain(b)
  {
    if EmitBox(m, v).ok {
      BoxInverts(m, v, EmitBox(m, v).bytes, 0);
    }
    if ParseBox(m, b, 0).Ok? {
      BoxRestores(m, b, 0);
    }
  }
}
