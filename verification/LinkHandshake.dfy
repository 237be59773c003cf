/**
 Certificates cells and authentication challenge cells of the link handshake.
 */
module LinkHandshake {
  import opened Trunnel

  // ------------------------------------------------------------ certs_cell_cert

  datatype CertsCert = CertsCert(certType: byte, certLen: u16, body: seq<byte>)

  predicate CheckCertsCert(v: CertsCert) { |v.body| == v.certLen }

  function EmitCertsCert(v: CertsCert): Emission {
    if !CheckCertsCert(v) then REFUSED
    else Then(Plain([v.certType]), Then(Plain(Put16(v.certLen)), Plain(v.body)))
  }

  function ParseCertsCert(b: seq<byte>, i: nat): Parsed<CertsCert> {
    if |b| < i + 3 then Short
    else
      var n := Get16(b[i + 1], b[i + 2]);
      if |b| < i + 3 + n then Short else Ok(CertsCert(b[i], n, b[i + 3..i + 3 + n]), i + 3 + n)
  }

  lemma CertsCertStable(b: seq<byte>, x: seq<byte>, i: nat)
    requires !ParseCertsCert(b, i).Short?
    ensures ParseCertsCert(b + x, i) == ParseCertsCert(b, i)
  {
    var n := Get16(b[i + 1], b[i + 2]);
    SliceStable(b, x, i + 3, n);
    assert (b + x)[i + 1] == b[i + 1] && (b + x)[i + 2] == b[i + 2];
  }

  lemma CertsCertInverts(v: CertsCert, b: seq<byte>, i: nat)
    requires EmitCertsCert(v).ok && At(b, i, EmitCertsCert(v).bytes)
    ensures ParseCertsCert(b, i) == Ok(v, i + |EmitCertsCert(v).bytes|)
  {
    AtThen3(b, i, Plain([v.certType]), Plain(Put16(v.certLen)), Plain(v.body));
    AtPut8(b, i, v.certType);
    AtPut16(b, i + 1, v.certLen);
  }

  lemma CertsCertRestores(b: seq<byte>, i: nat)
    requires ParseCertsCert(b, i).Ok?
    ensures RestoredAt(EmitCertsCert(ParseCertsCert(b, i).value), b, i, ParseCertsCert(b, i).next)
  {
    var v := ParseCertsCert(b, i).value;
    AtThen3(b, i, Plain([v.certType]), Plain(Put16(v.certLen)), Plain(v.body));
    AtPut8(b, i, v.certType);
    AtPut16(b, i + 1, v.certLen);
  }

  lemma CertsCertCodec()
    ensures Codec(ParseCertsCert, EmitCertsCert, Same)
  {
    forall b: seq<byte>, x: seq<byte>, i: nat | !ParseCertsCert(b, i).Short?
      ensures ParseCertsCert(b + x, i) == ParseCertsCert(b, i)
    {
      CertsCertStable(b, x, i);
    }
    forall v, b, i: nat | EmitCertsCert(v).ok && At(b, i, EmitCertsCert(v).bytes)
      ensures ParseCertsCert(b, i) == Ok(Same(v), i + |EmitCertsCert(v).bytes|)
    {
      CertsCertInverts(v, b, i);
    }
    forall b, i: nat | ParseCertsCert(b, i).Ok?
      ensures RestoredAt(EmitCertsCert(ParseCertsCert(b, i).value), b, i, ParseCertsCert(b, i).next)
    {
      CertsCertRestores(b, i);
    }
  }

  method EncodeCertsCert(w: Writer, obj: CertsCert) returns (result: int)
    requires w.Valid()
    modifies w`written, w.output
    ensures Emitted(w, EmitCertsCert(obj), result)
  {
    var start := w.written;
    ghost var was := w.Contents();
    if |obj.body| != obj.certLen {
      return -1;
    }
    var ok := w.Put([obj.certType]);
    if !ok {
      return -2;
    }
    ok := w.Put(Put16(obj.certLen));
    if !ok {
      return -2;
    }
    Nest3(was, [obj.certType], Put16(obj.certLen), obj.body);
    ok := w.Put(obj.body);
    if !ok {
      return -2;
    }
    return w.written - start;
  }

  method ReadCertsCert(input: seq<byte>, start: nat) returns (result: int, obj: CertsCert)
    requires start <= |input|
    ensures Reports(result, obj, ParseCertsCert(input, start), start) && start + result <= |input|
  {
    obj := CertsCert(0, 0, []);
    var ptr, remaining := start, |input| - start;
    if remaining < 1 {
      return -2, obj;
    }
    obj := obj.(certType := input[ptr]);
    remaining, ptr := remaining - 1, ptr + 1;
    if remaining < 2 {
      return -2, obj;
    }
    obj := obj.(certLen := Get16(input[ptr], input[ptr + 1]));
    remaining, ptr := remaining - 2, ptr + 2;
    if remaining < obj.certLen {
      return -2, obj;
    }
    obj := obj.(body := input[ptr..ptr + obj.certLen]);
    remaining, ptr := remaining - obj.certLen, ptr + obj.certLen;
    return ptr - start, obj;
  }

  // ------------------------------------------------------------ certs_cell

  datatype CertsCell = CertsCell(nCerts: byte, certs: seq<CertsCert>)

  predicate CheckCertsCell(v: CertsCell) {
    |v.certs| == v.nCerts && forall k :: 0 <= k < |v.certs| ==> CheckCertsCert(v.certs[k])
  }

  function EmitCertsCell(v: CertsCell): Emission {
    if !CheckCertsCell(v) then REFUSED else Then(Plain([v.nCerts]), EmitAll(EmitCertsCert, v.certs))
  }

  function ParseCertsCell(b: seq<byte>, i: nat): Parsed<CertsCell> {
    if |b| < i + 1 then Short
    else
      match Many(ParseCertsCert, b[i], b, i + 1, [])
      case Bad => Bad
      case Short => Short
      case Ok(certs, j) => Ok(CertsCell(b[i], certs), j)
  }

  lemma CertsCellStable(b: seq<byte>, x: seq<byte>, i: nat)
    requires !ParseCertsCell(b, i).Short?
    ensures ParseCertsCell(b + x, i) == ParseCertsCell(b, i)
  {
    assert Many(ParseCertsCert, b[i], b + x, i + 1, []) == Many(ParseCertsCert, b[i], b, i + 1, []) by {
      CertsCertCodec();
      ListStable(ParseCertsCert, EmitCertsCert, Same, b[i], b, x, i + 1);
    }
  }

  lemma CertsCellInverts(v: CertsCell, b: seq<byte>, i: nat)
    requires EmitCertsCell(v).ok && At(b, i, EmitCertsCell(v).bytes)
    ensures ParseCertsCell(b, i) == Ok(v, i + |EmitCertsCell(v).bytes|)
  {
    var certs := EmitAll(EmitCertsCert, v.certs);
    AtThen(b, i, Plain([v.nCerts]), certs);
    AtPut8(b, i, v.nCerts);
    assert Many(ParseCertsCert, |v.certs|, b, i + 1, []) == Ok(v.certs, i + 1 + |certs.bytes|) by {
      CertsCertCodec();
      ListInverts(ParseCertsCert, EmitCertsCert, Same, v.certs, b, i + 1);
      NormalisedSame(v.certs);
    }
  }

  lemma CertsCellRestores(b: seq<byte>, i: nat)
    requires ParseCertsCell(b, i).Ok?
    ensures RestoredAt(EmitCertsCell(ParseCertsCell(b, i).value), b, i, ParseCertsCell(b, i).next)
  {
    var Ok(v, j) := ParseCertsCell(b, i);
    var certs := EmitAll(EmitCertsCert, v.certs);
    assert |v.certs| == b[i] && RestoredAt(certs, b, i + 1, j) by {
      CertsCertCodec();
      ListRestores(ParseCertsCert, EmitCertsCert, Same, b[i], b, i + 1);
    }
    EmitAllIff(EmitCertsCert, v.certs);
    assert forall k :: 0 <= k < |v.certs| ==> (EmitCertsCert(v.certs[k]).ok <==> CheckCertsCert(v.certs[k]));
    AtPut8(b, i, v.nCerts);
    AtThen(b, i, Plain([v.nCerts]), certs);
  }

  lemma CertsCellCodec()
    ensures Codec(ParseCertsCell, EmitCertsCell, Same)
  {
    forall b: seq<byte>, x: seq<byte>, i: nat | !ParseCertsCell(b, i).Short?
      ensures ParseCertsCell(b + x, i) == ParseCertsCell(b, i)
    {
      CertsCellStable(b, x, i);
    }
    forall v, b, i: nat | EmitCertsCell(v).ok && At(b, i, EmitCertsCell(v).bytes)
      ensures ParseCertsCell(b, i) == Ok(Same(v), i + |EmitCertsCell(v).bytes|)
    {
      CertsCellInverts(v, b, i);
    }
    forall b, i: nat | ParseCertsCell(b, i).Ok?
      ensures RestoredAt(EmitCertsCell(ParseCertsCell(b, i).value), b, i, ParseCertsCell(b, i).next)
    {
      CertsCellRestores(b, i);
    }
  }

  method CheckCerts(certs: seq<CertsCert>) returns (ok: bool)
    ensures ok <==> forall k :: 0 <= k < |certs| ==> CheckCertsCert(certs[k])
  {
    for idx := 0 to |certs|
      invariant forall k :: 0 <= k < idx ==> CheckCertsCert(certs[k])
    {
      if |certs[idx].body| != certs[idx].certLen {
        return false;
      }
    }
    return true;
  }

  method EncodeCerts(w: Writer, certs: seq<CertsCert>) returns (result: int)
    requires w.Valid()
    modifies w`written, w.output
    ensures Emitted(w, EmitAll(EmitCertsCert, certs), result)
  {
    var start := w.written;
    ghost var was, done := w.Contents(), [];
    var idx := 0;
    assert certs[0..] == certs;
    while idx < |certs|
      invariant w.Valid() && 0 <= idx <= |certs| && w.written == start + |done|
      invariant w.Contents() == was + done && w.output[w.avail..] == old(w.output[w.avail..])
      invariant EmitAll(EmitCertsCert, certs) == Then(Plain(done), EmitAll(EmitCertsCert, certs[idx..]))
    {
      ghost var e := EmitCertsCert(certs[idx]);
      assert certs[idx..][1..] == certs[idx + 1..];
      Onward(done, e, EmitAll(EmitCertsCert, certs[idx + 1..]), w.avail - w.written);
      Assoc(was, done, e.bytes);
      result := EncodeCertsCert(w, certs[idx]);
      if result < 0 {
        return;
      }
      done := done + e.bytes;
      idx := idx + 1;
    }
    return w.written - start;
  }

  method EncodeCertsCell(w: Writer, obj: CertsCell) returns (result: int)
    requires w.Valid()
    modifies w`written, w.output
    ensures Emitted(w, EmitCertsCell(obj), result)
    ensures !CheckCertsCell(obj) ==> w.output[..] == old(w.output[..])
  {
    var start := w.written;
    ghost var was, certs := w.Contents(), EmitAll(EmitCertsCert, obj.certs);
    var ok := CheckCerts(obj.certs);
    if !ok || |obj.certs| != obj.nCerts {
      return -1;
    }
    ok := w.Put([obj.nCerts]);
    if !ok {
      return -2;
    }
    Assoc(was, [obj.nCerts], certs.bytes);
    result := EncodeCerts(w, obj.certs);
    if result < 0 {
      return;
    }
    return w.written - start;
  }

  method ReadCerts(input: seq<byte>, start: nat, n: nat) returns (result: int, elts: seq<CertsCert>)
    requires start <= |input|
    ensures Reports(result, elts, Many(ParseCertsCert, n, input, start, []), start) && start + result <= |input|
  {
    elts := [];
    var ptr, idx := start, 0;
    ghost var at: seq<nat> := [start];
    while idx < n
      invariant 0 <= idx == |elts| <= n && start <= ptr <= |input|
      invariant Trace(ParseCertsCert, input, at, elts) && at[0] == start && at[idx] == ptr
    {
      var elt;
      result, elt := ReadCertsCert(input, ptr);
      if result < 0 {
        TraceFails(ParseCertsCert, n, input, at, elts, result, elt);
        return;
      }
      TraceStep(ParseCertsCert, input, at, elts, result, elt);
      ptr := ptr + result;
      at, elts := at + [ptr], elts + [elt];
      idx := idx + 1;
    }
    TraceEnds(ParseCertsCert, n, input, at, elts);
    return ptr - start, elts;
  }

  method ReadCertsCell(input: seq<byte>, start: nat) returns (result: int, obj: CertsCell)
    requires start <= |input|
    ensures Reports(result, obj, ParseCertsCell(input, start), start)
  {
    obj := CertsCell(0, []);
    var ptr, remaining := start, |input| - start;
    if remaining < 1 {
      return -2, obj;
    }
    obj := obj.(nCerts := input[ptr]);
    remaining, ptr := remaining - 1, ptr + 1;
    var certs;
    result, certs := ReadCerts(input, ptr, obj.nCerts);
    if result < 0 {
      return;
    }
    obj := obj.(certs := certs);
    return ptr + result - start, obj;
  }

  /** `certs_cell_encoded_len`. */
  method EncodedLenCertsCell(obj: CertsCell) returns (result: int)
    ensures result == if CheckCertsCell(obj) then |EmitCertsCell(obj).bytes| else -1
  {
    var ok := CheckCerts(obj.certs);
    if !ok || |obj.certs| != obj.nCerts {
      return -1;
    }
    result := 1;
    ghost var base := 1;
    EmitAllIff(EmitCertsCert, obj.certs);
    assert obj.certs[0..] == obj.certs;
    for idx := 0 to |obj.certs|
      invariant EmitAll(EmitCertsCert, obj.certs).ok ==> EmitAll(EmitCertsCert, obj.certs[idx..]).ok
      invariant EmitAll(EmitCertsCert, obj.certs).ok ==>
          result + |EmitAll(EmitCertsCert, obj.certs[idx..]).bytes| == base + |EmitAll(EmitCertsCert, obj.certs).bytes|
    {
      assert obj.certs[idx..][1..] == obj.certs[idx + 1..];
      result := result + EncodedLenCertsCert(obj.certs[idx]);
    }
    assert obj.certs[|obj.certs|..] == [];
  }

  function EncodedLenCertsCert(v: CertsCert): (n: nat)
    ensures CheckCertsCert(v) ==> n == |EmitCertsCert(v).bytes|
  {
    1 + 2 + |v.body|
  }

  // ------------------------------------------------------------ auth_challenge_cell

  datatype AuthChallenge = AuthChallenge(challenge: Bytes32, nMethods: u16, methods: seq<u16>)

  function EmitU16(x: u16): Emission { Plain(Put16(x)) }

  function ParseU16(b: seq<byte>, i: nat): Parsed<u16> { U16(b, i) }

  function EmitAuthChallenge(v: AuthChallenge): Emission {
    if |v.methods| != v.nMethods then REFUSED
    else Then(Plain(v.challenge), Then(Plain(Put16(v.nMethods)), EmitAll(EmitU16, v.methods)))
  }

  function ParseAuthChallenge(b: seq<byte>, i: nat): Parsed<AuthChallenge> {
    if |b| < i + 34 then Short
    else
      var n := Get16(b[i + 32], b[i + 33]);
      match Many(ParseU16, n, b, i + 34, [])
      case Bad => Bad
      case Short => Short
      case Ok(methods, j) => Ok(AuthChallenge(b[i..i + 32], n, methods), j)
  }

  lemma U16Stable(b: seq<byte>, x: seq<byte>, i: nat)
    requires !ParseU16(b, i).Short?
    ensures ParseU16(b + x, i) == ParseU16(b, i)
  {
    assert (b + x)[i] == b[i] && (b + x)[i + 1] == b[i + 1];
  }

  lemma U16Inverts(v: u16, b: seq<byte>, i: nat)
    requires EmitU16(v).ok && At(b, i, EmitU16(v).bytes)
    ensures ParseU16(b, i) == Ok(v, i + |EmitU16(v).bytes|)
  {
    AtPut16(b, i, v);
  }

  lemma U16Restores(b: seq<byte>, i: nat)
    requires ParseU16(b, i).Ok?
    ensures RestoredAt(EmitU16(ParseU16(b, i).value), b, i, ParseU16(b, i).next)
  {
    AtPut16(b, i, ParseU16(b, i).value);
  }

  lemma U16Codec()
    ensures Codec(ParseU16, EmitU16, Same)
  {
    forall b: seq<byte>, x: seq<byte>, i: nat | !ParseU16(b, i).Short? ensures ParseU16(b + x, i) == ParseU16(b, i) {
      U16Stable(b, x, i);
    }
    forall v, b, i: nat | EmitU16(v).ok && At(b, i, EmitU16(v).bytes)
      ensures ParseU16(b, i) == Ok(Same(v), i + |EmitU16(v).bytes|)
    {
      U16Inverts(v, b, i);
    }
    forall b, i: nat | ParseU16(b, i).Ok? ensures RestoredAt(EmitU16(ParseU16(b, i).value), b, i, ParseU16(b, i).next) {
      U16Restores(b, i);
    }
  }

  lemma AuthChallengeStable(b: seq<byte>, x: seq<byte>, i: nat)
    requires !ParseAuthChallenge(b, i).Short?
    ensures ParseAuthChallenge(b + x, i) == ParseAuthChallenge(b, i)
  {
    SliceStable(b, x, i, 32);
    var n := Get16(b[i + 32], b[i + 33]);
    assert (b + x)[i + 32] == b[i + 32] && (b + x)[i + 33] == b[i + 33];
    assert Many(ParseU16, n, b + x, i + 34, []) == Many(ParseU16, n, b, i + 34, []) by {
      U16Codec();
      ListStable(ParseU16, EmitU16, Same, n, b, x, i + 34);
    }
  }

  lemma AuthChallengeInverts(v: AuthChallenge, b: seq<byte>, i: nat)
    requires EmitAuthChallenge(v).ok && At(b, i, EmitAuthChallenge(v).bytes)
    ensures ParseAuthChallenge(b, i) == Ok(v, i + |EmitAuthChallenge(v).bytes|)
  {
    var methods := EmitAll(EmitU16, v.methods);
    AtThen3(b, i, Plain(v.challenge), Plain(Put16(v.nMethods)), methods);
    AtPut16(b, i + 32, v.nMethods);
    assert Many(ParseU16, |v.methods|, b, i + 34, []) == Ok(v.methods, i + 34 + |methods.bytes|) by {
      U16Codec();
      ListInverts(ParseU16, EmitU16, Same, v.methods, b, i + 34);
      NormalisedSame(v.methods);
    }
  }

  lemma AuthChallengeRestores(b: seq<byte>, i: nat)
    requires ParseAuthChallenge(b, i).Ok?
    ensures RestoredAt(EmitAuthChallenge(ParseAuthChallenge(b, i).value), b, i, ParseAuthChallenge(b, i).next)
  {
    var Ok(v, j) := ParseAuthChallenge(b, i);
    var methods := EmitAll(EmitU16, v.methods);
    assert |v.methods| == v.nMethods && RestoredAt(methods, b, i + 34, j) by {
      U16Codec();
      ListRestores(ParseU16, EmitU16, Same, v.nMethods, b, i + 34);
    }
    AtPut16(b, i + 32, v.nMethods);
    AtThen3(b, i, Plain(v.challenge), Plain(Put16(v.nMethods)), methods);
  }

  lemma AuthChallengeCodec()
    ensures Codec(ParseAuthChallenge, EmitAuthChallenge, Same)
  {
    forall b: seq<byte>, x: seq<byte>, i: nat | !ParseAuthChallenge(b, i).Short?
      ensures ParseAuthChallenge(b + x, i) == ParseAuthChallenge(b, i)
    {
      AuthChallengeStable(b, x, i);
    }
    forall v, b, i: nat | EmitAuthChallenge(v).ok && At(b, i, EmitAuthChallenge(v).bytes)
      ensures ParseAuthChallenge(b, i) == Ok(Same(v), i + |EmitAuthChallenge(v).bytes|)
    {
      AuthChallengeInverts(v, b, i);
    }
    forall b, i: nat | ParseAuthChallenge(b, i).Ok?
      ensures RestoredAt(EmitAuthChallenge(ParseAuthChallenge(b, i).value), b, i, ParseAuthChallenge(b, i).next)
    {
      AuthChallengeRestores(b, i);
    }
  }

  method EncodeU16(w: Writer, x: u16) returns (result: int)
    requires w.Valid()
    modifies w`written, w.output
    ensures Emitted(w, EmitU16(x), result)
  {
    var ok := w.Put(Put16(x));
    return if ok then 2 else -2;
  }

  method EncodeMethods(w: Writer, methods: seq<u16>) returns (result: int)
    requires w.Valid()
    modifies w`written, w.output
    ensures Emitted(w, EmitAll(EmitU16, methods), result)
  {
    var start := w.written;
    ghost var was, done := w.Contents(), [];
    var idx := 0;
    assert methods[0..] == methods;
    while idx < |methods|
      invariant w.Valid() && 0 <= idx <= |methods| && w.written == start + |done|
      invariant w.Contents() == was + done && w.output[w.avail..] == old(w.output[w.avail..])
      invariant EmitAll(EmitU16, methods) == Then(Plain(done), EmitAll(EmitU16, methods[idx..]))
    {
      ghost var e := EmitU16(methods[idx]);
      assert methods[idx..][1..] == methods[idx + 1..];
      Onward(done, e, EmitAll(EmitU16, methods[idx + 1..]), w.avail - w.written);
      Assoc(was, done, e.bytes);
      result := EncodeU16(w, methods[idx]);
      if result < 0 {
        return;
      }
      done := done + e.bytes;
      idx := idx + 1;
    }
    return w.written - start;
  }

  method EncodeAuthChallenge(w: Writer, obj: AuthChallenge) returns (result: int)
    requires w.Valid()
    modifies w`written, w.output
    ensures Emitted(w, EmitAuthChallenge(obj), result)
  {
    var start := w.written;
    ghost var was, n, methods := w.Contents(), Put16(obj.nMethods), EmitAll(EmitU16, obj.methods);
    if |obj.methods| != obj.nMethods {
      return -1;
    }
    var ok := w.Put(obj.challenge);
    if !ok {
      return -2;
    }
    ok := w.Put(Put16(obj.nMethods));
    if !ok {
      return -2;
    }
    Assoc(was, obj.challenge, n);
    Assoc(was, obj.challenge + n, methods.bytes);
    Assoc(obj.challenge, n, methods.bytes);
    result := EncodeMethods(w, obj.methods);
    if result < 0 {
      return;
    }
    return w.written - start;
  }

  /** `auth_challenge_cell_encoded_len`. */
  function EncodedLenAuthChallenge(v: AuthChallenge): (n: int)
    ensures n == if |v.methods| == v.nMethods then |EmitAuthChallenge(v).bytes| else -1
  {
    MethodsLen(v.methods);
    if |v.methods| != v.nMethods then -1 else 32 + 2 + 2 * |v.methods|
  }

  lemma {:induction false} MethodsLen(methods: seq<u16>)
    ensures EmitAll(EmitU16, methods).ok && |EmitAll(EmitU16, methods).bytes| == 2 * |methods|
  {
    if methods != [] {
      MethodsLen(methods[1..]);
    }
  }

  method ReadU16(input: seq<byte>, start: nat) returns (result: int, x: u16)
    requires start <= |input|
    ensures Reports(result, x, ParseU16(input, start), start) && start + result <= |input|
  {
    if |input| - start < 2 {
      return -2, 0;
    }
    return 2, Get16(input[start], input[start + 1]);
  }

  method ReadMethods(input: seq<byte>, start: nat, n: nat) returns (result: int, elts: seq<u16>)
    requires start <= |input|
    ensures Reports(result, elts, Many(ParseU16, n, input, start, []), start) && start + result <= |input|
  {
    elts := [];
    var ptr, idx := start, 0;
    ghost var at: seq<nat> := [start];
    while idx < n
      invariant 0 <= idx == |elts| <= n && start <= ptr <= |input|
      invariant Trace(ParseU16, input, at, elts) && at[0] == start && at[idx] == ptr
    {
      var elt;
      result, elt := ReadU16(input, ptr);
      if result < 0 {
        TraceFails(ParseU16, n, input, at, elts, result, elt);
        return;
      }
      TraceStep(ParseU16, input, at, elts, result, elt);
      ptr := ptr + result;
      at, elts := at + [ptr], elts + [elt];
      idx := idx + 1;
    }
    TraceEnds(ParseU16, n, input, at, elts);
    return ptr - start, elts;
  }

  method ReadAuthChallenge(input: seq<byte>, start: nat) returns (result: int, obj: AuthChallenge)
    requires start <= |input|
    ensures Reports(result, obj, ParseAuthChallenge(input, start), start)
  {
    obj := AuthChallenge(Zeros(32), 0, []);
    var ptr, remaining := start, |input| - start;
    if remaining < 32 {
      return -2, obj;
    }
    obj := obj.(challenge := input[ptr..ptr + 32]);
    remaining, ptr := remaining - 32, ptr + 32;
    if remaining < 2 {
      return -2, obj;
    }
    obj := obj.(nMethods := Get16(input[ptr], input[ptr + 1]));
    remaining, ptr := remaining - 2, ptr + 2;
    var methods;
    result, methods := ReadMethods(input, ptr, obj.nMethods);
    if result < 0 {
      return;
    }
    obj := obj.(methods := methods);
    return ptr + result - start, obj;
  }
}
