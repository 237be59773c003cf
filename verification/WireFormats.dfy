/**
 The formats on the wire, in numbers and offsets and without the parsers' and encoders' own terms:
 which byte of a message holds what.  Parsers read exactly this and encoders write exactly this, and
 each parser's two ways to fail are told apart.
 */
module WireFormats {
  import opened Trunnel
  import Ed = Ed25519Cert
  import Lh = LinkHandshake
  import Ni = Netinfo
  import Tx = TrnExtensions
  import Pw = Pwbox

  /** Bytes `s` from position `i` to `j`. */
  predicate Span(b: seq<byte>, i: nat, j: nat, s: seq<byte>) {
    i <= j <= |b| && b[i..j] == s
  }

  // ------------------------------------------------------------ CREATE2 and EXTEND2

  predicate Create2Layout(b: seq<byte>, i: nat, j: nat, v: Ed.Create2) {
    && Int16(b, i, v.handshakeType) && Int16(b, i + 2, v.handshakeLen)
    && j == i + 4 + v.handshakeLen && Span(b, i + 4, j, v.handshakeData)
  }

  /** Type, length, and the address, identity or whatever it is for that type. */
  predicate LinkLayout(b: seq<byte>, i: nat, j: nat, v: Ed.LinkSpecifier) {
    && i + 2 <= |b| && b[i] == v.lsType && j == i + 2 + b[i + 1] && j <= |b|
    && (v.lsType == 0 ==> j == i + 8 && Int32(b, i + 2, v.ipv4Addr) && Int16(b, i + 6, v.ipv4Port))
    && (v.lsType == 1 ==> j == i + 20 && Span(b, i + 2, i + 18, v.ipv6Addr) && Int16(b, i + 18, v.ipv6Port))
    && (v.lsType == 2 ==> j == i + 22 && Span(b, i + 2, i + 22, v.legacyId))
    && (v.lsType == 3 ==> j == i + 34 && Span(b, i + 2, i + 34, v.ed25519Id))
    && (v.lsType > 3 ==> Span(b, i + 2, j, v.unrecognized))
  }

  /** Count, specifiers, CREATE2 body. */
  ghost predicate Extend2Layout(b: seq<byte>, i: nat, j: nat, v: Ed.Extend2) {
    && i < |b| && b[i] == v.nSpec == |v.ls|
    && exists m: nat {:trigger Create2Layout(b, m, j, v.create2)} ::
      ListFrom(LinkLayout, b, i + 1, m, v.ls) && Create2Layout(b, m, j, v.create2)
  }

  lemma Create2Reads(b: seq<byte>, i: nat)
    ensures ParsedAs(Ed.ParseCreate2(b, i), b, i, Create2Layout)
    ensures !Ed.ParseCreate2(b, i).Bad?
    ensures Ed.ParseCreate2(b, i).Short? <==>
      |b| < i + 4 || |b| < i + 4 + 0x100 * b[i + 2] as int + b[i + 3]
  {
    if |b| >= i + 4 {
      Get16Value(b[i], b[i + 1]);
      Get16Value(b[i + 2], b[i + 3]);
    }
  }

  /** A successful parse is laid out so. */
  ghost predicate ParsedAs<T>(p: Parsed<T>, b: seq<byte>, i: nat, layout: (seq<byte>, nat, nat, T) -> bool) {
    p.Ok? ==> layout(b, i, p.next, p.value)
  }

  lemma Create2Format()
    ensures Format(Ed.ParseCreate2, Ed.EmitCreate2, Create2Layout)
  {
    forall b: seq<byte>, i: nat | Ed.ParseCreate2(b, i).Ok?
      ensures Create2Layout(b, i, Ed.ParseCreate2(b, i).next, Ed.ParseCreate2(b, i).value)
    {
      Create2Reads(b, i);
    }
    forall v, b: seq<byte>, i: nat | Ed.EmitCreate2(v).ok && At(b, i, Ed.EmitCreate2(v).bytes)
      ensures Create2Layout(b, i, i + |Ed.EmitCreate2(v).bytes|, v)
    {
      Create2Writes(v, b, i);
    }
  }

  /** A specifier is cut short before anything else is found wrong with it, and malformed for a wrong length. */
  lemma LinkReads(b: seq<byte>, i: nat)
    ensures ParsedAs(Ed.ParseLink(b, i), b, i, LinkLayout)
    ensures Ed.ParseLink(b, i).Short? <==> |b| < i + 2 || |b| < i + 2 + b[i + 1]
    ensures Ed.ParseLink(b, i).Bad? <==>
      && i + 2 <= |b| && i + 2 + b[i + 1] <= |b|
      && ((b[i] == 0 && b[i + 1] != 6) || (b[i] == 1 && b[i + 1] != 18) ||
          (b[i] == 2 && b[i + 1] != 20) || (b[i] == 3 && b[i + 1] != 32))
    ensures Ed.ParseLink(b, i).Ok? ==> Ed.ParseLink(b, i).value.lsLen == b[i + 1]
  {
    if i + 2 <= |b| && i + 2 + b[i + 1] <= |b| {
      var body := b[i + 2..i + 2 + b[i + 1]];
      if b[i] == 0 && b[i + 1] == 6 {
        U32Value(body, 0, U32(body, 0).value);
        U16Value(body, 4, U16(body, 4).value);
        assert forall k :: 0 <= k < 6 ==> body[k] == b[i + 2 + k];
      } else if b[i] == 1 && b[i + 1] == 18 {
        U16Value(body, 16, U16(body, 16).value);
        assert body[..16] == b[i + 2..i + 18] && body[16] == b[i + 18] && body[17] == b[i + 19];
      }
    }
  }

  lemma LinkFormat()
    ensures Format(Ed.ParseLink, Ed.EmitLink, LinkLayout)
  {
    forall b: seq<byte>, i: nat | Ed.ParseLink(b, i).Ok?
      ensures LinkLayout(b, i, Ed.ParseLink(b, i).next, Ed.ParseLink(b, i).value)
    {
      LinkReads(b, i);
    }
    forall v, b: seq<byte>, i: nat | Ed.EmitLink(v).ok && At(b, i, Ed.EmitLink(v).bytes)
      ensures LinkLayout(b, i, i + |Ed.EmitLink(v).bytes|, v)
    {
      Ed.LinkInverts(v, b, i);
      LinkReads(b, i);
    }
  }

  /** A body fails as its list of specifiers does, or is cut short in front of it or behind it. */
  lemma Extend2Reads(b: seq<byte>, i: nat)
    ensures ParsedAs(Ed.ParseExtend2(b, i), b, i, Extend2Layout)
    ensures Ed.ParseExtend2(b, i).Bad? <==> i < |b| && Many(Ed.ParseLink, b[i], b, i + 1, []).Bad?
  {
    if Ed.ParseExtend2(b, i).Ok? {
      var v := Ed.ParseExtend2(b, i).value;
      var m := Many(Ed.ParseLink, b[i], b, i + 1, []).next;
      LinkFormat();
      ListFormat(Ed.ParseLink, Ed.EmitLink, LinkLayout, b[i], b, i + 1);
      Create2Reads(b, m);
    }
  }

  lemma Extend2Writes(v: Ed.Extend2, b: seq<byte>, i: nat)
    requires Ed.EmitExtend2(v).ok && At(b, i, Ed.EmitExtend2(v).bytes)
    ensures Extend2Layout(b, i, i + |Ed.EmitExtend2(v).bytes|, v)
  {
    var m := Extend2Parts(v, b, i);
    LinksWrite(v.ls, b, i + 1);
    Create2Writes(v.create2, b, m);
  }

  lemma Extend2Parts(v: Ed.Extend2, b: seq<byte>, i: nat) returns (m: nat)
    requires Ed.EmitExtend2(v).ok && At(b, i, Ed.EmitExtend2(v).bytes)
    ensures i < |b| && b[i] == v.nSpec == |v.ls|
    ensures EmitAll(Ed.EmitLink, v.ls).ok && At(b, i + 1, EmitAll(Ed.EmitLink, v.ls).bytes)
    ensures m == i + 1 + |EmitAll(Ed.EmitLink, v.ls).bytes|
    ensures Ed.EmitCreate2(v.create2).ok && At(b, m, Ed.EmitCreate2(v.create2).bytes)
    ensures |Ed.EmitExtend2(v).bytes| == m - i + |Ed.EmitCreate2(v.create2).bytes|
  {
    AtThen3(b, i, Plain([v.nSpec]), EmitAll(Ed.EmitLink, v.ls), Ed.EmitCreate2(v.create2));
    AtPut8(b, i, v.nSpec);
    m := i + 1 + |EmitAll(Ed.EmitLink, v.ls).bytes|;
  }

  lemma Create2Writes(v: Ed.Create2, b: seq<byte>, i: nat)
    requires Ed.EmitCreate2(v).ok && At(b, i, Ed.EmitCreate2(v).bytes)
    ensures Create2Layout(b, i, i + |Ed.EmitCreate2(v).bytes|, v)
  {
    Ed.Create2Inverts(v, b, i);
    Create2Reads(b, i);
  }

  lemma LinksWrite(ls: seq<Ed.LinkSpecifier>, b: seq<byte>, i: nat)
    requires EmitAll(Ed.EmitLink, ls).ok && At(b, i, EmitAll(Ed.EmitLink, ls).bytes)
    ensures ListFrom(LinkLayout, b, i, i + |EmitAll(Ed.EmitLink, ls).bytes|, ls)
  {
    LinkFormat();
    EmittedFormat(Ed.ParseLink, Ed.EmitLink, LinkLayout, ls, b, i);
  }

  // ------------------------------------------------------------ certificates

  /** Length, type, flags, and the signing key or whatever it is for that type. */
  predicate ExtLayout(b: seq<byte>, i: nat, j: nat, v: Ed.Extension) {
    && i + 4 <= j <= |b| && j - i - 4 < 0x1_0000 && Int16(b, i, j - i - 4)
    && b[i + 2] == v.extType && b[i + 3] == v.extFlags
    && if v.extType == 4 then j == i + 36 && Span(b, i + 4, j, v.signingKey) else Span(b, i + 4, j, v.unparsed)
  }

  ghost predicate CertLayout(b: seq<byte>, i: nat, j: nat, v: Ed.Cert) {
    && i + 104 <= j <= |b|
    && b[i] == v.version == 1 && b[i + 1] == v.certType && Int32(b, i + 2, v.expField)
    && b[i + 6] == v.certKeyType && Span(b, i + 7, i + 39, v.certifiedKey)
    && b[i + 39] == v.nExtensions == |v.ext| && ListFrom(ExtLayout, b, i + 40, j - 64, v.ext)
    && Span(b, j - 64, j, v.signature)
  }

  lemma ExtReads(b: seq<byte>, i: nat)
    ensures ParsedAs(Ed.ParseExt(b, i), b, i, ExtLayout)
    ensures Ed.ParseExt(b, i).Short? <==> |b| < i + 4 || |b| < i + 4 + 0x100 * b[i] as int + b[i + 1]
    ensures Ed.ParseExt(b, i).Bad? <==>
      && i + 4 <= |b| && i + 4 + 0x100 * b[i] as int + b[i + 1] <= |b|
      && b[i + 2] == 4 && !(b[i] == 0 && b[i + 1] == 32)
    ensures Ed.ParseExt(b, i).Ok? ==> Int16(b, i, Ed.ParseExt(b, i).value.extLength)
  {
    if |b| >= i + 4 {
      Get16Value(b[i], b[i + 1]);
    }
  }

  lemma ExtFormat()
    ensures Format(Ed.ParseExt, Ed.EmitExt, ExtLayout)
  {
    forall b: seq<byte>, i: nat | Ed.ParseExt(b, i).Ok?
      ensures ExtLayout(b, i, Ed.ParseExt(b, i).next, Ed.ParseExt(b, i).value)
    {
      ExtReads(b, i);
    }
    forall v, b: seq<byte>, i: nat | Ed.EmitExt(v).ok && At(b, i, Ed.EmitExt(v).bytes)
      ensures ExtLayout(b, i, i + |Ed.EmitExt(v).bytes|, v)
    {
      Ed.ExtInverts(v, b, i);
      ExtReads(b, i);
    }
  }

  /** A wrong version is malformed however little follows it; nothing else but an extension is. */
  lemma CertReads(b: seq<byte>, i: nat)
    ensures ParsedAs(Ed.ParseCert(b, i), b, i, CertLayout)
    ensures i < |b| && b[i] != 1 ==> Ed.ParseCert(b, i).Bad?
    ensures |b| <= i || (b[i] == 1 && |b| < i + 40) ==> Ed.ParseCert(b, i).Short?
    ensures i + 40 <= |b| && b[i] == 1 ==>
      (Ed.ParseCert(b, i).Bad? <==> Many(Ed.ParseExt, b[i + 39], b, i + 40, []).Bad?)
  {
    if Ed.ParseCert(b, i).Ok? {
      Ed.CertInto(b, i);
      ExtsRead(b[i + 39], b, i + 40);
      CertHeadReads(b, i, Ed.ParseCert(b, i).value);
    }
  }

  lemma CertHeadReads(b: seq<byte>, i: nat, v: Ed.Cert)
    requires Ed.HeadParsed(b, i, v)
    ensures i + 40 <= |b| && b[i] == v.version && b[i + 1] == v.certType && Int32(b, i + 2, v.expField)
    ensures b[i + 6] == v.certKeyType && Span(b, i + 7, i + 39, v.certifiedKey) && b[i + 39] == v.nExtensions
  {
    U32Value(b, i + 2, v.expField);
  }

  lemma ExtsRead(n: nat, b: seq<byte>, i: nat)
    requires i <= |b| && Many(Ed.ParseExt, n, b, i, []).Ok?
    ensures var Ok(vs, j) := Many(Ed.ParseExt, n, b, i, []); |vs| == n && i <= j && ListFrom(ExtLayout, b, i, j, vs)
  {
    ExtFormat();
    ListFormat(Ed.ParseExt, Ed.EmitExt, ExtLayout, n, b, i);
    Ed.ExtsRestore(n, b, i);
  }

  lemma CertWrites(v: Ed.Cert, b: seq<byte>, i: nat)
    requires Ed.EmitCert(v).ok && At(b, i, Ed.EmitCert(v).bytes)
    ensures CertLayout(b, i, i + |Ed.EmitCert(v).bytes|, v)
  {
    var ext := EmitAll(Ed.EmitExt, v.ext);
    AtThen3(b, i, Plain(Ed.CertHead(v)), ext, Plain(v.signature));
    Ed.CertHeadAt(b, i, v);
    CertHeadReads(b, i, v);
    ExtFormat();
    EmittedFormat(Ed.ParseExt, Ed.EmitExt, ExtLayout, v.ext, b, i + 40);
  }

  // ------------------------------------------------------------ CERTS and AUTH_CHALLENGE

  predicate CertsCertLayout(b: seq<byte>, i: nat, j: nat, v: Lh.CertsCert) {
    && i + 3 <= |b| && b[i] == v.certType && Int16(b, i + 1, v.certLen)
    && j == i + 3 + v.certLen && Span(b, i + 3, j, v.body)
  }

  ghost predicate CertsCellLayout(b: seq<byte>, i: nat, j: nat, v: Lh.CertsCell) {
    i < |b| && b[i] == v.nCerts == |v.certs| && ListFrom(CertsCertLayout, b, i + 1, j, v.certs)
  }

  predicate MethodLayout(b: seq<byte>, i: nat, j: nat, v: u16) {
    j == i + 2 && Int16(b, i, v)
  }

  ghost predicate AuthChallengeLayout(b: seq<byte>, i: nat, j: nat, v: Lh.AuthChallenge) {
    && Span(b, i, i + 32, v.challenge) && Int16(b, i + 32, v.nMethods)
    && |v.methods| == v.nMethods && ListFrom(MethodLayout, b, i + 34, j, v.methods)
  }

  lemma CertsCertReads(b: seq<byte>, i: nat)
    ensures ParsedAs(Lh.ParseCertsCert(b, i), b, i, CertsCertLayout)
    ensures !Lh.ParseCertsCert(b, i).Bad?
    ensures Lh.ParseCertsCert(b, i).Short? <==>
      |b| < i + 3 || |b| < i + 3 + 0x100 * b[i + 1] as int + b[i + 2]
  {
    if |b| >= i + 3 {
      Get16Value(b[i + 1], b[i + 2]);
    }
  }

  lemma CertsCertFormat()
    ensures Format(Lh.ParseCertsCert, Lh.EmitCertsCert, CertsCertLayout)
  {
    forall b: seq<byte>, i: nat | Lh.ParseCertsCert(b, i).Ok?
      ensures CertsCertLayout(b, i, Lh.ParseCertsCert(b, i).next, Lh.ParseCertsCert(b, i).value)
    {
      CertsCertReads(b, i);
    }
    forall v, b: seq<byte>, i: nat | Lh.EmitCertsCert(v).ok && At(b, i, Lh.EmitCertsCert(v).bytes)
      ensures CertsCertLayout(b, i, i + |Lh.EmitCertsCert(v).bytes|, v)
    {
      Lh.CertsCertInverts(v, b, i);
      CertsCertReads(b, i);
    }
  }

  lemma CertsCellFormat()
    ensures Format(Lh.ParseCertsCell, Lh.EmitCertsCell, CertsCellLayout)
  {
    CertsCertFormat();
    forall b: seq<byte>, i: nat | Lh.ParseCertsCell(b, i).Ok?
      ensures CertsCellLayout(b, i, Lh.ParseCertsCell(b, i).next, Lh.ParseCertsCell(b, i).value)
    {
      ListFormat(Lh.ParseCertsCert, Lh.EmitCertsCert, CertsCertLayout, b[i], b, i + 1);
    }
    forall v, b: seq<byte>, i: nat | Lh.EmitCertsCell(v).ok && At(b, i, Lh.EmitCertsCell(v).bytes)
      ensures CertsCellLayout(b, i, i + |Lh.EmitCertsCell(v).bytes|, v)
    {
      AtThen(b, i, Plain([v.nCerts]), EmitAll(Lh.EmitCertsCert, v.certs));
      AtPut8(b, i, v.nCerts);
      EmittedFormat(Lh.ParseCertsCert, Lh.EmitCertsCert, CertsCertLayout, v.certs, b, i + 1);
    }
  }

  lemma MethodFormat()
    ensures Format(Lh.ParseU16, Lh.EmitU16, MethodLayout)
  {
    forall b: seq<byte>, i: nat | Lh.ParseU16(b, i).Ok?
      ensures MethodLayout(b, i, Lh.ParseU16(b, i).next, Lh.ParseU16(b, i).value)
    {
      U16Value(b, i, U16(b, i).value);
    }
    forall v, b: seq<byte>, i: nat | Lh.EmitU16(v).ok && At(b, i, Lh.EmitU16(v).bytes)
      ensures MethodLayout(b, i, i + |Lh.EmitU16(v).bytes|, v)
    {
      AtPut16(b, i, v);
      U16Value(b, i, v);
    }
  }

  lemma AuthChallengeReads(b: seq<byte>, i: nat)
    ensures ParsedAs(Lh.ParseAuthChallenge(b, i), b, i, AuthChallengeLayout)
    ensures |b| < i + 34 ==> Lh.ParseAuthChallenge(b, i).Short?
  {
    if Lh.ParseAuthChallenge(b, i).Ok? {
      Get16Value(b[i + 32], b[i + 33]);
      MethodFormat();
      ListFormat(Lh.ParseU16, Lh.EmitU16, MethodLayout, Get16(b[i + 32], b[i + 33]), b, i + 34);
    }
  }

  lemma AuthChallengeWrites(v: Lh.AuthChallenge, b: seq<byte>, i: nat)
    requires Lh.EmitAuthChallenge(v).ok && At(b, i, Lh.EmitAuthChallenge(v).bytes)
    ensures AuthChallengeLayout(b, i, i + |Lh.EmitAuthChallenge(v).bytes|, v)
  {
    Lh.AuthChallengeInverts(v, b, i);
    AuthChallengeReads(b, i);
  }

  // ------------------------------------------------------------ NETINFO

  predicate AddrLayout(b: seq<byte>, i: nat, j: nat, v: Ni.Addr) {
    && i + 2 <= |b| && b[i] == v.addrType && j == i + 2 + b[i + 1] && j <= |b|
    && (v.addrType == 4 ==> j == i + 6 && Int32(b, i + 2, v.ipv4))
    && (v.addrType == 6 ==> j == i + 18 && Span(b, i + 2, j, v.ipv6))
  }

  ghost predicate CellLayout(b: seq<byte>, i: nat, j: nat, v: Ni.Cell) {
    && Int32(b, i, v.timestamp)
    && exists m: nat {:trigger AddrLayout(b, i + 4, m, v.otherAddr)} ::
      && AddrLayout(b, i + 4, m, v.otherAddr) && m < |b|
      && b[m] == v.nMyAddrs == |v.myAddrs| && ListFrom(AddrLayout, b, m + 1, j, v.myAddrs)
  }

  lemma AddrReads(b: seq<byte>, i: nat)
    ensures ParsedAs(Ni.ParseAddr(b, i), b, i, AddrLayout)
    ensures Ni.ParseAddr(b, i).Short? <==> |b| < i + 2 || |b| < i + 2 + b[i + 1]
    ensures Ni.ParseAddr(b, i).Bad? <==>
      && i + 2 <= |b| && i + 2 + b[i + 1] <= |b|
      && ((b[i] == 4 && b[i + 1] != 4) || (b[i] == 6 && b[i + 1] != 16))
    ensures Ni.ParseAddr(b, i).Ok? ==> Ni.ParseAddr(b, i).value.len == b[i + 1]
  {
    if i + 2 <= |b| && i + 2 + b[i + 1] <= |b| && b[i] == 4 && b[i + 1] == 4 {
      var body := b[i + 2..i + 6];
      U32Value(body, 0, U32(body, 0).value);
      assert forall k :: 0 <= k < 4 ==> body[k] == b[i + 2 + k];
    }
  }

  lemma AddrFormat()
    ensures Format(Ni.ParseAddr, Ni.EmitAddr, AddrLayout)
  {
    forall b: seq<byte>, i: nat | Ni.ParseAddr(b, i).Ok?
      ensures AddrLayout(b, i, Ni.ParseAddr(b, i).next, Ni.ParseAddr(b, i).value)
    {
      AddrReads(b, i);
    }
    forall v, b: seq<byte>, i: nat | Ni.EmitAddr(v).ok && At(b, i, Ni.EmitAddr(v).bytes)
      ensures AddrLayout(b, i, i + |Ni.EmitAddr(v).bytes|, v)
    {
      Ni.AddrInverts(v, b, i);
      AddrReads(b, i);
    }
  }

  lemma CellReads(b: seq<byte>, i: nat)
    ensures ParsedAs(Ni.ParseCell(b, i), b, i, CellLayout)
    ensures |b| < i + 4 ==> Ni.ParseCell(b, i).Short?
    ensures i + 4 <= |b| && Ni.ParseAddr(b, i + 4).Bad? ==> Ni.ParseCell(b, i).Bad?
    ensures i + 4 <= |b| && Ni.ParseAddr(b, i + 4).Short? ==> Ni.ParseCell(b, i).Short?
  {
    if Ni.ParseCell(b, i).Ok? {
      var m := Ni.ParseAddr(b, i + 4).next;
      U32Value(b, i, U32(b, i).value);
      AddrReads(b, i + 4);
      AddrFormat();
      ListFormat(Ni.ParseAddr, Ni.EmitAddr, AddrLayout, b[m], b, m + 1);
    }
  }

  lemma CellWrites(v: Ni.Cell, b: seq<byte>, i: nat)
    requires Ni.EmitCell(v).ok && At(b, i, Ni.EmitCell(v).bytes)
    ensures CellLayout(b, i, i + |Ni.EmitCell(v).bytes|, v)
  {
    var other := Ni.EmitAddr(v.otherAddr);
    var m := i + 4 + |other.bytes|;
    Ni.CellAt(v, b, i);
    U32Value(b, i, v.timestamp);
    AddrFormat();
    assert AddrLayout(b, i + 4, m, v.otherAddr);
    Ni.AllAddrs(v.myAddrs);
    EmittedFormat(Ni.ParseAddr, Ni.EmitAddr, AddrLayout, v.myAddrs, b, m + 1);
  }

  // ------------------------------------------------------------ extensions

  predicate FieldLayout(b: seq<byte>, i: nat, j: nat, v: Tx.Field) {
    i + 2 <= |b| && b[i] == v.fieldType && b[i + 1] == v.fieldLen && j == i + 2 + b[i + 1] && Span(b, i + 2, j, v.field)
  }

  ghost predicate ExtensionLayout(b: seq<byte>, i: nat, j: nat, v: Tx.Extension) {
    i < |b| && b[i] == v.num == |v.fields| && ListFrom(FieldLayout, b, i + 1, j, v.fields)
  }

  lemma FieldFormat()
    ensures Format(Tx.ParseField, Tx.EmitField, FieldLayout)
  {
    forall v, b: seq<byte>, i: nat | Tx.EmitField(v).ok && At(b, i, Tx.EmitField(v).bytes)
      ensures FieldLayout(b, i, i + |Tx.EmitField(v).bytes|, v)
    {
      Tx.FieldInverts(v, b, i);
    }
  }

  lemma ExtensionFormat()
    ensures Format(Tx.ParseExtension, Tx.EmitExtension, ExtensionLayout)
  {
    FieldFormat();
    forall b: seq<byte>, i: nat | Tx.ParseExtension(b, i).Ok?
      ensures ExtensionLayout(b, i, Tx.ParseExtension(b, i).next, Tx.ParseExtension(b, i).value)
    {
      ListFormat(Tx.ParseField, Tx.EmitField, FieldLayout, b[i], b, i + 1);
    }
    forall v, b: seq<byte>, i: nat | Tx.EmitExtension(v).ok && At(b, i, Tx.EmitExtension(v).bytes)
      ensures ExtensionLayout(b, i, i + |Tx.EmitExtension(v).bytes|, v)
    {
      AtThen(b, i, Plain([v.num]), EmitAll(Tx.EmitField, v.fields));
      AtPut8(b, i, v.num);
      EmittedFormat(Tx.ParseField, Tx.EmitField, FieldLayout, v.fields, b, i + 1);
    }
  }

  // ------------------------------------------------------------ boxes

  /** `TORBOX00`, the header with its length, the initialisation vector, the data, and 32 bytes of digest at the end. */
  predicate BoxLayout(b: seq<byte>, i: nat, j: nat, v: Pw.Box) {
    && i + 57 <= j == |b| && b[i..i + 8] == [0x54, 0x4f, 0x52, 0x42, 0x4f, 0x58, 0x30, 0x30]
    && b[i + 8] == v.headerLen == |v.skeyHeader|
    && var k := i + 9 + v.headerLen;
    && k + 48 <= j && Span(b, i + 9, k, v.skeyHeader) && Span(b, k, k + 16, v.iv)
    && Span(b, k + 16, j - 32, v.data) && Span(b, j - 32, j, v.hmac)
  }

  lemma BoxReads(b: seq<byte>, i: nat)
    ensures ParsedAs(Pw.ParseBox(Pw.PWBOX0, b, i), b, i, BoxLayout)
  {
    if Pw.ParseBox(Pw.PWBOX0, b, i).Ok? {
      BoxStarts(b, i);
      assert b[|b| - 32..] == b[|b| - 32..|b|];
    }
  }

  /** A box is malformed as soon as four of its first eight bytes are there and wrong, and else at most cut short. */
  lemma BoxFails(b: seq<byte>, i: nat)
    ensures Pw.ParseBox(Pw.PWBOX0, b, i).Bad? <==>
      || (i + 4 <= |b| && b[i..i + 4] != [0x54, 0x4f, 0x52, 0x42])
      || (i + 8 <= |b| && b[i + 4..i + 8] != [0x4f, 0x58, 0x30, 0x30])
    ensures Pw.ParseBox(Pw.PWBOX0, b, i).Short? <==>
      && !Pw.ParseBox(Pw.PWBOX0, b, i).Bad? && (|b| < i + 57 || |b| < i + 57 + b[i + 8])
  {
    if i + 4 <= |b| {
      MagicReads(b, i);
    }
    if i + 8 <= |b| {
      MagicReads(b, i + 4);
    }
  }

  lemma BoxStarts(b: seq<byte>, i: nat)
    requires i + 8 <= |b| && U32(b, i).value == 1414484546 && U32(b, i + 4).value == 1331179568
    ensures b[i..i + 8] == [0x54, 0x4f, 0x52, 0x42, 0x4f, 0x58, 0x30, 0x30]
  {
    MagicReads(b, i);
    MagicReads(b, i + 4);
    assert b[i..i + 8] == b[i..i + 4] + b[i + 4..i + 8];
  }

  lemma BoxWrites(v: Pw.Box, b: seq<byte>)
    requires Pw.EmitBox(Pw.PWBOX0, v) == Plain(b)
    ensures BoxLayout(b, 0, |b|, v)
  {
    Pw.BoxInverts(Pw.PWBOX0, v, b, 0);
    BoxReads(b, 0);
  }

  lemma MagicReads(b: seq<byte>, i: nat)
    requires i + 4 <= |b|
    ensures U32(b, i).value == 1414484546 <==> b[i..i + 4] == [0x54, 0x4f, 0x52, 0x42]
    ensures U32(b, i).value == 1331179568 <==> b[i..i + 4] == [0x4f, 0x58, 0x30, 0x30]
  {
    U32Value(b, i, U32(b, i).value);
    assert b[i..i + 4] == [b[i], b[i + 1], b[i + 2], b[i + 3]];
  }
}
