/**
 The extensions of circuit handshakes: a counted list of typed fields.
 */
module TrnExtensions {
  import opened Trunnel

  // ------------------------------------------------------------ trn_extension_field

  datatype Field = Field(fieldType: byte, fieldLen: byte, field: seq<byte>)

  predicate CheckField(v: Field) { |v.field| == v.fieldLen }

  function EmitField(v: Field): Emission {
    if !CheckField(v) then REFUSED else Then(Plain([v.fieldType, v.fieldLen]), Plain(v.field))
  }

  function ParseField(b: seq<byte>, i: nat): Parsed<Field> {
    if |b| < i + 2 || |b| < i + 2 + b[i + 1] then Short
    else Ok(Field(b[i], b[i + 1], b[i + 2..i + 2 + b[i + 1]]), i + 2 + b[i + 1])
  }

  lemma FieldStable(b: seq<byte>, x: seq<byte>, i: nat)
    requires !ParseField(b, i).Short?
    ensures ParseField(b + x, i) == ParseField(b, i)
  {
    SliceStable(b, x, i + 2, b[i + 1]);
  }

  lemma FieldInverts(v: Field, b: seq<byte>, i: nat)
    requires EmitField(v).ok && At(b, i, EmitField(v).bytes)
    ensures ParseField(b, i) == Ok(v, i + |EmitField(v).bytes|)
  {
    AtThen(b, i, Plain([v.fieldType, v.fieldLen]), Plain(v.field));
    assert b[i..i + 2][0] == v.fieldType && b[i..i + 2][1] == v.fieldLen;
  }

  lemma FieldRestores(b: seq<byte>, i: nat)
    requires ParseField(b, i).Ok?
    ensures RestoredAt(EmitField(ParseField(b, i).value), b, i, ParseField(b, i).next)
  {
    var v := ParseField(b, i).value;
    assert b[i..i + 2] == [v.fieldType, v.fieldLen];
    AtThen(b, i, Plain([v.fieldType, v.fieldLen]), Plain(v.field));
  }

  lemma FieldCodec()
    ensures Codec(ParseField, EmitField, Same)
  {
    forall b: seq<byte>, x: seq<byte>, i: nat | !ParseField(b, i).Short?
      ensures ParseField(b + x, i) == ParseField(b, i)
    {
      FieldStable(b, x, i);
    }
    forall v, b, i: nat | EmitField(v).ok && At(b, i, EmitField(v).bytes)
      ensures ParseField(b, i) == Ok(Same(v), i + |EmitField(v).bytes|)
    {
      FieldInverts(v, b, i);
    }
    forall b, i: nat | ParseField(b, i).Ok?
      ensures RestoredAt(EmitField(ParseField(b, i).value), b, i, ParseField(b, i).next)
    {
      FieldRestores(b, i);
    }
  }

  method EncodeField(w: Writer, obj: Field) returns (result: int)
    requires w.Valid()
    modifies w`written, w.output
    ensures Emitted(w, EmitField(obj), result)
  {
    var start := w.written;
    ghost var was := w.Contents();
    if |obj.field| != obj.fieldLen {
      return -1;
    }
    var ok := w.Put([obj.fieldType]);
    if !ok {
      return -2;
    }
    ok := w.Put([obj.fieldLen]);
    if !ok {
      return -2;
    }
    Assoc(was, [obj.fieldType], [obj.fieldLen]);
    assert [obj.fieldType] + [obj.fieldLen] == [obj.fieldType, obj.fieldLen];
    Assoc(was, [obj.fieldType, obj.fieldLen], obj.field);
    ok := w.Put(obj.field);
    if !ok {
      return -2;
    }
    return w.written - start;
  }

  method ReadField(input: seq<byte>, start: nat) returns (result: int, obj: Field)
    requires start <= |input|
    ensures Reports(result, obj, ParseField(input, start), start) && start + result <= |input|
  {
    obj := Field(0, 0, []);
    var ptr, remaining := start, |input| - start;
    if remaining < 1 {
      return -2, obj;
    }
    obj := obj.(fieldType := input[ptr]);
    remaining, ptr := remaining - 1, ptr + 1;
    if remaining < 1 {
      return -2, obj;
    }
    obj := obj.(fieldLen := input[ptr]);
    remaining, ptr := remaining - 1, ptr + 1;
    if remaining < obj.fieldLen {
      return -2, obj;
    }
    obj := obj.(field := input[ptr..ptr + obj.fieldLen]);
    remaining, ptr := remaining - obj.fieldLen, ptr + obj.fieldLen;
    return ptr - start, obj;
  }

  // ------------------------------------------------------------ trn_extension

  datatype Extension = Extension(num: byte, fields: seq<Field>)

  predicate CheckExtension(v: Extension) {
    |v.fields| == v.num && forall k :: 0 <= k < |v.fields| ==> CheckField(v.fields[k])
  }

  function EmitExtension(v: Extension): Emission {
    if !CheckExtension(v) then REFUSED else Then(Plain([v.num]), EmitAll(EmitField, v.fields))
  }

  function ParseExtension(b: seq<byte>, i: nat): Parsed<Extension> {
    if |b| < i + 1 then Short
    else
      match Many(ParseField, b[i], b, i + 1, [])
      case Bad => Bad
      case Short => Short
      case Ok(fields, j) => Ok(Extension(b[i], fields), j)
  }

  lemma ExtensionStable(b: seq<byte>, x: seq<byte>, i: nat)
    requires !ParseExtension(b, i).Short?
    ensures ParseExtension(b + x, i) == ParseExtension(b, i)
  {
    assert Many(ParseField, b[i], b + x, i + 1, []) == Many(ParseField, b[i], b, i + 1, []) by {
      FieldCodec();
      ListStable(ParseField, EmitField, Same, b[i], b, x, i + 1);
    }
  }

  lemma ExtensionInverts(v: Extension, b: seq<byte>, i: nat)
    requires EmitExtension(v).ok && At(b, i, EmitExtension(v).bytes)
    ensures ParseExtension(b, i) == Ok(v, i + |EmitExtension(v).bytes|)
  {
    var fields := EmitAll(EmitField, v.fields);
    AtThen(b, i, Plain([v.num]), fields);
    AtPut8(b, i, v.num);
    assert Many(ParseField, |v.fields|, b, i + 1, []) == Ok(v.fields, i + 1 + |fields.bytes|) by {
      FieldCodec();
      ListInverts(ParseField, EmitField, Same, v.fields, b, i + 1);
      NormalisedSame(v.fields);
    }
  }

  lemma ExtensionRestores(b: seq<byte>, i: nat)
    requires ParseExtension(b, i).Ok?
    ensures RestoredAt(EmitExtension(ParseExtension(b, i).value), b, i, ParseExtension(b, i).next)
  {
    var Ok(v, j) := ParseExtension(b, i);
    var fields := EmitAll(EmitField, v.fields);
    assert |v.fields| == b[i] && RestoredAt(fields, b, i + 1, j) by {
      FieldCodec();
      ListRestores(ParseField, EmitField, Same, b[i], b, i + 1);
    }
    EmitAllIff(EmitField, v.fields);
    assert forall k :: 0 <= k < |v.fields| ==> (EmitField(v.fields[k]).ok <==> CheckField(v.fields[k]));
    AtPut8(b, i, v.num);
    AtThen(b, i, Plain([v.num]), fields);
  }

  lemma ExtensionCodec()
    ensures Codec(ParseExtension, EmitExtension, Same)
  {
    forall b: seq<byte>, x: seq<byte>, i: nat | !ParseExtension(b, i).Short?
      ensures ParseExtension(b + x, i) == ParseExtension(b, i)
    {
      ExtensionStable(b, x, i);
    }
    forall v, b, i: nat | EmitExtension(v).ok && At(b, i, EmitExtension(v).bytes)
      ensures ParseExtension(b, i) == Ok(Same(v), i + |EmitExtension(v).bytes|)
    {
      ExtensionInverts(v, b, i);
    }
    forall b, i: nat | ParseExtension(b, i).Ok?
      ensures RestoredAt(EmitExtension(ParseExtension(b, i).value), b, i, ParseExtension(b, i).next)
    {
      ExtensionRestores(b, i);
    }
  }

  method CheckFields(fields: seq<Field>) returns (ok: bool)
    ensures ok <==> forall k :: 0 <= k < |fields| ==> CheckField(fields[k])
  {
    for idx := 0 to |fields|
      invariant forall k :: 0 <= k < idx ==> CheckField(fields[k])
    {
      if |fields[idx].field| != fields[idx].fieldLen {
        return false;
      }
    }
    return true;
  }

  method EncodeFields(w: Writer, fields: seq<Field>) returns (result: int)
    requires w.Valid()
    modifies w`written, w.output
    ensures Emitted(w, EmitAll(EmitField, fields), result)
  {
    var start := w.written;
    ghost var was, done := w.Contents(), [];
    var idx := 0;
    assert fields[0..] == fields;
    while idx < |fields|
      invariant w.Valid() && 0 <= idx <= |fields| && w.written == start + |done|
      invariant w.Contents() == was + done && w.output[w.avail..] == old(w.output[w.avail..])
      invariant EmitAll(EmitField, fields) == Then(Plain(done), EmitAll(EmitField, fields[idx..]))
    {
      ghost var e := EmitField(fields[idx]);
      assert fields[idx..][1..] == fields[idx + 1..];
      Onward(done, e, EmitAll(EmitField, fields[idx + 1..]), w.avail - w.written);
      Assoc(was, done, e.bytes);
      result := EncodeField(w, fields[idx]);
      if result < 0 {
        return;
      }
      done := done + e.bytes;
      idx := idx + 1;
    }
    return w.written - start;
  }

  method EncodeExtension(w: Writer, obj: Extension) returns (result: int)
    requires w.Valid()
    modifies w`written, w.output
    ensures Emitted(w, EmitExtension(obj), result)
  {
    var start := w.written;
    ghost var was, fields := w.Contents(), EmitAll(EmitField, obj.fields);
    var ok := CheckFields(obj.fields);
    if !ok || |obj.fields| != obj.num {
      return -1;
    }
    ok := w.Put([obj.num]);
    if !ok {
      return -2;
    }
    Assoc(was, [obj.num], fields.bytes);
    result := EncodeFields(w, obj.fields);
    if result < 0 {
      return;
    }
    return w.written - start;
  }

  method ReadFields(input: seq<byte>, start: nat, n: nat) returns (result: int, elts: seq<Field>)
    requires start <= |input|
    ensures Reports(result, elts, Many(ParseField, n, input, start, []), start) && start + result <= |input|
  {
    elts := [];
    var ptr, idx := start, 0;
    ghost var at: seq<nat> := [start];
    while idx < n
      invariant 0 <= idx == |elts| <= n && start <= ptr <= |input|
      invariant Trace(ParseField, input, at, elts) && at[0] == start && at[idx] == ptr
    {
      var elt;
      result, elt := ReadField(input, ptr);
      if result < 0 {
        TraceFails(ParseField, n, input, at, elts, result, elt);
        return;
      }
      TraceStep(ParseField, input, at, elts, result, elt);
      ptr := ptr + result;
      at, elts := at + [ptr], elts + [elt];
      idx := idx + 1;
    }
    TraceEnds(ParseField, n, input, at, elts);
    return ptr - start, elts;
  }

  method ReadExtension(input: seq<byte>, start: nat) returns (result: int, obj: Extension)
    requires start <= |input|
    ensures Reports(result, obj, ParseExtension(input, start), start)
  {
    obj := Extension(0, []);
    var ptr, remaining := start, |input| - start;
    if remaining < 1 {
      return -2, obj;
    }
    obj := obj.(num := input[ptr]);
    remaining, ptr := remaining - 1, ptr + 1;
    var fields;
    result, fields := ReadFields(input, ptr, obj.num);
    if result < 0 {
      return;
    }
    obj := obj.(fields := fields);
    return ptr + result - start, obj;
  }

  function EncodedLenField(v: Field): (n: nat)
    ensures CheckField(v) ==> n == |EmitField(v).bytes|
  {
    1 + 1 + |v.field|
  }

  /** `trn_extension_encoded_len`. */
  method EncodedLenExtension(obj: Extension) returns (result: int)
    ensures result == if CheckExtension(obj) then |EmitExtension(obj).bytes| else -1
  {
    var ok := CheckFields(obj.fields);
    if !ok || |obj.fields| != obj.num {
      return -1;
    }
    result := 1;
    ghost var base := 1;
    EmitAllIff(EmitField, obj.fields);
    assert obj.fields[0..] == obj.fields;
    for idx := 0 to |obj.fields|
      invariant EmitAll(EmitField, obj.fields).ok ==> EmitAll(EmitField, obj.fields[idx..]).ok
      invariant EmitAll(EmitField, obj.fields).ok ==>
          result + |EmitAll(EmitField, obj.fields[idx..]).bytes| == base + |EmitAll(EmitField, obj.fields).bytes|
    {
      assert obj.fields[idx..][1..] == obj.fields[idx + 1..];
      result := result + EncodedLenField(obj.fields[idx]);
    }
    assert obj.fields[|obj.fields|..] == [];
  }
}
