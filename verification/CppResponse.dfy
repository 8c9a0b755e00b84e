/**
 clients/cpp/src/proto/Response.cpp, and how the C++ client and the C server understand
 each other's bytes.
 */
module CppResponses {
  import opened Wire
  import opened Objects
  import opened Mpack
  import opened CppObjects
  import Responses

  datatype CppResponse = CppResponse(kind: UInt32, msgid: UInt32, error: Value, result: Value)

  function Marshal(s: CppResponse): (b: Bytes)
  {
    Responses.Envelope(s.kind, s.msgid, WriteValue(s.error) + WriteValue(s.result))
  }

  method ResponseMarshal(s: CppResponse) returns (b: Bytes)
    ensures b == Marshal(s)
  {
    hide WriteTag;
    hide WriteValue;
    var writer := new MpackWriter();
    writer.Tag(TArray(4));
    writer.Tag(TUInt(s.kind % 0x100));
    writer.Tag(TUInt(s.msgid));
    ObjectMarshalMPack(writer, s.error);
    ObjectMarshalMPack(writer, s.result);
    assert [] + WriteTag(TArray(4)) == WriteTag(TArray(4));
    b := writer.buffer;
  }

  /** Response::Unmarshal and the reader it leaves behind. */
  function Decode(b: Bytes): (res: (Option<CppResponse>, Reader))
    ensures res.0.Some? <==> !res.1.error
  {
    if b == [] then (None, FAILED)
    else
      var (msgid, r) := Responses.ReadHeader(b);
      if r.error then (None, FAILED)
      else
        var (error, r1) := ReadValue(r);
        var (result, r2) := ReadValue(r1);
        if r1.error || r2.error then (None, FAILED)
        else (Some(CppResponse(Responses.RPC_RESPONSE, msgid, error, result)), r2)
  }

  function Unmarshal(b: Bytes): Option<CppResponse> { Decode(b).0 }

  method ResponseUnmarshal(b: Bytes) returns (s: Option<CppResponse>)
    ensures s == Unmarshal(b)
  {
    hide ParseTag;
    hide ReadValue;
    hide Responses.ReadHeader;
    if b == [] { return None; }
    var reader := new MpackReader(b);
    var ok, msgid := Responses.ReadEnvelope(reader);
    if !ok { return None; }
    var error := ObjectUnmarshalMPack(reader);
    if reader.error { return None; }
    var result := ObjectUnmarshalMPack(reader);
    if reader.error { return None; }
    s := Some(CppResponse(Responses.RPC_RESPONSE, msgid, error, result));
  }

  /**
   On every byte string the two clients accept the same responses, stop at the same byte and
   hold the same content; the C one cuts strings at NUL and drops top-level nil.
   */
  lemma LanguagesAgree(b: Bytes)
    ensures Decode(b).1 == Responses.Decode(b).1
    ensures Unmarshal(b).Some? ==>
              var p := Unmarshal(b).value;
              Responses.Unmarshal(b) == Some(Responses.Response(p.kind, p.msgid,
                Responses.DropNil(Responses.AsC(p.error)), Responses.DropNil(Responses.AsC(p.result))))
  {
    hide ParseTag;
    hide ReadValue;
    hide Responses.ReadObject;
    hide Responses.ReadHeader;
    var r := Responses.ReadHeader(b).1;
    Responses.ReadersAgree(r);
    Responses.ReadersAgree(ReadValue(r).1);
  }

  /** What the C++ client has when the whole response got through. */
  function ReceivedResponse(s: Responses.Response): CppResponse
  {
    CppResponse(Responses.RPC_RESPONSE, s.msgid, Responses.Received(s.error), Responses.Received(s.result))
  }

  /**
   A response encoded by the C server is always accepted by the C++ client, and is there the
   same canonical value exactly when every array count fits its 32-bit field.
   */
  lemma ServerToCppClient(s: Responses.Response, tail: Bytes)
    ensures Decode(Responses.Marshal(s) + tail).0.Some? <==> s.kind % 0x100 == Responses.RPC_RESPONSE
    ensures s.kind % 0x100 == Responses.RPC_RESPONSE ==>
              (Decode(Responses.Marshal(s) + tail) == (Some(ReceivedResponse(s)), Reader(tail, false))
               <==> Responses.CountableFields(s))
  {
    hide ParseTag;
    hide WriteTag;
    hide ReadValue;
    hide Responses.ReadHeader;
    hide Responses.Received;
    hide Responses.Lenient;
    hide Responses.LenientAll;
    hide Everywhere;
    var rest := Responses.Lenient(s.result) + tail;
    var body := Responses.Lenient(s.error) + rest;
    assert Responses.Marshal(s) + tail == Responses.Envelope(s.kind, s.msgid, body);
    Responses.ReadHeaderWritten(s.kind, s.msgid, body);
    var left := Responses.FieldsLeave(s, tail);
    if Responses.CountableFields(s) {
      Responses.ReadLenient(s.error, rest);
      Responses.ReadLenient(s.result, tail);
    } else {
      Responses.LenientAllNonEmpty(left);
    }
  }

  /** The C++ client, too, rejects every strict prefix of a server response, with the same exception. */
  lemma CppPrefixesRejectedIff(s: Responses.Response)
    ensures (forall p :: p < Responses.Marshal(s) ==> Unmarshal(p).None?)
            <==> s.kind % 0x100 != Responses.RPC_RESPONSE || Responses.CountableFields(s)
  {
    hide Decode;
    hide Responses.Decode;
    hide Responses.Marshal;
    hide Responses.CountableFields;
    Responses.ResponsePrefixesRejectedIff(s);
    forall p ensures Unmarshal(p).None? <==> Responses.Unmarshal(p).None? { LanguagesAgree(p); }
  }

  // ---------------------------------------------------------------- C++ to C

  /** The C object that stands for a C++ value. */
  function ToC(v: Value): (o: Object)
    decreases v, 1
  {
    match v
    case VUnd => Und
    case VNil => Nil
    case VBool(b) => Bool(b)
    case VInt(i) => Int(i)
    case VUInt(u) => UInt(u)
    case VFloat(f) => Float(f)
    case VDouble(d) => Double(d)
    case VStr(s) => Str(s)
    case VBin(d) => if d == [] then BinNoData(0) else Bin(d)
    case VArr(items) => Arr(ToCAll(items))
    case VMap(_) => Map
  }

  function ToCAll(vs: seq<Value>): (os: seq<Object>)
    ensures |os| == |vs|
    decreases vs, 0
  {
    if vs == [] then [] else [ToC(vs[0])] + ToCAll(vs[1..])
  }

  /** The two lenient writers emit the same bytes. */
  lemma {:induction false} WritersAgree(v: Value)
    ensures WriteValue(v) == Responses.Lenient(ToC(v))
    decreases v, 1
  {
    hide WriteTag;
    hide Cut;
    hide WriteValues;
    hide ToCAll;
    hide Responses.LenientAll;
    if v.VArr? {
      WritersAgreeAll(v.items);
    }
  }

  lemma {:induction false} WritersAgreeAll(vs: seq<Value>)
    ensures WriteValues(vs) == Responses.LenientAll(ToCAll(vs))
    decreases vs, 0
  {
    hide WriteValue;
    hide ToC;
    hide Responses.Lenient;
    if vs != [] {
      WritersAgree(vs[0]);
      WritersAgreeAll(vs[1..]);
      assert ToCAll(vs)[1..] == ToCAll(vs[1..]);
    }
  }

  /** A response encoded by the C++ client decodes in C to the canonical form, exactly when the counts fit. */
  lemma CppToServer(s: CppResponse, tail: Bytes)
    requires s.kind == Responses.RPC_RESPONSE
    ensures var c := Responses.Response(s.kind, s.msgid, ToC(s.error), ToC(s.result));
            Responses.Decode(Marshal(s) + tail) == (Some(Responses.CanonResponse(c)), Reader(tail, false))
            <==> Responses.CountableFields(c)
  {
    hide WriteTag;
    hide Responses.Decode;
    hide Everywhere;
    WritersAgree(s.error);
    WritersAgree(s.result);
    Responses.ResponseRoundTrip(Responses.Response(s.kind, s.msgid, ToC(s.error), ToC(s.result)), tail);
  }
}
