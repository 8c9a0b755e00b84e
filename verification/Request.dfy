/**
 source/api/proto/Request.c: [0, msgid, method, [params...]] with flat parameters, and how
 the reader tells the stream loop how many bytes a request took.
 */
module Requests {
  import opened Wire
  import opened Objects
  import opened Mpack
  import opened Responses

  const RPC_REQUEST: UInt32 := 0

  datatype Request = Request(kind: UInt32, msgid: UInt32, name: Option<Bytes>, params: seq<Object>)

  // ---------------------------------------------------------------- writer

  /** RequestParamCount is 32 bits wide, and only so many parameters are written. */
  function Counted(params: seq<Object>): (ps: seq<Object>)
    ensures ps <= params && |ps| == |params| % 0x1_0000_0000
  {
    params[..|params| % UINT32_LIMIT]
  }

  /** The method as strlen and the cast to uint32_t leave it. */
  function WireName(name: Bytes): (s: Bytes)
    ensures NulFree(s) && |s| < UINT32_LIMIT
  {
    Cut(CString(name))
  }

  /** Everything before the first parameter. */
  function Header(q: Request): (s: Bytes)
  {
    WriteTag(TArray(4)) + WriteTag(TUInt(q.kind)) + WriteTag(TUInt(q.msgid))
    + (if q.name.None? then WriteTag(TNil) else WriteTag(TStr(|WireName(q.name.value)|)) + WireName(q.name.value))
    + WriteTag(TArray(|Counted(q.params)|))
  }

  function Marshal(q: Request): (s: Bytes)
    ensures s != []
  {
    Header(q) + LenientAll(Counted(q.params))
  }

  method RequestMarshal(q: Request) returns (b: Bytes)
    ensures b == Marshal(q)
  {
    hide WriteTag;
    hide Lenient;
    hide Header;
    var writer := new MpackWriter();
    WriteHeader(writer, q);
    MarshalItems(writer, Counted(q.params));
    b := writer.buffer;
  }

  method WriteHeader(writer: MpackWriter, q: Request)
    requires writer.buffer == []
    modifies writer`buffer
    ensures writer.buffer == Header(q)
  {
    hide WriteTag;
    hide WireName;
    writer.Tag(TArray(4));
    writer.Tag(TUInt(q.kind));
    writer.Tag(TUInt(q.msgid));
    ghost var start := writer.buffer;
    assert start == WriteTag(TArray(4)) + WriteTag(TUInt(q.kind)) + WriteTag(TUInt(q.msgid));
    if q.name.Some? {
      var name := WireName(q.name.value);
      writer.Tag(TStr(|name|));
      writer.Raw(name);
      assert writer.buffer == start + (WriteTag(TStr(|name|)) + name);
    } else {
      writer.Tag(TNil);
    }
    writer.Tag(TArray(|Counted(q.params)|));
  }

  // ---------------------------------------------------------------- reader

  /** RequestParamAppend: append, refuse to overwrite, or fill the gap with nil. */
  function ParamAppend(params: seq<Object>, p: Object, ind: nat): (ps: seq<Object>)
    ensures ind >= |params| ==> |ps| == ind + 1 && params <= ps && ps[ind] == p
    ensures forall j :: |params| <= j < ind ==> ps[j] == Nil
    ensures ind == |params| ==> ps == params + [p]
    ensures ind < |params| ==> ps == if params[ind].Null? then params[ind := p] else params
  {
    if ind == |params| then params + [p]
    else if ind < |params| then (if params[ind].Null? then params[ind := p] else params)
    else params + seq(ind - |params|, _ => Nil) + [p]
  }

  /** One turn of the parameter loop: arrays and maps are passed over, leaving a gap. */
  function ReadParam(r: Reader): (res: (Option<Object>, Reader))
    requires r.Valid()
    ensures res.1.Valid() && |res.1.rest| <= |r.rest|
    ensures r.error ==> res == (Some(Nil), FAILED)
    ensures res.1.error ==> res.0.Some?
    ensures res.0.Some? ==> !res.0.value.Null? && !res.0.value.Arr?
  {
    var (tag, r1) := ReadTag(r);
    match tag
    case TNil => (Some(Nil), r1)
    case TBool(b) => (Some(Bool(b)), r1)
    case TInt(i) => (Some(Int(i)), r1)
    case TUInt(u) => (Some(UInt(u)), r1)
    case TFloat(f) => (Some(Float(f)), r1)
    case TDouble(d) => (Some(Double(d)), r1)
    case TStr(n) => var (bytes, r2) := ReadBytes(r1, n); (Some(Str(CString(bytes))), r2)
    case TBin(n) => var (bytes, r2) := ReadBytes(r1, n); (Some(if n == 0 then BinNoData(0) else Bin(bytes)), r2)
    case TArray(_) => (None, r1)
    case TMap(_) => (None, r1)
  }

  function ReadParams(i: nat, count: nat, r: Reader, params: seq<Object>): (res: (seq<Object>, Reader))
    requires r.Valid() && |params| <= i <= count
    ensures res.1.Valid() && |res.1.rest| <= |r.rest|
    ensures r.error ==> res.1.error
    ensures |res.0| <= count
    decreases count - i
  {
    if i == count then (params, r)
    else
      var (p, r1) := ReadParam(r);
      ReadParams(i + 1, count, r1, if p.None? then params else ParamAppend(params, p.value, i))
  }

  /** The envelope: message id, method, parameter count; no error flag is ever looked at. */
  function ReadHeader(b: Bytes): (res: (Option<(UInt32, Bytes, UInt32)>, Reader))
    ensures res.1.Valid() && |res.1.rest| <= |b|
    ensures res.0.Some? ==> !res.1.error && |res.1.rest| < |b|
  {
    var (tag0, r0) := ReadTag(Reader(b, false));
    var (tag1, r1) := ReadTag(r0);
    var (tag2, r2) := ReadTag(r1);
    var (tag3, r3) := ReadTag(r2);
    if tag0 != TArray(4) || !Integer(tag1) || Low32(tag1) != RPC_REQUEST || !Integer(tag2) || !tag3.TStr?
    then (None, FAILED)
    else
      var (bytes, r4) := ReadBytes(r3, tag3.strLen);
      var (tag5, r5) := ReadTag(r4);
      if r4.error || !tag5.TArray? then (None, FAILED)
      else (Some((Low32(tag2), CString(bytes), tag5.count)), r5)
  }

  predicate Integer(t: Tag) { t.TUInt? || t.TInt? }

  /** The cast of an integer tag to 32 bits. */
  function Low32(t: Tag): (u: UInt32)
    requires Integer(t)
  {
    (if t.TUInt? then t.u else t.i) % UINT32_LIMIT
  }

  /** RequestUnmarshal: the request and the new b->len, which is the number of bytes it took. */
  function Decode(b: Bytes): (res: (Option<Request>, nat))
    ensures res.1 <= |b|
    ensures res.0.Some? ==> 0 < res.1
  {
    var (head, r) := ReadHeader(b);
    if head.None? then (None, |b|)
    else
      var (msgid, name, count) := head.value;
      var (params, r1) := ReadParams(0, count, r, []);
      (Some(Request(RPC_REQUEST, msgid, Some(name), params)), |b| - |r1.rest|)
  }

  method ReadEnvelope(reader: MpackReader) returns (ok: bool, msgid: UInt32, name: Bytes, count: UInt32)
    requires reader.Valid() && !reader.error
    modifies reader
    ensures reader.Valid()
    ensures ok <==> ReadHeader(old(reader.View().rest)).0.Some?
    ensures ok ==> (Some((msgid, name, count)), reader.View()) == ReadHeader(old(reader.View().rest))
  {
    hide ParseTag;
    ok, msgid, name, count := false, 0, [], 0;
    var tag := reader.ReadTag();
    if tag != TArray(4) { return; }
    tag := reader.ReadTag();
    if !Integer(tag) || Low32(tag) != RPC_REQUEST { return; }
    tag := reader.ReadTag();
    if !Integer(tag) { return; }
    msgid := Low32(tag);
    tag := reader.ReadTag();
    if !tag.TStr? { return; }
    name := reader.ReadBytes(tag.strLen);
    if reader.error { return; }
    name := CString(name);
    tag := reader.ReadTag();
    if !tag.TArray? { return; }
    ok, count := true, tag.count;
  }

  method ReadOneParam(reader: MpackReader) returns (p: Option<Object>)
    requires reader.Valid()
    modifies reader
    ensures reader.Valid() && (p, reader.View()) == ReadParam(old(reader.View()))
  {
    hide ParseTag;
    var tag := reader.ReadTag();
    match tag {
      case TNil => p := Some(Nil);
      case TBool(b) => p := Some(Bool(b));
      case TInt(i) => p := Some(Int(i));
      case TUInt(u) => p := Some(UInt(u));
      case TFloat(f) => p := Some(Float(f));
      case TDouble(d) => p := Some(Double(d));
      case TStr(n) =>
        var bytes := reader.ReadBytes(n);
        p := Some(Str(CString(bytes)));
      case TBin(n) =>
        var bytes := reader.ReadBytes(n);
        p := Some(if n == 0 then BinNoData(0) else Bin(bytes));
      case TArray(_) => p := None;
      case TMap(_) => p := None;
    }
  }

  method RequestUnmarshal(b: Bytes) returns (q: Option<Request>, len: nat)
    ensures (q, len) == Decode(b)
  {
    hide ParseTag;
    hide ReadParam;
    hide ReadHeader;
    var reader := new MpackReader(b);
    var ok, msgid, name, count := ReadEnvelope(reader);
    if !ok { return None, |b|; }
    var params: seq<Object> := [];
    ghost var r0 := reader.View();
    for i := 0 to count
      invariant reader.Valid() && |params| <= i
      invariant ReadParams(0, count, r0, []) == ReadParams(i, count, reader.View(), params)
    {
      var p := ReadOneParam(reader);
      if p.Some? {
        params := ParamAppend(params, p.value, i);
      }
    }
    var remaining := reader.Remaining();
    q, len := Some(Request(RPC_REQUEST, msgid, Some(name), params)), |b| - remaining;
  }

  /** Bytes that do not begin with a tag are no request. */
  lemma NotARequest(b: Bytes)
    requires b != [] && b[0] == 0xc1
    ensures Decode(b).0.None?
  {
    hide ParseTag;
    ReservedByte(b);
  }

  // ---------------------------------------------------------------- framing

  predicate Flat(params: seq<Object>) { forall k :: 0 <= k < |params| ==> !params[k].Arr? }

  /** The request as the reader hands it back. */
  function Normal(q: Request): (n: Request)
    requires q.name.Some?
  {
    Request(RPC_REQUEST, q.msgid, Some(WireName(q.name.value)), CanonAll(Counted(q.params)))
  }

  lemma ReadHeaderWritten(q: Request, body: Bytes)
    ensures ReadHeader(Header(q) + body) ==
            if q.kind == RPC_REQUEST && q.name.Some?
            then (Some((q.msgid, WireName(q.name.value), |Counted(q.params)|)), Reader(body, false))
            else (None, FAILED)
  {
    hide ParseTag;
    hide WriteTag;
    hide ReadHeader;
    hide WireName;
    var count := WriteTag(TArray(|Counted(q.params)|));
    if q.name.None? {
      assert Header(q) + body == WriteTag(TArray(4)) + (WriteTag(TUInt(q.kind)) + (WriteTag(TUInt(q.msgid))
                                 + (WriteTag(TNil) + (count + body))));
      ReadHeaderNoName(q.kind, q.msgid, count + body);
    } else {
      var name := WireName(q.name.value);
      assert Header(q) + body == WriteTag(TArray(4)) + (WriteTag(TUInt(q.kind)) + (WriteTag(TUInt(q.msgid))
                                 + (WriteTag(TStr(|name|)) + (name + (count + body)))));
      ReadHeaderNamed(q.kind, q.msgid, name, |Counted(q.params)|, body);
    }
  }

  lemma ReadHeaderNoName(kind: UInt32, msgid: UInt32, tail: Bytes)
    ensures ReadHeader(WriteTag(TArray(4)) + (WriteTag(TUInt(kind)) + (WriteTag(TUInt(msgid))
                       + (WriteTag(TNil) + tail))))
         == (None, FAILED)
  {
    hide ParseTag;
    hide WriteTag;
    hide CString;
    ReadTagWritten(TNil, tail);
    ReadTagWritten(TUInt(msgid), WriteTag(TNil) + tail);
    ReadTagWritten(TUInt(kind), WriteTag(TUInt(msgid)) + (WriteTag(TNil) + tail));
    ReadTagWritten(TArray(4), WriteTag(TUInt(kind)) + (WriteTag(TUInt(msgid)) + (WriteTag(TNil) + tail)));
  }

  lemma ReadHeaderNamed(kind: UInt32, msgid: UInt32, name: Bytes, count: UInt32, body: Bytes)
    requires |name| < UINT32_LIMIT && NulFree(name)
    ensures ReadHeader(WriteTag(TArray(4)) + (WriteTag(TUInt(kind)) + (WriteTag(TUInt(msgid))
                       + (WriteTag(TStr(|name|)) + (name + (WriteTag(TArray(count)) + body))))))
         == if kind == RPC_REQUEST then (Some((msgid, name, count)), Reader(body, false)) else (None, FAILED)
  {
    hide WriteTag;
    hide ReadTag;
    hide ReadBytes;
    assert CString(name) == name;
    hide CString;
    var s4 := WriteTag(TArray(count)) + body;
    var s3 := WriteTag(TStr(|name|)) + (name + s4);
    var s2 := WriteTag(TUInt(msgid)) + s3;
    var s1 := WriteTag(TUInt(kind)) + s2;
    ReadTagWritten(TArray(4), s1);
    ReadTagWritten(TUInt(kind), s2);
    ReadTagWritten(TUInt(msgid), s3);
    ReadTagWritten(TStr(|name|), name + s4);
    ReadBytesWritten(name, s4);
    ReadTagWritten(TArray(count), body);
  }

  lemma ReadParamWritten(o: Object, tail: Bytes)
    requires !o.Arr?
    ensures ReadParam(Reader(Lenient(o) + tail, false)) == (Some(Canon(o)), Reader(tail, false))
  {
    hide ParseTag;
    hide WriteTag;
    hide ReadParam;
    match o
    case Bool(b) => ReadParamScalar(TBool(b), tail);
    case Int(i) => ReadParamScalar(TInt(i), tail);
    case UInt(u) => ReadParamScalar(TUInt(u), tail);
    case Float(f) => ReadParamScalar(TFloat(f), tail);
    case Double(d) => ReadParamScalar(TDouble(d), tail);
    case Str(s) => ReadParamStr(Cut(s), tail);
    case Bin(d) => ReadParamBin(Cut(d), tail);
    case _ => ReadParamScalar(TNil, tail);
  }

  /** The parameter that a tag without payload stands for. */
  function ScalarOf(t: Tag): (o: Object)
  {
    match t
    case TBool(b) => Bool(b)
    case TInt(i) => WireInt(i)
    case TUInt(u) => UInt(u)
    case TFloat(f) => Float(f)
    case TDouble(d) => Double(d)
    case _ => Nil
  }

  lemma ReadParamScalar(t: Tag, tail: Bytes)
    requires !t.TStr? && !t.TBin? && !t.TArray? && !t.TMap?
    ensures ReadParam(Reader(WriteTag(t) + tail, false)) == (Some(ScalarOf(t)), Reader(tail, false))
  {
    hide ParseTag;
    hide WriteTag;
    ReadTagWritten(t, tail);
  }

  lemma ReadParamStr(s: Bytes, tail: Bytes)
    requires |s| < UINT32_LIMIT
    ensures ReadParam(Reader(WriteTag(TStr(|s|)) + s + tail, false)) == (Some(Str(CString(s))), Reader(tail, false))
  {
    hide WriteTag;
    hide ReadTag;
    hide ReadBytes;
    hide ReadParam;
    hide CString;
    PayloadWritten(TStr(|s|), s, tail);
    ReadParamText(Reader(WriteTag(TStr(|s|)) + s + tail, false));
  }

  lemma ReadParamText(r: Reader)
    requires r.Valid() && ReadTag(r).0.TStr?
    ensures var (bytes, r') := ReadBytes(ReadTag(r).1, ReadTag(r).0.strLen);
            ReadParam(r) == (Some(Str(CString(bytes))), r')
  {
    hide ReadTag;
    hide ReadBytes;
    hide CString;
  }

  lemma ReadParamBin(d: Bytes, tail: Bytes)
    requires |d| < UINT32_LIMIT
    ensures ReadParam(Reader(WriteTag(TBin(|d|)) + d + tail, false))
         == (Some(if d == [] then BinNoData(0) else Bin(d)), Reader(tail, false))
  {
    hide WriteTag;
    hide ReadTag;
    hide ReadBytes;
    PayloadWritten(TBin(|d|), d, tail);
  }

  /** A tag followed by its payload. */
  lemma PayloadWritten(t: Tag, payload: Bytes, tail: Bytes)
    requires WireTag(t) == t
    ensures var (tag, r) := ReadTag(Reader(WriteTag(t) + payload + tail, false));
            tag == t && ReadBytes(r, |payload|) == (payload, Reader(tail, false))
  {
    hide WriteTag;
    hide ReadTag;
    hide ReadBytes;
    assert WriteTag(t) + payload + tail == WriteTag(t) + (payload + tail);
    ReadTagWritten(t, payload + tail);
    ReadBytesWritten(payload, tail);
  }

  lemma {:induction false} ReadParamsWritten(i: nat, count: nat, os: seq<Object>, tail: Bytes, acc: seq<Object>)
    requires Flat(os) && |acc| == i && i + |os| == count
    ensures ReadParams(i, count, Reader(LenientAll(os) + tail, false), acc) == (acc + CanonAll(os), Reader(tail, false))
    decreases |os|
  {
    if os == [] {
      assert acc + CanonAll(os) == acc;
      assert [] + tail == tail;
    } else {
      ReadParamWritten(os[0], LenientAll(os[1..]) + tail);
      ReadParamsWritten(i + 1, count, os[1..], tail, acc + [Canon(os[0])]);
      ReadParamsStep(i, count, os, tail, acc);
    }
  }

  lemma ReadParamsStep(i: nat, count: nat, os: seq<Object>, tail: Bytes, acc: seq<Object>)
    requires os != [] && |acc| == i && i + |os| == count
    requires ReadParam(Reader(Lenient(os[0]) + (LenientAll(os[1..]) + tail), false))
          == (Some(Canon(os[0])), Reader(LenientAll(os[1..]) + tail, false))
    ensures ReadParams(i, count, Reader(LenientAll(os) + tail, false), acc)
         == ReadParams(i + 1, count, Reader(LenientAll(os[1..]) + tail, false), acc + [Canon(os[0])])
    ensures acc + [Canon(os[0])] + CanonAll(os[1..]) == acc + CanonAll(os)
  {
    hide ReadParam;
    hide ReadParams;
    hide ParamAppend;
    hide LenientAll;
    hide Lenient;
    hide Canon;
    CanonAllCons(os, acc);
    hide CanonAll;
    LenientAllCons(os, tail);
    ReadParamsUnfold(i, count, Reader(LenientAll(os) + tail, false), acc);
  }

  lemma CanonAllCons(os: seq<Object>, acc: seq<Object>)
    requires os != []
    ensures acc + [Canon(os[0])] + CanonAll(os[1..]) == acc + CanonAll(os)
  {
    hide Canon;
    assert CanonAll(os) == [Canon(os[0])] + CanonAll(os[1..]);
  }

  lemma ReadParamsUnfold(i: nat, count: nat, r: Reader, params: seq<Object>)
    requires r.Valid() && |params| <= i < count
    ensures var (p, r1) := ReadParam(r);
            ReadParams(i, count, r, params)
            == ReadParams(i + 1, count, r1, if p.None? then params else ParamAppend(params, p.value, i))
  {
  }

  /** The bytes of a request are accepted, whatever follows, exactly when its type is 0 and its method set. */
  lemma RequestAccepted(q: Request, tail: Bytes)
    ensures Decode(Marshal(q) + tail).0.Some? <==> q.kind == RPC_REQUEST && q.name.Some?
  {
    hide ReadHeader;
    hide Header;
    assert Marshal(q) + tail == Header(q) + (LenientAll(Counted(q.params)) + tail);
    ReadHeaderWritten(q, LenientAll(Counted(q.params)) + tail);
  }

  /**
   Framing.  A request followed by anything is read back in normal form, and the new buffer
   length is exactly that of its encoding.
   */
  lemma RequestFraming(q: Request, tail: Bytes)
    requires q.kind == RPC_REQUEST && q.name.Some? && Flat(Counted(q.params))
    ensures Decode(Marshal(q) + tail) == (Some(Normal(q)), |Marshal(q)|)
  {
    hide ReadHeader;
    hide Header;
    hide CanonAll;
    hide LenientAll;
    hide CString;
    hide ReadParams;
    var ps := Counted(q.params);
    assert Marshal(q) + tail == Header(q) + (LenientAll(ps) + tail);
    ReadHeaderWritten(q, LenientAll(ps) + tail);
    ReadParamsWritten(0, |ps|, ps, tail, []);
    assert [] + CanonAll(ps) == CanonAll(ps);
  }

  lemma {:induction false} ReadParamsFlat(i: nat, count: nat, r: Reader, params: seq<Object>)
    requires r.Valid() && |params| <= i <= count && Flat(params)
    ensures Flat(ReadParams(i, count, r, params).0)
    decreases count - i
  {
    hide ReadTag;
    if i < count {
      var (p, r1) := ReadParam(r);
      ReadParamsFlat(i + 1, count, r1, if p.None? then params else ParamAppend(params, p.value, i));
    }
  }

  lemma FlatCons(os: seq<Object>)
    requires os != []
    ensures Flat(os) <==> !os[0].Arr? && Flat(os[1..])
  {
    assert os == [os[0]] + os[1..];
  }

  lemma {:induction false} CanonAllFlat(os: seq<Object>)
    ensures Flat(CanonAll(os)) <==> Flat(os)
  {
    if os != [] {
      CanonAllFlat(os[1..]);
      FlatCons(os);
      FlatCons(CanonAll(os));
      assert CanonAll(os)[1..] == CanonAll(os[1..]);
    }
  }

  /** Flatness is not a convenience: a request comes back as sent exactly when no parameter is an array. */
  lemma RequestFramingIff(q: Request, tail: Bytes)
    requires q.kind == RPC_REQUEST && q.name.Some?
    ensures Decode(Marshal(q) + tail) == (Some(Normal(q)), |Marshal(q)|) <==> Flat(Counted(q.params))
  {
    hide ReadHeader;
    hide Header;
    hide ReadParams;
    hide LenientAll;
    hide CString;
    var ps := Counted(q.params);
    if Flat(ps) {
      RequestFraming(q, tail);
    } else {
      CanonAllFlat(ps);
      assert Marshal(q) + tail == Header(q) + (LenientAll(ps) + tail);
      ReadHeaderWritten(q, LenientAll(ps) + tail);
      ReadParamsFlat(0, |ps|, Reader(LenientAll(ps) + tail, false), []);
    }
  }

  // ---------------------------------------------------------------- truncation

  lemma ReadHeaderExtends(b: Bytes, more: Bytes)
    requires ReadHeader(b).0.Some?
    ensures ReadHeader(b + more) == (ReadHeader(b).0, ReadHeader(b).1.Extend(more))
  {
    hide ParseTag;
    var s := Reader(b, false);
    assert s.Extend(more) == Reader(b + more, false);
    var r0 := ReadTag(s).1;
    var r1 := ReadTag(r0).1;
    var r2 := ReadTag(r1).1;
    var (tag3, r3) := ReadTag(r2);
    ReadTagExtends(s, more);
    ReadTagExtends(r0, more);
    ReadTagExtends(r1, more);
    ReadTagExtends(r2, more);
    ReadBytesExtends(r3, tag3.strLen, more);
    ReadTagExtends(ReadBytes(r3, tag3.strLen).1, more);
  }

  /** What is made of a parameter of which only the bytes `p` are there. */
  function Stump(o: Object, p: Bytes): (s: Object)
  {
    match o
    case Str(s) => if |WriteTag(TStr(|Cut(s)|))| <= |p| then Str([]) else Nil
    case Bin(d) => if |WriteTag(TBin(|Cut(d)|))| <= |p| then Bin(Zeros(|Cut(d)|)) else Nil
    case _ => Nil
  }

  /** What is made of a cut list of parameters: the whole ones, the stump of the next, nil for the rest. */
  function Stumps(os: seq<Object>, p: Bytes): (ss: seq<Object>)
    ensures |ss| == |os|
  {
    if os == [] then []
    else if |Lenient(os[0])| <= |p| then [Canon(os[0])] + Stumps(os[1..], p[|Lenient(os[0])|..])
    else [Stump(os[0], p)] + Nils(|os| - 1)
  }

  function Nils(n: nat): (s: seq<Object>)
    ensures |s| == n
  {
    seq(n, _ => Nil)
  }

  /** A tag that is not all there cannot be read. */
  lemma ReadTagCut(t: Tag, p: Bytes)
    requires p < WriteTag(t)
    ensures ReadTag(Reader(p, false)) == (TNil, FAILED)
  {
    hide WriteTag;
    if ParseTag(p).Some? {
      var more := WriteTag(t)[|p|..];
      assert p + more == WriteTag(t) == WriteTag(t) + [];
      ParseTagExtends(p, more);
      TagRoundTrip(t, []);
      assert false;
    }
  }

  lemma ReadParamTagCut(t: Tag, p: Bytes)
    requires p < WriteTag(t)
    ensures ReadParam(Reader(p, false)) == (Some(Nil), FAILED)
  {
    hide ParseTag;
    hide WriteTag;
    ReadTagCut(t, p);
  }

  /** A payload that is not all there is read as zeros. */
  lemma ReadPayloadCut(t: Tag, payload: Bytes, p: Bytes)
    requires WireTag(t) == t && WriteTag(t) <= p && p < WriteTag(t) + payload
    ensures ReadTag(Reader(p, false)) == (t, Reader(p[|WriteTag(t)|..], false))
    ensures ReadBytes(ReadTag(Reader(p, false)).1, |payload|) == (Zeros(|payload|), FAILED)
  {
    hide ParseTag;
    hide WriteTag;
    var rest := p[|WriteTag(t)|..];
    assert p == WriteTag(t) + rest;
    ReadTagWritten(t, rest);
  }

  lemma ReadStrCut(s: Bytes, p: Bytes)
    requires |s| < UINT32_LIMIT && WriteTag(TStr(|s|)) <= p && p < WriteTag(TStr(|s|)) + s
    ensures ReadParam(Reader(p, false)) == (Some(Str([])), FAILED)
  {
    hide WriteTag;
    hide ReadBytes;
    ReadPayloadCut(TStr(|s|), s, p);
    hide ReadTag;
    assert Zeros(|s|)[0] == 0;
    assert CString(Zeros(|s|)) == [];
  }

  lemma ReadBinCut(d: Bytes, p: Bytes)
    requires |d| < UINT32_LIMIT && WriteTag(TBin(|d|)) <= p && p < WriteTag(TBin(|d|)) + d
    ensures ReadParam(Reader(p, false)) == (Some(Bin(Zeros(|d|))), FAILED)
  {
    hide WriteTag;
    hide ReadBytes;
    ReadPayloadCut(TBin(|d|), d, p);
    hide ReadTag;
  }

  lemma PrefixCases(tag: Bytes, payload: Bytes, p: Bytes)
    requires p < tag + payload
    ensures if |tag| <= |p| then tag <= p else p < tag
  {
    if |tag| <= |p| {
      assert p[..|tag|] == (tag + payload)[..|tag|];
    } else {
      assert p == (tag + payload)[..|p|] == tag[..|p|];
    }
  }

  lemma ReadParamCut(o: Object, p: Bytes)
    requires !o.Arr? && p < Lenient(o)
    ensures ReadParam(Reader(p, false)) == (Some(Stump(o, p)), FAILED)
  {
    hide WriteTag;
    hide ReadParam;
    hide Cut;
    match o
    case Bool(b) => ReadParamTagCut(TBool(b), p);
    case Int(i) => ReadParamTagCut(TInt(i), p);
    case UInt(u) => ReadParamTagCut(TUInt(u), p);
    case Float(f) => ReadParamTagCut(TFloat(f), p);
    case Double(d) => ReadParamTagCut(TDouble(d), p);
    case Str(s) =>
      var c := Cut(s);
      PrefixCases(WriteTag(TStr(|c|)), c, p);
      if |WriteTag(TStr(|c|))| <= |p| { ReadStrCut(c, p); } else { ReadParamTagCut(TStr(|c|), p); }
    case Bin(d) =>
      var c := Cut(d);
      PrefixCases(WriteTag(TBin(|c|)), c, p);
      if |WriteTag(TBin(|c|))| <= |p| { ReadBinCut(c, p); } else { ReadParamTagCut(TBin(|c|), p); }
    case _ => ReadParamTagCut(TNil, p);
  }

  lemma {:induction false} ReadParamsFailed(i: nat, count: nat, acc: seq<Object>)
    requires |acc| == i <= count
    ensures ReadParams(i, count, FAILED, acc) == (acc + Nils(count - i), FAILED)
    decreases count - i
  {
    if i < count {
      ReadParamsFailed(i + 1, count, acc + [Nil]);
      assert acc + [Nil] + Nils(count - i - 1) == acc + Nils(count - i);
    } else {
      assert acc + Nils(0) == acc;
    }
  }

  lemma {:induction false} ReadParamsCut(i: nat, count: nat, os: seq<Object>, p: Bytes, acc: seq<Object>)
    requires Flat(os) && |acc| == i && i + |os| == count && p < LenientAll(os)
    ensures ReadParams(i, count, Reader(p, false), acc) == (acc + Stumps(os, p), FAILED)
    decreases |os|
  {
    hide ReadParam;
    hide ReadParams;
    hide Canon;
    hide Lenient;
    hide Stump;
    var head, body := Lenient(os[0]), LenientAll(os[1..]);
    PrefixCases(head, body, p);
    if |head| <= |p| {
      var rest := p[|head|..];
      assert p == head + rest && rest < body by { assert p == (head + body)[..|p|]; }
      ReadParamWritten(os[0], rest);
      ReadParamsUnfold(i, count, Reader(p, false), acc);
      ReadParamsCut(i + 1, count, os[1..], rest, acc + [Canon(os[0])]);
      assert acc + [Canon(os[0])] + Stumps(os[1..], rest) == acc + Stumps(os, p);
    } else {
      ReadParamCut(os[0], p);
      ReadParamsUnfold(i, count, Reader(p, false), acc);
      ReadParamsFailed(i + 1, count, acc + [Stump(os[0], p)]);
      assert acc + [Stump(os[0], p)] + Nils(count - i - 1) == acc + Stumps(os, p);
    }
  }

  /** The request that is made of the part `p` of an encoded request. */
  function Truncated(q: Request, p: Bytes): (t: Request)
    requires q.name.Some? && |Header(q)| <= |p|
  {
    Request(RPC_REQUEST, q.msgid, Some(WireName(q.name.value)), Stumps(Counted(q.params), p[|Header(q)|..]))
  }

  /**
   What the reader does with a request whose tail is missing.  It has no "need more bytes"
   answer: a strict prefix is rejected exactly when it stops inside the header; from the first
   parameter on it is accepted as a complete request, and all of it is consumed.  That request
   has the parameters that are whole, then the one that is cut with its payload zeroed, then nil.
   */
  lemma RequestTruncation(q: Request, p: Bytes)
    requires q.kind == RPC_REQUEST && q.name.Some? && Flat(Counted(q.params))
    requires p < Marshal(q)
    ensures Decode(p).0.Some? <==> |Header(q)| <= |p|
    ensures |Header(q)| <= |p| ==> Decode(p) == (Some(Truncated(q, p)), |p|)
  {
    hide ReadHeader;
    hide Header;
    hide ReadParams;
    hide LenientAll;
    hide Stumps;
    hide WireName;
    var ps := Counted(q.params);
    var body := LenientAll(ps);
    PrefixCases(Header(q), body, p);
    if |Header(q)| <= |p| {
      var cut := p[|Header(q)|..];
      assert p == Header(q) + cut && cut < body by { assert p == (Header(q) + body)[..|p|]; }
      ReadHeaderWritten(q, cut);
      ReadParamsCut(0, |ps|, ps, cut, []);
      assert [] + Stumps(ps, cut) == Stumps(ps, cut);
    } else if ReadHeader(p).0.Some? {
      var more := Marshal(q)[|p|..];
      assert p + more == Marshal(q) == Header(q) + body;
      ReadHeaderWritten(q, body);
      ReadHeaderExtends(p, more);
      assert false;
    }
  }
}
