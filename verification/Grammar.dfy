/**
 What the readers of the C++ client, and with it those of Response.c, accept: exactly the byte
 strings of a grammar that is written without them.
 */
module Grammar {
  import opened Wire
  import opened CppObjects
  import Responses
  import CppResponses

  // ---------------------------------------------------------------- values

  /** The bytes `b` are an encoding of `v`, every tag in any width; a map's tag alone stands for nil. */
  ghost predicate Spelled(v: Value, b: Bytes)
    decreases v, 1
  {
    match v
    case VNil => Spells(b, TNil) || exists n: UInt32 :: Spells(b, TMap(n))
    case VBool(x) => Spells(b, TBool(x))
    case VInt(i) => Spells(b, TInt(i))
    case VUInt(u) => Spells(b, TUInt(u))
    case VFloat(f) => Spells(b, TFloat(f))
    case VDouble(d) => Spells(b, TDouble(d))
    case VStr(s) => |s| < UINT32_LIMIT && exists a :: Spells(a, TStr(|s|)) && b == a + s
    case VBin(d) => |d| < UINT32_LIMIT && exists a :: Spells(a, TBin(|d|)) && b == a + d
    case VArr(items) =>
      |items| < UINT32_LIMIT && exists a, body :: Spells(a, TArray(|items|)) && SpelledAll(items, body) && b == a + body
    case _ => false
  }

  ghost predicate SpelledAll(vs: seq<Value>, b: Bytes)
    decreases vs, 0
  {
    if vs == [] then b == []
    else exists a, rest :: Spelled(vs[0], a) && SpelledAll(vs[1..], rest) && b == a + rest
  }

  /** Every encoding of a value is read as that value, from exactly its own bytes. */
  lemma {:induction false} SpelledReads(v: Value, b: Bytes, tail: Bytes)
    requires Spelled(v, b)
    ensures ReadValue(Reader(b + tail, false)) == (v, Reader(tail, false))
    decreases v, 1
  {
    hide ReadValue;
    hide Spells;
    match v
    case VStr(s) =>
      var a :| Spells(a, TStr(|s|)) && b == a + s;
      PayloadReads(TStr(|s|), a, s, tail);
    case VBin(d) =>
      var a :| Spells(a, TBin(|d|)) && b == a + d;
      PayloadReads(TBin(|d|), a, d, tail);
    case VArr(items) =>
      var a, body :| Spells(a, TArray(|items|)) && SpelledAll(items, body) && b == a + body;
      assert b + tail == a + (body + tail);
      ArrayReads(|items|, a, body + tail);
      SpelledAllReads(items, body, tail, []);
      assert [] + items == items;
    case VNil =>
      if Spells(b, TNil) { ScalarReads(TNil, b, tail); } else {
        var n: UInt32 :| Spells(b, TMap(n));
        ScalarReads(TMap(n), b, tail);
      }
    case VBool(x) => ScalarReads(TBool(x), b, tail);
    case VInt(i) => ScalarReads(TInt(i), b, tail);
    case VUInt(u) => ScalarReads(TUInt(u), b, tail);
    case VFloat(f) => ScalarReads(TFloat(f), b, tail);
    case VDouble(d) => ScalarReads(TDouble(d), b, tail);
  }

  /** What a tag without payload is read as. */
  function ValueOf(t: Tag): (v: Value)
  {
    match t
    case TBool(b) => VBool(b)
    case TInt(i) => VInt(i)
    case TUInt(u) => VUInt(u)
    case TFloat(f) => VFloat(f)
    case TDouble(d) => VDouble(d)
    case _ => VNil
  }

  lemma ScalarReads(t: Tag, b: Bytes, tail: Bytes)
    requires Spells(b, t) && !t.TStr? && !t.TBin? && !t.TArray?
    ensures ReadValue(Reader(b + tail, false)) == (ValueOf(t), Reader(tail, false))
  {
    hide Spells;
    hide ReadTag;
    ReadTagSpelled(t, b, tail);
  }

  lemma PayloadReads(t: Tag, a: Bytes, payload: Bytes, tail: Bytes)
    requires |payload| < UINT32_LIMIT && (t == TStr(|payload|) || t == TBin(|payload|)) && Spells(a, t)
    ensures ReadValue(Reader(a + payload + tail, false))
         == (if t.TStr? then VStr(payload) else VBin(payload), Reader(tail, false))
  {
    hide Spells;
    hide ReadTag;
    hide ReadBytes;
    assert a + payload + tail == a + (payload + tail);
    ReadTagSpelled(t, a, payload + tail);
    ReadBytesWritten(payload, tail);
  }

  lemma ArrayReads(n: UInt32, a: Bytes, body: Bytes)
    requires Spells(a, TArray(n))
    ensures ReadValue(Reader(a + body, false))
         == (VArr(ReadValues(n, Reader(body, false), []).0), ReadValues(n, Reader(body, false), []).1)
  {
    hide Spells;
    hide ReadTag;
    hide ReadValues;
    ReadTagSpelled(TArray(n), a, body);
  }

  lemma {:induction false} SpelledAllReads(vs: seq<Value>, b: Bytes, tail: Bytes, acc: seq<Value>)
    requires SpelledAll(vs, b)
    ensures ReadValues(|vs|, Reader(b + tail, false), acc) == (acc + vs, Reader(tail, false))
    decreases vs, 0
  {
    hide ReadValue;
    hide Spelled;
    if vs == [] {
      assert acc + vs == acc && b + tail == tail;
    } else {
      var a, rest :| Spelled(vs[0], a) && SpelledAll(vs[1..], rest) && b == a + rest;
      assert b + tail == a + (rest + tail);
      SpelledReads(vs[0], a, rest + tail);
      SpelledAllReads(vs[1..], rest, tail, acc + [vs[0]]);
      assert acc + [vs[0]] + vs[1..] == acc + vs;
    }
  }

  /** What was read without an error is an encoding of it, and the rest is left as it was. */
  lemma {:induction false} ReadIsSpelled(r: Reader) returns (b: Bytes)
    requires r.Valid() && !ReadValue(r).1.error
    ensures r.rest == b + ReadValue(r).1.rest && Spelled(ReadValue(r).0, b)
    decreases |r.rest|, 0
  {
    hide ReadTag;
    hide ReadBytes;
    hide Spells;
    hide ReadValues;
    hide SpelledAll;
    var (tag, r1) := ReadTag(r);
    assert !r1.error;
    var a := TagRead(r);
    if tag.TStr? || tag.TBin? {
      b := PayloadIsSpelled(r, a);
    } else if tag.TArray? {
      var n := tag.count;
      var body := ReadAllAreSpelled(n, r1, []);
      ReadValuesCount(n, r1, []);
      var items := ReadValues(n, r1, []).0;
      assert items[0..] == items;
      b := a + body;
      assert Spells(a, TArray(|items|)) && SpelledAll(items, body);
    } else {
      b := a;
    }
  }

  lemma PayloadIsSpelled(r: Reader, a: Bytes) returns (b: Bytes)
    requires r.Valid() && !ReadValue(r).1.error && !ReadTag(r).1.error
    requires (ReadTag(r).0.TStr? || ReadTag(r).0.TBin?) && Spells(a, ReadTag(r).0) && r.rest == a + ReadTag(r).1.rest
    ensures r.rest == b + ReadValue(r).1.rest && Spelled(ReadValue(r).0, b)
  {
    hide ReadTag;
    hide ReadBytes;
    hide Spells;
    var (tag, r1) := ReadTag(r);
    var n := if tag.TStr? then tag.strLen else tag.binLen;
    BytesRead(r1, n);
    var payload := ReadBytes(r1, n).0;
    b := a + payload;
    assert Spells(a, if tag.TStr? then TStr(|payload|) else TBin(|payload|));
  }

  lemma BytesRead(r: Reader, n: nat)
    requires r.Valid() && !ReadBytes(r, n).1.error
    ensures r.rest == ReadBytes(r, n).0 + ReadBytes(r, n).1.rest
  {
  }

  lemma TagRead(r: Reader) returns (a: Bytes)
    requires r.Valid() && !ReadTag(r).1.error
    ensures r.rest == a + ReadTag(r).1.rest && Spells(a, ReadTag(r).0)
  {
    hide Spells;
    var n := ParseTag(r.rest).value.1;
    ParsedIsSpelled(r.rest);
    hide ParseTag;
    a := r.rest[..n];
  }

  lemma {:induction false} ReadAllAreSpelled(n: nat, r: Reader, acc: seq<Value>) returns (b: Bytes)
    requires r.Valid() && !ReadValues(n, r, acc).1.error
    ensures !r.error && r.rest == b + ReadValues(n, r, acc).1.rest
    ensures acc <= ReadValues(n, r, acc).0 && SpelledAll(ReadValues(n, r, acc).0[|acc|..], b)
    decreases |r.rest|, n + 1
  {
    hide ReadValue;
    hide Spelled;
    if n == 0 {
      b := [];
      assert acc[|acc|..] == [];
    } else {
      var (v, r1) := ReadValue(r);
      assert !r1.error;
      var a := ReadIsSpelled(r);
      var rest := ReadAllAreSpelled(n - 1, r1, acc + [v]);
      var vs := ReadValues(n, r, acc).0;
      assert vs[|acc|] == v && vs[|acc|..][1..] == vs[|acc| + 1..];
      b := a + rest;
      assert Spelled(vs[|acc|..][0], a) && SpelledAll(vs[|acc|..][1..], rest);
    }
  }

  /** Reading a value is exactly recognising one of its encodings at the front. */
  lemma ReadValueIff(s: Bytes, v: Value, n: nat)
    requires n <= |s|
    ensures ReadValue(Reader(s, false)) == (v, Reader(s[n..], false)) <==> Spelled(v, s[..n])
  {
    hide ReadValue;
    hide Spelled;
    assert s == s[..n] + s[n..];
    if ReadValue(Reader(s, false)) == (v, Reader(s[n..], false)) {
      var b := ReadIsSpelled(Reader(s, false));
      assert |b| == n && b == s[..n];
    }
    if Spelled(v, s[..n]) { SpelledReads(v, s[..n], s[n..]); }
  }

  // ---------------------------------------------------------------- responses

  /** An integer of either kind, in any width. */
  predicate SpelledInteger(b: Bytes, x: int)
  {
    || (0 <= x < UINT64_LIMIT && Spells(b, TUInt(x)))
    || (-0x8000_0000_0000_0000 <= x < 0x8000_0000_0000_0000 && Spells(b, TInt(x)))
  }

  /** [1, msgid, error, result], and nothing else. */
  ghost predicate SpelledResponse(s: CppResponses.CppResponse, b: Bytes)
  {
    && s.kind == 1
    && exists count, kind, id, error, result ::
         && Spells(count, TArray(4)) && SpelledInteger(kind, 1) && SpelledInteger(id, s.msgid)
         && Spelled(s.error, error) && Spelled(s.result, result)
         && b == count + kind + id + error + result
  }

  lemma IntegerReads(b: Bytes, x: int, tail: Bytes)
    requires SpelledInteger(b, x)
    ensures var (tag, r) := ReadTag(Reader(b + tail, false));
            r == Reader(tail, false) && ((tag.TUInt? && tag.u == x) || (tag.TInt? && tag.i == x))
  {
    hide Spells;
    hide ReadTag;
    if 0 <= x < UINT64_LIMIT && Spells(b, TUInt(x)) {
      ReadTagSpelled(TUInt(x), b, tail);
    } else {
      ReadTagSpelled(TInt(x), b, tail);
    }
  }

  lemma HeaderReads(count: Bytes, kind: Bytes, id: Bytes, msgid: UInt32, body: Bytes)
    requires Spells(count, TArray(4)) && SpelledInteger(kind, 1) && SpelledInteger(id, msgid)
    ensures Responses.ReadHeader(count + kind + id + body) == (msgid, Reader(body, false))
  {
    hide Spells;
    hide SpelledInteger;
    hide ReadTag;
    assert count + kind + id + body == count + (kind + (id + body));
    ReadTagSpelled(TArray(4), count, kind + (id + body));
    IntegerReads(kind, 1, id + body);
    IntegerReads(id, msgid, body);
  }

  lemma HeaderIsSpelled(b: Bytes) returns (count: Bytes, kind: Bytes, id: Bytes)
    requires !Responses.ReadHeader(b).1.error
    ensures Spells(count, TArray(4)) && SpelledInteger(kind, 1) && SpelledInteger(id, Responses.ReadHeader(b).0)
    ensures b == count + kind + id + Responses.ReadHeader(b).1.rest
  {
    hide ReadTag;
    hide ExpectArray;
    hide ExpectUInt;
    hide Spells;
    var r0 := Reader(b, false);
    var r1 := ReadTag(r0).1;
    var r2 := ReadTag(r1).1;
    count := TagRead(r0);
    kind := TagRead(r1);
    id := TagRead(r2);
    var rest := Responses.ReadHeader(b).1.rest;
    assert count + (kind + (id + rest)) == count + kind + id + rest;
  }

  /** Every spelling of a response is read as that response, from exactly its own bytes. */
  lemma SpelledResponseReads(s: CppResponses.CppResponse, b: Bytes, tail: Bytes)
    requires SpelledResponse(s, b)
    ensures CppResponses.Decode(b + tail) == (Some(s), Reader(tail, false))
  {
    hide Spells;
    hide SpelledInteger;
    hide Spelled;
    hide ReadValue;
    hide Responses.ReadHeader;
    var count, kind, id, error, result :|
      && Spells(count, TArray(4)) && SpelledInteger(kind, 1) && SpelledInteger(id, s.msgid)
      && Spelled(s.error, error) && Spelled(s.result, result)
      && b == count + kind + id + error + result;
    var body := error + (result + tail);
    assert b + tail == count + kind + id + body;
    HeaderReads(count, kind, id, s.msgid, body);
    SpelledReads(s.error, error, result + tail);
    SpelledReads(s.result, result, tail);
  }

  lemma DecodedIsSpelled(b: Bytes) returns (p: Bytes)
    requires CppResponses.Decode(b).0.Some?
    ensures b == p + CppResponses.Decode(b).1.rest && SpelledResponse(CppResponses.Decode(b).0.value, p)
  {
    hide Spells;
    hide SpelledInteger;
    hide Spelled;
    hide ReadValue;
    hide Responses.ReadHeader;
    var count, kind, id := HeaderIsSpelled(b);
    var r := Responses.ReadHeader(b).1;
    var r1 := ReadValue(r).1;
    var error := ReadIsSpelled(r);
    var result := ReadIsSpelled(r1);
    p := count + kind + id + error + result;
    var rest := ReadValue(r1).1.rest;
    assert count + kind + id + (error + (result + rest)) == p + rest;
  }

  /** Decoding a response is exactly recognising one of its spellings at the front. */
  lemma DecodeIff(b: Bytes, s: CppResponses.CppResponse, n: nat)
    requires n <= |b|
    ensures CppResponses.Decode(b) == (Some(s), Reader(b[n..], false)) <==> SpelledResponse(s, b[..n])
  {
    hide CppResponses.Decode;
    hide SpelledResponse;
    assert b == b[..n] + b[n..];
    if CppResponses.Decode(b) == (Some(s), Reader(b[n..], false)) {
      var p := DecodedIsSpelled(b);
      assert |p| == n && p == b[..n];
    }
    if SpelledResponse(s, b[..n]) { SpelledResponseReads(s, b[..n], b[n..]); }
  }

  /** So the C client accepts exactly the same byte strings and holds the same content. */
  lemma CDecodeIff(b: Bytes, n: nat)
    requires n <= |b|
    ensures (exists s :: Responses.Decode(b) == (Some(s), Reader(b[n..], false)))
            <==> exists s :: SpelledResponse(s, b[..n])
  {
    hide CppResponses.Decode;
    hide Responses.Decode;
    hide SpelledResponse;
    CppResponses.LanguagesAgree(b);
    forall s ensures CppResponses.Decode(b) == (Some(s), Reader(b[n..], false)) <==> SpelledResponse(s, b[..n]) {
      DecodeIff(b, s, n);
    }
    if CppResponses.Decode(b).0.Some? {
      var s := CppResponses.Decode(b).0.value;
      assert CppResponses.Decode(b) == (Some(s), CppResponses.Decode(b).1);
      var c := Responses.Decode(b).0.value;
      assert Responses.Decode(b) == (Some(c), Responses.Decode(b).1);
    }
  }
}
