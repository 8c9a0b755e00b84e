/**
 source/api/proto/Response.c: the lenient writer, which puts nil wherever a payload is
 missing (Request.c has the same function), the reader that hands back whatever it finds,
 and the [1, msgid, error, result] envelope.
 */
module Responses {
  import opened Wire
  import opened Objects
  import opened Mpack
  import opened CppObjects

  // ---------------------------------------------------------------- lenient writer

  /** ObjectMarshalMPack: lengths are cut to 32 bits, anything missing is nil. */
  function Lenient(o: Object): (s: Bytes)
    decreases o, 1
  {
    match o
    case Bool(b) => WriteTag(TBool(b))
    case Int(i) => WriteTag(TInt(i))
    case UInt(u) => WriteTag(TUInt(u))
    case Float(f) => WriteTag(TFloat(f))
    case Double(d) => WriteTag(TDouble(d))
    case Str(s) => WriteTag(TStr(|Cut(s)|)) + Cut(s)
    case Bin(d) => WriteTag(TBin(|Cut(d)|)) + Cut(d)
    case Arr(items) => WriteTag(TArray(|items| % UINT32_LIMIT)) + LenientAll(items)
    case _ => WriteTag(TNil)
  }

  function LenientAll(os: seq<Object>): (s: Bytes)
    decreases os, 0
  {
    if os == [] then [] else Lenient(os[0]) + LenientAll(os[1..])
  }

  method ObjectMarshalMPack(writer: MpackWriter, o: Object)
    modifies writer`buffer
    ensures writer.buffer == old(writer.buffer) + Lenient(o)
    decreases o, 1
  {
    hide WriteTag;
    match o {
      case Bool(b) => writer.Tag(TBool(b));
      case Int(i) => writer.Tag(TInt(i));
      case UInt(u) => writer.Tag(TUInt(u));
      case Float(f) => writer.Tag(TFloat(f));
      case Double(d) => writer.Tag(TDouble(d));
      case Str(s) =>
        writer.Tag(TStr(|Cut(s)|));
        writer.Raw(Cut(s));
      case Bin(d) =>
        writer.Tag(TBin(|Cut(d)|));
        writer.Raw(Cut(d));
      case Arr(items) =>
        writer.Tag(TArray(|items| % UINT32_LIMIT));
        MarshalItems(writer, items);
      case _ => writer.Tag(TNil);
    }
  }

  /** The element loop, which is also the loop over a request's parameters. */
  method MarshalItems(writer: MpackWriter, items: seq<Object>)
    modifies writer`buffer
    ensures writer.buffer == old(writer.buffer) + LenientAll(items)
    decreases items, 0
  {
    hide Lenient;
    for k := 0 to |items|
      invariant writer.buffer == old(writer.buffer) + LenientAll(items[..k])
    {
      ObjectMarshalMPack(writer, items[k]);
      LenientAllAppend(items[..k], items[k]);
      assert items[..k + 1] == items[..k] + [items[k]];
    }
    assert items[..|items|] == items;
  }

  lemma {:induction false} LenientAllAppend(os: seq<Object>, o: Object)
    ensures LenientAll(os + [o]) == LenientAll(os) + Lenient(o)
  {
    hide Lenient;
    if os == [] {
      assert os + [o] == [o];
    } else {
      LenientAllAppend(os[1..], o);
      assert (os + [o])[1..] == os[1..] + [o];
    }
  }

  lemma LenientAllCons(os: seq<Object>, tail: Bytes)
    requires os != []
    ensures LenientAll(os) + tail == Lenient(os[0]) + (LenientAll(os[1..]) + tail)
  {
    hide Lenient;
  }

  // ---------------------------------------------------------------- C reader

  /** ObjectUnmarshalMPack; Null stands for the null result. */
  function ReadObject(r: Reader): (res: (Object, Reader))
    requires r.Valid()
    ensures res.1.Valid() && |res.1.rest| <= |r.rest|
    ensures r.error ==> res == (Null, FAILED)
    ensures !res.1.error ==> |res.1.rest| < |r.rest|
    decreases |r.rest|, 0
  {
    var (tag, r1) := ReadTag(r);
    if r1.error then (Null, r1) else
    match tag
    case TNil => (Nil, r1)
    case TBool(b) => (Bool(b), r1)
    case TInt(i) => (Int(i), r1)
    case TUInt(u) => (UInt(u), r1)
    case TFloat(f) => (Float(f), r1)
    case TDouble(d) => (Double(d), r1)
    case TStr(n) => var (bytes, r2) := ReadBytes(r1, n); (Str(CString(bytes)), r2)
    case TBin(n) => var (bytes, r2) := ReadBytes(r1, n); (if n == 0 then BinNoData(0) else Bin(bytes), r2)
    case TArray(n) => var (items, r2) := ReadItems(n, r1, []); (Arr(items), r2)
    case TMap(_) => (Nil, r1)
  }

  /** The element loop: children that could not be read, or copied, are left out. */
  function ReadItems(n: nat, r: Reader, acc: seq<Object>): (res: (seq<Object>, Reader))
    requires r.Valid()
    ensures res.1.Valid() && |res.1.rest| <= |r.rest|
    ensures r.error ==> res.1.error
    decreases |r.rest|, n + 1
  {
    if n == 0 then (acc, r)
    else
      var (o, r1) := ReadObject(r);
      ReadItems(n - 1, r1, if CopyOf(o).Null? then acc else acc + [CopyOf(o)])
  }

  method ObjectUnmarshalMPack(reader: MpackReader) returns (o: Object)
    requires reader.Valid()
    modifies reader
    ensures reader.Valid() && (o, reader.View()) == ReadObject(old(reader.View()))
    decreases |reader.View().rest|, 0
  {
    hide ParseTag;
    hide ReadItems;
    hide CString;
    var tag := reader.ReadTag();
    if reader.error { return Null; }
    match tag {
      case TNil => return Nil;
      case TBool(b) => return Bool(b);
      case TInt(i) => return Int(i);
      case TUInt(u) => return UInt(u);
      case TFloat(f) => return Float(f);
      case TDouble(d) => return Double(d);
      case TStr(n) =>
        var bytes := reader.ReadBytes(n);
        return Str(CString(bytes));
      case TBin(n) =>
        var bytes := reader.ReadBytes(n);
        return if n == 0 then BinNoData(0) else Bin(bytes);
      case TArray(n) =>
        var items := ReadChildren(reader, n);
        return Arr(items);
      case TMap(_) => return Nil;
    }
  }

  /** The element loop. */
  method ReadChildren(reader: MpackReader, n: nat) returns (items: seq<Object>)
    requires reader.Valid()
    modifies reader
    ensures reader.Valid() && (items, reader.View()) == ReadItems(n, old(reader.View()), [])
    decreases |reader.View().rest|, n + 1
  {
    hide ReadObject;
    hide CopyOf;
    ghost var r := reader.View();
    items := [];
    for k := 0 to n
      invariant reader.Valid() && |reader.View().rest| <= |r.rest|
      invariant ReadItems(n, r, []) == ReadItems(n - k, reader.View(), items)
    {
      var child := ObjectUnmarshalMPack(reader);
      if !CopyOf(child).Null? {
        items := items + [CopyOf(child)];
      }
    }
  }

  // ---------------------------------------------------------------- the two readers agree

  /** A C++ value as the C reader would have built it. */
  function AsC(v: Value): (o: Object)
    decreases v, 1
  {
    match v
    case VUnd => Und
    case VNil => Nil
    case VBool(b) => Bool(b)
    case VInt(i) => Int(i)
    case VUInt(u) => UInt(u)
    case VFloat(f) => Float(f)
    case VDouble(d) => Double(d)
    case VStr(s) => Str(CString(s))
    case VBin(d) => if d == [] then BinNoData(0) else Bin(d)
    case VArr(items) => Arr(AsCAll(items))
    case VMap(_) => Map
  }

  function AsCAll(vs: seq<Value>): (os: seq<Object>)
    ensures |os| == |vs|
    decreases vs, 0
  {
    if vs == [] then [] else [AsC(vs[0])] + AsCAll(vs[1..])
  }

  lemma {:induction false} AsCAllAppend(vs: seq<Value>, v: Value)
    ensures AsCAll(vs + [v]) == AsCAll(vs) + [AsC(v)]
  {
    if vs == [] {
      assert vs + [v] == [v];
    } else {
      AsCAllAppend(vs[1..], v);
      assert (vs + [v])[1..] == vs[1..] + [v];
    }
  }

  /** On every input both readers stop at the same place; without an error they built the same tree. */
  lemma {:induction false} ReadersAgree(r: Reader)
    requires r.Valid()
    ensures ReadObject(r).1 == ReadValue(r).1
    ensures !ReadValue(r).1.error ==> ReadObject(r).0 == AsC(ReadValue(r).0) && Decoded(ReadObject(r).0)
    decreases |r.rest|, 0
  {
    hide ParseTag;
    hide ReadItems;
    hide ReadValues;
    hide CopyOf;
    var (tag, r1) := ReadTag(r);
    if !r1.error && tag.TArray? {
      ReadersAgreeAll(tag.count, r1, [], []);
    }
  }

  lemma {:induction false} ReadersAgreeAll(n: nat, r: Reader, cs: seq<Object>, vs: seq<Value>)
    requires r.Valid()
    ensures ReadItems(n, r, cs).1 == ReadValues(n, r, vs).1
    ensures !r.error && cs == AsCAll(vs) && DecodedAll(cs) && !ReadValues(n, r, vs).1.error
            ==> ReadItems(n, r, cs).0 == AsCAll(ReadValues(n, r, vs).0) && DecodedAll(ReadItems(n, r, cs).0)
    decreases |r.rest|, n + 1
  {
    hide ReadObject;
    hide ReadValue;
    hide Decoded;
    hide CopyOf;
    if n > 0 {
      ReadersAgree(r);
      var (o, r1) := ReadObject(r);
      var v := ReadValue(r).0;
      if !r1.error {
        CopyOfDecoded(o);
        AsCAllAppend(vs, v);
        if DecodedAll(cs) {
          DecodedAllAppend(cs, o);
        }
      }
      ReadersAgreeAll(n - 1, r1, if CopyOf(o).Null? then cs else cs + [CopyOf(o)], vs + [v]);
    }
  }

  // ---------------------------------------------------------------- canonical form

  /** The one limit of the lenient writer: an array's count must fit its 32-bit field. */
  predicate Countable(o: Object) { o.Arr? ==> |o.items| < UINT32_LIMIT }

  /** What the C++ client reads from the lenient encoding of `o`. */
  function Received(o: Object): (v: Value)
    decreases o, 1
  {
    match o
    case Bool(b) => VBool(b)
    case Int(i) => if i >= 0 then VUInt(i) else VInt(i)
    case UInt(u) => VUInt(u)
    case Float(f) => VFloat(f)
    case Double(d) => VDouble(d)
    case Str(s) => VStr(Cut(s))
    case Bin(d) => VBin(Cut(d))
    case Arr(items) => VArr(ReceivedAll(items))
    case _ => VNil
  }

  function ReceivedAll(os: seq<Object>): (vs: seq<Value>)
    ensures |vs| == |os|
    decreases os, 0
  {
    if os == [] then [] else [Received(os[0])] + ReceivedAll(os[1..])
  }

  /** The recursive canonicalisation: whatever is missing is nil, integers in wire form. */
  function Canon(o: Object): (c: Object)
    decreases o, 1
  {
    match o
    case Bool(_) => o
    case Int(i) => WireInt(i)
    case UInt(_) => o
    case Float(_) => o
    case Double(_) => o
    case Str(s) => Str(CString(Cut(s)))
    case Bin(d) => if Cut(d) == [] then BinNoData(0) else Bin(Cut(d))
    case Arr(items) => Arr(CanonAll(items))
    case _ => Nil
  }

  function CanonAll(os: seq<Object>): (cs: seq<Object>)
    ensures |cs| == |os|
    decreases os, 0
  {
    if os == [] then [] else [Canon(os[0])] + CanonAll(os[1..])
  }

  lemma {:induction false} CanonIsReceived(o: Object)
    ensures AsC(Received(o)) == Canon(o)
    decreases o, 1
  {
    if o.Arr? {
      CanonIsReceivedAll(o.items);
    }
  }

  lemma {:induction false} CanonIsReceivedAll(os: seq<Object>)
    ensures AsCAll(ReceivedAll(os)) == CanonAll(os)
    decreases os, 0
  {
    if os != [] {
      CanonIsReceived(os[0]);
      CanonIsReceivedAll(os[1..]);
    }
  }

  lemma {:induction false} ReadLenient(o: Object, tail: Bytes)
    requires Everywhere(Countable, o)
    ensures ReadValue(Reader(Lenient(o) + tail, false)) == (Received(o), Reader(tail, false))
    decreases o, 1
  {
    hide ParseTag;
    hide WriteTag;
    match o
    case Str(s) => ReadLenientStr(s, tail);
    case Bin(d) => ReadLenientBin(d, tail);
    case Arr(items) =>
      assert |items| % UINT32_LIMIT == |items|;
      assert Lenient(o) + tail == WriteTag(TArray(|items|)) + (LenientAll(items) + tail);
      ReadTagWritten(TArray(|items|), LenientAll(items) + tail);
      ReadLenientAll(items, tail, []);
      assert [] + ReceivedAll(items) == ReceivedAll(items);
    case _ => ReadLenientScalar(o, tail);
  }

  lemma ReadLenientScalar(o: Object, tail: Bytes)
    requires !o.Str? && !o.Bin? && !o.Arr?
    ensures ReadValue(Reader(Lenient(o) + tail, false)) == (Received(o), Reader(tail, false))
  {
    hide ParseTag;
    hide WriteTag;
    match o
    case Bool(b) => ReadTagWritten(TBool(b), tail);
    case Int(i) => ReadTagWritten(TInt(i), tail);
    case UInt(u) => ReadTagWritten(TUInt(u), tail);
    case Float(f) => ReadTagWritten(TFloat(f), tail);
    case Double(d) => ReadTagWritten(TDouble(d), tail);
    case _ => ReadTagWritten(TNil, tail);
  }

  lemma ReadLenientStr(s: Bytes, tail: Bytes)
    ensures ReadValue(Reader(Lenient(Str(s)) + tail, false)) == (VStr(Cut(s)), Reader(tail, false))
  {
    hide ParseTag;
    hide WriteTag;
    var c := Cut(s);
    assert Lenient(Str(s)) + tail == WriteTag(TStr(|c|)) + (c + tail);
    ReadTagWritten(TStr(|c|), c + tail);
    ReadBytesWritten(c, tail);
  }

  lemma ReadLenientBin(d: Bytes, tail: Bytes)
    ensures ReadValue(Reader(Lenient(Bin(d)) + tail, false)) == (VBin(Cut(d)), Reader(tail, false))
  {
    hide ParseTag;
    hide WriteTag;
    var c := Cut(d);
    assert Lenient(Bin(d)) + tail == WriteTag(TBin(|c|)) + (c + tail);
    ReadTagWritten(TBin(|c|), c + tail);
    ReadBytesWritten(c, tail);
  }

  lemma {:induction false} ReadLenientAll(os: seq<Object>, tail: Bytes, acc: seq<Value>)
    requires EverywhereIn(Countable, os)
    ensures ReadValues(|os|, Reader(LenientAll(os) + tail, false), acc) == (acc + ReceivedAll(os), Reader(tail, false))
    decreases os, 0
  {
    if os == [] {
      assert acc + ReceivedAll(os) == acc;
      assert [] + tail == tail;
    } else {
      EverywhereInCons(Countable, os);
      ReadLenient(os[0], LenientAll(os[1..]) + tail);
      ReadLenientAll(os[1..], tail, acc + [Received(os[0])]);
      ReadLenientStep(os, tail, acc);
    }
  }

  lemma ReadLenientStep(os: seq<Object>, tail: Bytes, acc: seq<Value>)
    requires os != []
    requires ReadValue(Reader(Lenient(os[0]) + (LenientAll(os[1..]) + tail), false))
          == (Received(os[0]), Reader(LenientAll(os[1..]) + tail, false))
    ensures ReadValues(|os|, Reader(LenientAll(os) + tail, false), acc)
         == ReadValues(|os| - 1, Reader(LenientAll(os[1..]) + tail, false), acc + [Received(os[0])])
    ensures acc + [Received(os[0])] + ReceivedAll(os[1..]) == acc + ReceivedAll(os)
  {
    hide ReadValue;
    hide Lenient;
    hide Received;
    LenientAllCons(os, tail);
  }

  // ---------------------------------------------------------------- arrays beyond 32 bits

  lemma {:induction false} LenientAllConcat(a: seq<Object>, b: seq<Object>)
    ensures LenientAll(a + b) == LenientAll(a) + LenientAll(b)
  {
    hide Lenient;
    if a == [] {
      assert a + b == b;
    } else {
      LenientAllConcat(a[1..], b);
      assert (a + b)[1..] == a[1..] + b;
      assert LenientAll(a + b) == Lenient(a[0]) + (LenientAll(a[1..]) + LenientAll(b));
    }
  }

  lemma LenientAllNonEmpty(os: seq<Object>)
    requires os != []
    ensures LenientAll(os) != []
  {
    hide WriteTag;
  }

  /**
   Reading one value from a sequence of encodings never fails and leaves a sequence of
   encodings.  It leaves all but the first one when every count in that one fits 32 bits;
   otherwise the elements beyond the count spill, and at least one more is left.
   */
  lemma {:induction false} ReadSpill(os: seq<Object>, tail: Bytes) returns (left: seq<Object>)
    requires os != []
    ensures ReadValue(Reader(LenientAll(os) + tail, false)).1 == Reader(LenientAll(left) + tail, false)
    ensures if Everywhere(Countable, os[0]) then left == os[1..] else |left| >= |os|
    decreases |LenientAll(os)|, 0
  {
    hide ParseTag;
    hide WriteTag;
    hide ReadValue;
    hide Lenient;
    hide Everywhere;
    LenientAllCons(os, tail);
    if Everywhere(Countable, os[0]) {
      ReadLenient(os[0], LenientAll(os[1..]) + tail);
      left := os[1..];
    } else {
      ScalarCountable(os[0]);
      var items := os[0].items;
      var inner := items + os[1..];
      ArrayOpens(os, tail);
      left := ReadSpillAll(|items| % UINT32_LIMIT, inner, tail, []);
      UncountableWithin(os[0]);
      if |items| < UINT32_LIMIT {
        var k :| 0 <= k < |items| && !Everywhere(Countable, items[k]);
        assert inner[k] == items[k];
      }
    }
  }

  lemma ScalarCountable(o: Object)
    requires !Everywhere(Countable, o)
    ensures o.Arr?
  {
  }

  lemma UncountableWithin(o: Object)
    requires o.Arr? && !Everywhere(Countable, o)
    ensures |o.items| >= UINT32_LIMIT || exists k :: 0 <= k < |o.items| && !Everywhere(Countable, o.items[k])
  {
  }

  /** Behind the tag of an array, its elements and what follows it are one sequence. */
  lemma ArrayOpens(os: seq<Object>, tail: Bytes)
    requires os != [] && os[0].Arr?
    ensures var inner := os[0].items + os[1..];
            && |LenientAll(inner)| < |LenientAll(os)|
            && ReadValue(Reader(LenientAll(os) + tail, false)).1
               == ReadValues(|os[0].items| % UINT32_LIMIT, Reader(LenientAll(inner) + tail, false), []).1
  {
    hide ParseTag;
    hide WriteTag;
    hide LenientAll;
    hide ReadValues;
    var items := os[0].items;
    var tag := TArray(|items| % UINT32_LIMIT);
    LenientAllConcat(items, os[1..]);
    LenientAllUnfold(os);
    assert LenientAll(os) + tail == WriteTag(tag) + (LenientAll(items + os[1..]) + tail);
    ReadTagWritten(tag, LenientAll(items + os[1..]) + tail);
  }

  lemma LenientAllUnfold(os: seq<Object>)
    requires os != []
    ensures LenientAll(os) == Lenient(os[0]) + LenientAll(os[1..])
  {
    hide Lenient;
  }

  lemma {:induction false} ReadSpillAll(n: nat, os: seq<Object>, tail: Bytes, acc: seq<Value>)
    returns (left: seq<Object>)
    requires n <= |os|
    ensures ReadValues(n, Reader(LenientAll(os) + tail, false), acc).1 == Reader(LenientAll(left) + tail, false)
    ensures |left| >= |os| - n
    ensures (exists k :: 0 <= k < n && !Everywhere(Countable, os[k])) ==> |left| > |os| - n
    decreases |LenientAll(os)|, 1
  {
    hide ParseTag;
    hide ReadValue;
    hide LenientAll;
    hide Everywhere;
    if n == 0 {
      return os;
    }
    var r := Reader(LenientAll(os) + tail, false);
    var next := ReadSpill(os, tail);
    assert |LenientAll(next)| < |LenientAll(os)|;
    var v := ReadValue(r).0;
    left := ReadSpillAll(n - 1, next, tail, acc + [v]);
    if Everywhere(Countable, os[0]) && exists k :: 0 <= k < n && !Everywhere(Countable, os[k]) {
      var k :| 0 <= k < n && !Everywhere(Countable, os[k]);
      assert next[k - 1] == os[k];
    }
  }

  /** Of an array, as many elements come back as the low 32 bits of its length say. */
  lemma OverlongArrayReads(items: seq<Object>, tail: Bytes)
    ensures var v := ReadValue(Reader(Lenient(Arr(items)) + tail, false)).0;
            v.VArr? && |v.items| == |items| % 0x1_0000_0000
  {
    hide ParseTag;
    hide WriteTag;
    hide LenientAll;
    hide ReadValues;
    var tag := TArray(|items| % UINT32_LIMIT);
    assert Lenient(Arr(items)) + tail == WriteTag(tag) + (LenientAll(items) + tail);
    ReadTagWritten(tag, LenientAll(items) + tail);
    ReadValuesCount(|items| % UINT32_LIMIT, Reader(LenientAll(items) + tail, false), []);
  }

  /** A tree is read back from exactly its own bytes exactly when every count in it fits 32 bits. */
  lemma ReadLenientIff(o: Object, tail: Bytes)
    ensures !ReadValue(Reader(Lenient(o) + tail, false)).1.error
    ensures ReadValue(Reader(Lenient(o) + tail, false)) == (Received(o), Reader(tail, false))
            <==> Everywhere(Countable, o)
  {
    hide ReadValue;
    hide Lenient;
    hide Everywhere;
    hide Received;
    assert LenientAll([o]) == Lenient(o);
    var left := ReadSpill([o], tail);
    if Everywhere(Countable, o) {
      ReadLenient(o, tail);
    } else {
      LenientAllNonEmpty(left);
    }
  }

  // ---------------------------------------------------------------- envelope

  const RPC_RESPONSE: UInt32 := 1

  /** A response; an absent error or result is Null. */
  datatype Response = Response(kind: UInt32, msgid: UInt32, error: Object, result: Object)

  function Envelope(kind: UInt32, msgid: UInt32, body: Bytes): (s: Bytes)
  {
    WriteTag(TArray(4)) + WriteTag(TUInt(kind % 0x100)) + WriteTag(TUInt(msgid)) + body
  }

  function Marshal(s: Response): (b: Bytes)
  {
    Envelope(s.kind, s.msgid, Lenient(s.error) + Lenient(s.result))
  }

  method ResponseMarshal(s: Response) returns (b: Bytes)
    ensures b == Marshal(s)
  {
    hide WriteTag;
    hide Lenient;
    var writer := new MpackWriter();
    writer.Tag(TArray(4));
    writer.Tag(TUInt(s.kind % 0x100));
    writer.Tag(TUInt(s.msgid));
    ObjectMarshalMPack(writer, s.error);
    ObjectMarshalMPack(writer, s.result);
    assert [] + WriteTag(TArray(4)) == WriteTag(TArray(4));
    b := writer.buffer;
  }

  /** The envelope that both languages read before the two values. */
  function ReadHeader(b: Bytes): (res: (UInt32, Reader))
    ensures res.1.Valid()
  {
    var (count, r1) := ExpectArray(Reader(b, false), UINT32_LIMIT);
    if r1.error || count != 4 then (0, FAILED)
    else
      var (kind, r2) := ExpectUInt(r1, 0x100);
      if r2.error || kind != RPC_RESPONSE then (0, FAILED)
      else ExpectUInt(r2, UINT32_LIMIT)
  }

  function DropNil(o: Object): Object { if o.Nil? then Null else o }

  /** ResponseUnmarshal and the reader it leaves behind. */
  function Decode(b: Bytes): (res: (Option<Response>, Reader))
    ensures res.0.Some? <==> !res.1.error
  {
    if b == [] then (None, FAILED)
    else
      var (msgid, r) := ReadHeader(b);
      if r.error then (None, FAILED)
      else
        var (error, r1) := ReadObject(r);
        if r1.error then (None, FAILED)
        else
          var (result, r2) := ReadObject(r1);
          if r2.error then (None, FAILED)
          else (Some(Response(RPC_RESPONSE, msgid, DropNil(error), DropNil(result))), r2)
  }

  function Unmarshal(b: Bytes): Option<Response> { Decode(b).0 }

  method ReadEnvelope(reader: MpackReader) returns (ok: bool, msgid: UInt32)
    requires reader.Valid() && !reader.error
    modifies reader
    ensures reader.Valid()
    ensures ok <==> !ReadHeader(old(reader.View().rest)).1.error
    ensures ok ==> (msgid, reader.View()) == ReadHeader(old(reader.View().rest))
  {
    hide ParseTag;
    ok, msgid := false, 0;
    var tag := reader.ReadTag();
    if !tag.TArray? || tag.count != 4 { return; }
    tag := reader.ReadTag();
    if tag != TUInt(RPC_RESPONSE) && tag != TInt(RPC_RESPONSE) { return; }
    tag := reader.ReadTag();
    if tag.TUInt? && tag.u < UINT32_LIMIT {
      ok, msgid := true, tag.u;
    } else if tag.TInt? && 0 <= tag.i < UINT32_LIMIT {
      ok, msgid := true, tag.i;
    }
  }

  method ResponseUnmarshal(b: Bytes) returns (s: Option<Response>)
    ensures s == Unmarshal(b)
  {
    hide ParseTag;
    hide ReadObject;
    hide ReadHeader;
    if b == [] { return None; }
    var reader := new MpackReader(b);
    var ok, msgid := ReadEnvelope(reader);
    if !ok { return None; }
    var error := ObjectUnmarshalMPack(reader);
    if reader.error { return None; }
    if error.Nil? { error := Null; }
    var result := ObjectUnmarshalMPack(reader);
    if reader.error { return None; }
    if result.Nil? { result := Null; }
    s := Some(Response(RPC_RESPONSE, msgid, error, result));
  }

  // ---------------------------------------------------------------- round trip

  lemma ReadHeaderWritten(kind: UInt32, msgid: UInt32, body: Bytes)
    ensures if kind % 0x100 == RPC_RESPONSE
            then ReadHeader(Envelope(kind, msgid, body)) == (msgid, Reader(body, false))
            else ReadHeader(Envelope(kind, msgid, body)).1.error
  {
    hide ParseTag;
    hide WriteTag;
    var s3 := WriteTag(TUInt(msgid)) + body;
    var s2 := WriteTag(TUInt(kind % 0x100)) + s3;
    assert Envelope(kind, msgid, body) == WriteTag(TArray(4)) + s2;
    ReadTagWritten(TArray(4), s2);
    ReadTagWritten(TUInt(kind % 0x100), s3);
    ReadTagWritten(TUInt(msgid), body);
  }

  predicate CountableFields(s: Response)
  {
    Everywhere(Countable, s.error) && Everywhere(Countable, s.result)
  }

  /** The response that comes back. */
  function CanonResponse(s: Response): Response
  {
    Response(RPC_RESPONSE, s.msgid, DropNil(Canon(s.error)), DropNil(Canon(s.result)))
  }

  /** Where both decoders stand after the two fields: at the tail exactly when the counts fit. */
  lemma FieldsLeave(s: Response, tail: Bytes) returns (left: seq<Object>)
    ensures var r1 := ReadValue(Reader(Lenient(s.error) + (Lenient(s.result) + tail), false)).1;
            !r1.error && ReadValue(r1).1 == Reader(LenientAll(left) + tail, false)
    ensures left == [] <==> CountableFields(s)
  {
    hide ReadValue;
    hide Lenient;
    hide Everywhere;
    var os := [s.error, s.result];
    assert os[1..] == [s.result] && [s.result][1..] == [];
    LenientAllCons(os, tail);
    LenientAllCons([s.result], tail);
    assert [] + tail == tail;
    var next := ReadSpill(os, tail);
    left := ReadSpill(next, tail);
  }

  /**
   Round trip.  The bytes of a response are accepted, whatever follows them, exactly when
   its type byte is 1.  Then the canonical response comes back and exactly the encoded bytes
   are consumed, exactly when every array count fits its 32-bit field.
   */
  lemma ResponseRoundTrip(s: Response, tail: Bytes)
    ensures Decode(Marshal(s) + tail).0.Some? <==> s.kind % 0x100 == RPC_RESPONSE
    ensures s.kind % 0x100 == RPC_RESPONSE ==>
              (Decode(Marshal(s) + tail) == (Some(CanonResponse(s)), Reader(tail, false)) <==> CountableFields(s))
    ensures s.kind % 0x100 == RPC_RESPONSE && !CountableFields(s) ==> |Decode(Marshal(s) + tail).1.rest| > |tail|
  {
    hide ParseTag;
    hide WriteTag;
    hide ReadObject;
    hide ReadValue;
    hide ReadHeader;
    hide Canon;
    hide Received;
    hide Lenient;
    hide LenientAll;
    hide Everywhere;
    var rest := Lenient(s.result) + tail;
    var body := Lenient(s.error) + rest;
    assert Marshal(s) + tail == Envelope(s.kind, s.msgid, body);
    ReadHeaderWritten(s.kind, s.msgid, body);
    var left := FieldsLeave(s, tail);
    ReadersAgree(Reader(body, false));
    ReadersAgree(ReadValue(Reader(body, false)).1);
    if CountableFields(s) {
      ReadLenient(s.error, rest);
      ReadLenient(s.result, tail);
      CanonIsReceived(s.error);
      CanonIsReceived(s.result);
    } else {
      LenientAllNonEmpty(left);
    }
  }

  // ---------------------------------------------------------------- prefixes

  lemma ReadHeaderExtends(b: Bytes, more: Bytes)
    requires !ReadHeader(b).1.error
    ensures ReadHeader(b + more) == (ReadHeader(b).0, ReadHeader(b).1.Extend(more))
  {
    hide ParseTag;
    var r0 := Reader(b, false);
    assert r0.Extend(more) == Reader(b + more, false);
    var r1 := ReadTag(r0).1;
    var r2 := ReadTag(r1).1;
    ReadTagExtends(r0, more);
    ReadTagExtends(r1, more);
    ReadTagExtends(r2, more);
  }

  /** An accepted response goes the same way when more bytes follow. */
  lemma DecodeExtends(b: Bytes, more: Bytes)
    requires Unmarshal(b).Some?
    ensures Decode(b + more) == (Decode(b).0, Decode(b).1.Extend(more))
  {
    hide ParseTag;
    hide ReadObject;
    hide ReadValue;
    hide ReadHeader;
    var r := ReadHeader(b).1;
    var r1 := ReadObject(r).1;
    ReadHeaderExtends(b, more);
    ReadersAgree(r);
    ReadersAgree(r1);
    ReadValueExtends(r, more);
    ReadValueExtends(r1, more);
    ReadersAgree(r.Extend(more));
    ReadersAgree(r1.Extend(more));
  }

  /** A response is read from its own bytes alone. */
  lemma DecodeLocal(b: Bytes, k: nat)
    requires Unmarshal(b).Some? && k <= |Decode(b).1.rest|
    ensures Unmarshal(b[..|b| - k]) == Unmarshal(b)
  {
    hide ParseTag;
    hide ReadObject;
    hide ReadValue;
    hide ReadHeader;
    var r := ReadHeader(b).1;
    var r1 := ReadObject(r).1;
    ReadersAgree(r);
    ReadersAgree(r1);
    ReadHeaderLocal(b, k);
    ReadValueLocal(r1, k);
    ReadValueLocal(r, k);
    ReadersAgree(r.Drop(k));
    ReadersAgree(r1.Drop(k));
    ReadHeaderConsumes(b);
  }

  lemma ReadHeaderConsumes(b: Bytes)
    requires !ReadHeader(b).1.error
    ensures |ReadHeader(b).1.rest| < |b|
  {
    hide ParseTag;
  }

  lemma ReadHeaderLocal(b: Bytes, k: nat)
    requires !ReadHeader(b).1.error && k <= |ReadHeader(b).1.rest|
    ensures k <= |b| && ReadHeader(b[..|b| - k]) == (ReadHeader(b).0, ReadHeader(b).1.Drop(k))
  {
    hide ParseTag;
    var r0 := Reader(b, false);
    var r1 := ReadTag(r0).1;
    var r2 := ReadTag(r1).1;
    ReadTagLocal(r2, k);
    ReadTagLocal(r1, k);
    ReadTagLocal(r0, k);
  }

  /**
   No strict prefix of an encoded response is ever accepted, unless a count does not fit its
   field: then the elements beyond it are left over, and what comes before them is accepted.
   */
  lemma ResponsePrefixesRejectedIff(s: Response)
    ensures (forall p :: p < Marshal(s) ==> Unmarshal(p).None?)
            <==> s.kind % 0x100 != RPC_RESPONSE || CountableFields(s)
  {
    hide Marshal;
    hide Decode;
    hide CanonResponse;
    hide CountableFields;
    var b := Marshal(s);
    assert b + [] == b;
    ResponseRoundTrip(s, []);
    if s.kind % 0x100 == RPC_RESPONSE && !CountableFields(s) {
      var k := |Decode(b).1.rest|;
      DecodeRest(b);
      DecodeLocal(b, k);
      assert b[..|b| - k] < b;
    } else {
      forall p | p < b ensures Unmarshal(p).None? {
        if Unmarshal(p).Some? {
          var more := b[|p|..];
          assert p + more == b;
          DecodeExtends(p, more);
          assert false;
        }
      }
    }
  }

  lemma DecodeRest(b: Bytes)
    ensures |Decode(b).1.rest| <= |b|
  {
    hide ParseTag;
    hide ReadObject;
  }

  // ---------------------------------------------------------------- canonical form, again

  /** A node that encodes as it was once it has been canonicalised. */
  predicate Steady(o: Object)
  {
    (o.Str? ==> NulFree(Cut(o.s))) && (o.Bin? ==> Cut(o.data) != [])
  }

  predicate NotEmptied(o: Object) { o.Bin? ==> Cut(o.data) != [] }

  /** Canonicalisation is idempotent exactly on trees without a zero-length buffer that has data. */
  lemma {:induction false} CanonIdempotent(o: Object)
    ensures Canon(Canon(o)) == Canon(o) <==> Everywhere(NotEmptied, o)
    decreases o, 1
  {
    hide Cut;
    hide CString;
    hide CanonAll;
    match o
    case Str(s) => CanonIdempotentStr(s);
    case Bin(d) => CutTwice(d);
    case Arr(items) =>
      CanonIdempotentAll(items);
      assert EverywhereIn(NotEmptied, items) <==> Everywhere(NotEmptied, o);
    case _ =>
  }

  lemma CutTwice(s: Bytes)
    ensures Cut(Cut(s)) == Cut(s)
  {
  }

  lemma CanonIdempotentStr(s: Bytes)
    ensures Canon(Canon(Str(s))) == Canon(Str(s))
  {
    hide CString;
    assert Cut(CString(Cut(s))) == CString(Cut(s));
  }

  lemma {:induction false} CanonIdempotentAll(os: seq<Object>)
    ensures CanonAll(CanonAll(os)) == CanonAll(os) <==> EverywhereIn(NotEmptied, os)
    decreases os, 0
  {
    hide Canon;
    hide Everywhere;
    if os != [] {
      CanonIdempotent(os[0]);
      CanonIdempotentAll(os[1..]);
      EverywhereInCons(NotEmptied, os);
      assert CanonAll(os)[1..] == CanonAll(os[1..]);
    }
  }

  lemma StrTagGrows(m: UInt32, n: UInt32)
    requires m <= n
    ensures |WriteTag(TStr(m))| <= |WriteTag(TStr(n))|
  {
  }

  /** Encoding the canonical form again never takes more bytes, and takes as many only when steady. */
  lemma {:induction false} CanonShrinks(o: Object)
    ensures |Lenient(Canon(o))| <= |Lenient(o)|
    ensures Everywhere(Steady, o) ==> Lenient(Canon(o)) == Lenient(o)
    ensures |Lenient(Canon(o))| == |Lenient(o)| ==> Everywhere(Steady, o)
    decreases o, 1
  {
    hide WriteTag;
    hide Cut;
    match o
    case Str(s) => CanonShrinksStr(s);
    case Bin(d) => CanonShrinksBin(d);
    case Int(i) => SignlessInt(i);
    case Arr(items) =>
      CanonShrinksAll(items);
      assert EverywhereIn(Steady, items) <==> Everywhere(Steady, o);
    case _ =>
  }

  lemma SignlessInt(i: Int64)
    ensures i >= 0 ==> WriteTag(TInt(i)) == WriteTag(TUInt(i))
  {
  }

  lemma CanonShrinksStr(s: Bytes)
    ensures |Lenient(Canon(Str(s)))| <= |Lenient(Str(s))|
    ensures NulFree(Cut(s)) ==> Lenient(Canon(Str(s))) == Lenient(Str(s))
    ensures |Lenient(Canon(Str(s)))| == |Lenient(Str(s))| ==> NulFree(Cut(s))
  {
    hide WriteTag;
    var c := CString(Cut(s));
    assert Cut(c) == c;
    hide Cut;
    StrTagGrows(|c|, |Cut(s)|);
  }

  lemma CanonShrinksBin(d: Bytes)
    ensures |Lenient(Canon(Bin(d)))| <= |Lenient(Bin(d))|
    ensures Cut(d) != [] ==> Lenient(Canon(Bin(d))) == Lenient(Bin(d))
    ensures |Lenient(Canon(Bin(d)))| == |Lenient(Bin(d))| ==> Cut(d) != []
  {
    CutTwice(d);
    hide Cut;
    if Cut(d) == [] {
      assert |WriteTag(TNil)| == 1 && |WriteTag(TBin(0))| == 2;
    }
  }

  lemma {:induction false} CanonShrinksAll(os: seq<Object>)
    ensures |LenientAll(CanonAll(os))| <= |LenientAll(os)|
    ensures EverywhereIn(Steady, os) ==> LenientAll(CanonAll(os)) == LenientAll(os)
    ensures |LenientAll(CanonAll(os))| == |LenientAll(os)| ==> EverywhereIn(Steady, os)
    decreases os, 0
  {
    if os != [] {
      hide Lenient;
      hide Canon;
      hide Everywhere;
      EverywhereInCons(Steady, os);
      CanonShrinks(os[0]);
      CanonShrinksAll(os[1..]);
      assert CanonAll(os)[1..] == CanonAll(os[1..]);
    }
  }

  /** Re-encoding the canonical form gives the same bytes exactly on steady trees. */
  lemma ReencodeSame(o: Object)
    ensures Lenient(Canon(o)) == Lenient(o) <==> Everywhere(Steady, o)
  {
    CanonShrinks(o);
  }

  /** Encoding what was read never takes more bytes than reading it did. */
  lemma {:induction false} ReencodeNoLonger(r: Reader)
    requires r.Valid() && !ReadValue(r).1.error
    ensures |Lenient(AsC(ReadValue(r).0))| <= |r.rest| - |ReadValue(r).1.rest|
    decreases |r.rest|, 0
  {
    hide ParseTag;
    hide WriteTag;
    hide Cut;
    hide CString;
    hide ReadValues;
    var (tag, r1) := ReadTag(r);
    WriteTagShortest(r.rest);
    ShortTags();
    assert |WriteTag(tag)| <= |r.rest| - |r1.rest|;
    match tag
    case TStr(n) => ReencodeStr(r1, n);
    case TBin(n) => CutFits(ReadBytes(r1, n).0);
    case TInt(i) => SignlessInt(i);
    case TArray(n) =>
      ReencodeAllNoLonger(n, r1, []);
      ReadValuesCount(n, r1, []);
      assert LenientAll(AsCAll([])) == [];
    case _ =>
  }

  lemma ShortTags()
    ensures |WriteTag(TNil)| == 1
  {
  }

  lemma CutFits(s: Bytes)
    requires |s| < UINT32_LIMIT
    ensures Cut(s) == s
  {
  }

  lemma ReencodeStr(r: Reader, n: UInt32)
    requires r.Valid() && !ReadBytes(r, n).1.error
    ensures |Lenient(AsC(VStr(ReadBytes(r, n).0)))| <= |WriteTag(TStr(n))| + |r.rest| - |ReadBytes(r, n).1.rest|
  {
    var c := CString(ReadBytes(r, n).0);
    assert Cut(c) == c;
    StrTagGrows(|c|, n);
  }

  lemma {:induction false} ReencodeAllNoLonger(n: nat, r: Reader, acc: seq<Value>)
    requires r.Valid() && !ReadValues(n, r, acc).1.error
    ensures |LenientAll(AsCAll(ReadValues(n, r, acc).0))| - |LenientAll(AsCAll(acc))|
            <= |r.rest| - |ReadValues(n, r, acc).1.rest|
    decreases |r.rest|, n + 1
  {
    hide ReadValue;
    hide Lenient;
    hide AsC;
    if n > 0 {
      var (v, r1) := ReadValue(r);
      assert !r1.error;
      AsCAllAppend(acc, v);
      LenientAllAppend(AsCAll(acc), AsC(v));
      ReencodeNoLonger(r);
      ReencodeAllNoLonger(n - 1, r1, acc + [v]);
    }
  }

  lemma EnvelopeLength(kind: UInt32, msgid: UInt32, b: Bytes)
    requires !ReadHeader(b).1.error && ReadHeader(b).0 == msgid && kind == RPC_RESPONSE
    ensures |Envelope(kind, msgid, [])| <= |b| - |ReadHeader(b).1.rest|
  {
    hide ParseTag;
    hide WriteTag;
    var r0 := Reader(b, false);
    var r1 := ReadTag(r0).1;
    var r2 := ReadTag(r1).1;
    WriteTagShortest(r0.rest);
    WriteTagShortest(r1.rest);
    WriteTagShortest(r2.rest);
    SignlessTag(RPC_RESPONSE);
    SignlessTag(msgid);
  }

  lemma SignlessTag(u: UInt32)
    ensures WriteTag(TInt(u)) == WriteTag(TUInt(u))
  {
  }

  /** Encoding a decoded response never takes more bytes than decoding it consumed. */
  lemma RemarshalNoLonger(b: Bytes)
    requires Unmarshal(b).Some?
    ensures |Marshal(Unmarshal(b).value)| <= |b| - |Decode(b).1.rest|
  {
    hide ParseTag;
    hide WriteTag;
    hide ReadObject;
    hide ReadValue;
    hide ReadHeader;
    hide Lenient;
    hide AsC;
    var (msgid, r) := ReadHeader(b);
    var r1 := ReadValue(r).1;
    ReadersAgree(r);
    ReadersAgree(r1);
    EnvelopeLength(RPC_RESPONSE, msgid, b);
    ReencodeNoLonger(r);
    ReencodeNoLonger(r1);
    DropNilEncodesSame(AsC(ReadValue(r).0));
    DropNilEncodesSame(AsC(ReadValue(r1).0));
  }

  /**
   Decoding a response and encoding it again gives the same bytes exactly when both fields
   are steady and every count fits its field.
   */
  lemma ResponseReencode(s: Response)
    requires s.kind == RPC_RESPONSE
    ensures Unmarshal(Marshal(s)).Some?
    ensures Marshal(Unmarshal(Marshal(s)).value) == Marshal(s)
            <==> Everywhere(Steady, s.error) && Everywhere(Steady, s.result) && CountableFields(s)
  {
    hide WriteTag;
    hide Canon;
    hide Everywhere;
    hide Decode;
    hide CountableFields;
    assert Marshal(s) + [] == Marshal(s);
    ResponseRoundTrip(s, []);
    if CountableFields(s) {
      hide Lenient;
      CanonShrinks(s.error);
      CanonShrinks(s.result);
      DropNilEncodesSame(Canon(s.error));
      DropNilEncodesSame(Canon(s.result));
    } else {
      RemarshalNoLonger(Marshal(s));
    }
  }

  lemma DropNilEncodesSame(o: Object)
    ensures Lenient(DropNil(o)) == Lenient(o)
  {
  }
}
