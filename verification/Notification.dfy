/**
 source/api/proto/Notification.c: the strict writer and reader of notifications,
 [2, method, [params...]], over trees of unbounded depth.
 */
module Notifications {
  import opened Wire
  import opened Objects
  import opened Mpack

  const RPC_NOTIFICATION: UInt64 := 2
  const MAX_METHOD_SIZE: nat := 4096
  const MAX_PARAMS: nat := 4096

  /** A notification; the method pointer is null until it is set. */
  datatype Notification = Notification(name: Option<Bytes>, params: seq<Object>)

  // ---------------------------------------------------------------- writer

  /** A node that the strict writer can put on the wire. */
  predicate Representable(o: Object)
  {
    match o
    case Null => false
    case Und => false
    case Map => false
    case StrNull => false
    case BinNull => false
    case ArrNull => false
    case Str(s) => |s| < UINT32_LIMIT
    case Bin(d) => |d| < UINT32_LIMIT
    case BinNoData(n) => n == 0
    case Arr(items) => |items| < UINT32_LIMIT
    case _ => true
  }

  /** The bytes that NotificationWriteObject emits, or None when it gives up. */
  function Strict(o: Object): (r: Option<Bytes>)
    decreases o, 1
  {
    match o
    case Nil => Some(WriteTag(TNil))
    case Bool(b) => Some(WriteTag(TBool(b)))
    case Int(i) => Some(WriteTag(TInt(i)))
    case UInt(u) => Some(WriteTag(TUInt(u)))
    case Float(f) => Some(WriteTag(TFloat(f)))
    case Double(d) => Some(WriteTag(TDouble(d)))
    case Str(s) => if |s| >= UINT32_LIMIT then None else Some(WriteTag(TStr(|s|)) + s)
    case Bin(d) => if |d| >= UINT32_LIMIT then None else Some(WriteTag(TBin(|d|)) + d)
    case BinNoData(n) => if n > 0 then None else Some(WriteTag(TBin(0)))
    case Arr(items) =>
      if |items| >= UINT32_LIMIT then None
      else
        var body := StrictAll(items);
        if body.None? then None else Some(WriteTag(TArray(|items|)) + body.value)
    case _ => None
  }

  function StrictAll(os: seq<Object>): (r: Option<Bytes>)
    decreases os, 0
  {
    if os == [] then Some([])
    else
      var head, rest := Strict(os[0]), StrictAll(os[1..]);
      if head.None? || rest.None? then None else Some(head.value + rest.value)
  }

  lemma {:induction false} StrictAllAppend(os: seq<Object>, o: Object)
    ensures StrictAll(os + [o]).Some? <==> StrictAll(os).Some? && Strict(o).Some?
    ensures StrictAll(os + [o]).Some? ==> StrictAll(os + [o]).value == StrictAll(os).value + Strict(o).value
  {
    hide Strict;
    if os == [] {
      assert os + [o] == [o];
    } else {
      StrictAllAppend(os[1..], o);
      assert (os + [o])[1..] == os[1..] + [o];
    }
  }

  lemma {:induction false} StrictPrefixFails(os: seq<Object>, k: nat)
    requires k <= |os| && StrictAll(os[..k]).None?
    ensures StrictAll(os).None?
  {
    if k == 0 || Strict(os[0]).None? {
    } else {
      assert os[..k][1..] == os[1..][..k - 1];
      StrictPrefixFails(os[1..], k - 1);
    }
  }

  /** NotificationWriteObject; what a refused object has already written is of no account. */
  method NotificationWriteObject(writer: MpackWriter, o: Object) returns (ok: bool)
    requires !writer.error
    modifies writer
    ensures !writer.error
    ensures ok <==> Strict(o).Some?
    ensures ok ==> writer.buffer == old(writer.buffer) + Strict(o).value
    decreases o, 1
  {
    hide WriteTag;
    match o {
      case Nil => writer.Tag(TNil);
      case Bool(b) => writer.Tag(TBool(b));
      case Int(i) => writer.Tag(TInt(i));
      case UInt(u) => writer.Tag(TUInt(u));
      case Float(f) => writer.Tag(TFloat(f));
      case Double(d) => writer.Tag(TDouble(d));
      case Str(s) =>
        if |s| >= UINT32_LIMIT { return false; }
        writer.Tag(TStr(|s|));
        writer.Raw(s);
      case Bin(d) =>
        if |d| >= UINT32_LIMIT { return false; }
        writer.Tag(TBin(|d|));
        writer.Raw(d);
      case BinNoData(n) =>
        if n > 0 { return false; }
        writer.Tag(TBin(0));
      case Arr(items) =>
        if |items| >= UINT32_LIMIT { return false; }
        writer.Tag(TArray(|items|));
        ok := WriteItems(writer, items);
        return;
      case _ => return false;
    }
    ok := true;
  }

  /** The element loop of an array, which is also the loop over the parameters. */
  method WriteItems(writer: MpackWriter, items: seq<Object>) returns (ok: bool)
    requires !writer.error
    modifies writer
    ensures !writer.error
    ensures ok <==> StrictAll(items).Some?
    ensures ok ==> writer.buffer == old(writer.buffer) + StrictAll(items).value
    decreases items, 0
  {
    hide Strict;
    for k := 0 to |items|
      invariant !writer.error && StrictAll(items[..k]).Some?
      invariant writer.buffer == old(writer.buffer) + StrictAll(items[..k]).value
    {
      var written := NotificationWriteObject(writer, items[k]);
      assert items[..k + 1] == items[..k] + [items[k]];
      StrictAllAppend(items[..k], items[k]);
      if !written {
        StrictPrefixFails(items, k + 1);
        return false;
      }
    }
    assert items[..|items|] == items;
    ok := true;
  }

  /** Writing succeeds exactly when no node at any depth is undefined, a map, null or oversized. */
  lemma {:induction false} StrictIff(o: Object)
    ensures Strict(o).Some? <==> Everywhere(Representable, o)
    decreases o, 1
  {
    if o.Arr? {
      StrictAllIff(o.items);
    }
  }

  lemma {:induction false} StrictAllIff(os: seq<Object>)
    ensures StrictAll(os).Some? <==> EverywhereIn(Representable, os)
    decreases os, 0
  {
    if os != [] {
      StrictIff(os[0]);
      StrictAllIff(os[1..]);
      assert os == [os[0]] + os[1..];
    }
  }

  function Marshal(n: Notification): (r: Option<Bytes>)
  {
    if n.name.None? then None
    else
      var name := CString(n.name.value);
      if |name| >= UINT32_LIMIT || |n.params| >= UINT32_LIMIT || StrictAll(n.params).None? then None
      else Some(WriteTag(TArray(3)) + WriteTag(TUInt(RPC_NOTIFICATION))
                + WriteTag(TStr(|name|)) + name
                + WriteTag(TArray(|n.params|)) + StrictAll(n.params).value)
  }

  method NotificationMarshal(n: Notification) returns (r: Option<Bytes>)
    ensures r == Marshal(n)
  {
    hide WriteTag;
    hide Strict;
    if n.name.None? { return None; }
    var name := CString(n.name.value);
    if |name| >= UINT32_LIMIT || |n.params| >= UINT32_LIMIT { return None; }
    var writer := new MpackWriter();
    writer.Tag(TArray(3));
    writer.Tag(TUInt(RPC_NOTIFICATION));
    writer.Tag(TStr(|name|));
    writer.Raw(name);
    writer.Tag(TArray(|n.params|));
    var ok := WriteItems(writer, n.params);
    if !ok {
      writer.Flag();
    }
    if writer.error { return None; }
    assert [] + WriteTag(TArray(3)) == WriteTag(TArray(3));
    r := Some(writer.buffer);
  }

  // ---------------------------------------------------------------- reader

  /** NotificationReadObject; Null stands for the null result. */
  function ReadObject(r: Reader): (res: (Object, Reader))
    requires r.Valid()
    ensures res.1.Valid() && |res.1.rest| <= |r.rest|
    ensures r.error ==> res == (Nil, FAILED)
    ensures !res.1.error ==> |res.1.rest| < |r.rest|
    ensures res.0.Null? ==> res.1.error
    decreases |r.rest|, 0
  {
    var (tag, r0) := PeekTag(r);
    var r1 := ReadTag(r0).1;
    match tag
    case TNil => (Nil, r1)
    case TBool(b) => (Bool(b), r1)
    case TInt(i) => (Int(i), r1)
    case TUInt(u) => (UInt(u), r1)
    case TFloat(f) => (Float(f), r1)
    case TDouble(d) => (Double(d), r1)
    case TStr(n) =>
      var (bytes, r2) := ReadBytes(r1, n);
      if r2.error then (Null, r2)
      else if !NulFree(bytes) then (Null, FAILED)
      else (Str(bytes), r2)
    case TBin(n) =>
      var (bytes, r2) := ReadBytes(r1, n);
      if r2.error then (Null, r2)
      else (if n == 0 then BinNoData(0) else Bin(bytes), r2)
    case TArray(n) =>
      if n > MAX_PARAMS then (Null, FAILED)
      else
        var (items, r2) := ReadItems(true, n, r1, []);
        if items.None? || r2.error then (Null, FAILED) else (Arr(items.value), r2)
    case TMap(_) => (Null, FAILED)
  }

  /**
   The element loop.  Inside a nested array (`guarded`) each turn first looks at the error
   flag; the loop over the parameters does not, and goes on building values after a failure.
   */
  function ReadItems(guarded: bool, n: nat, r: Reader, acc: seq<Object>): (res: (Option<seq<Object>>, Reader))
    requires r.Valid()
    ensures res.1.Valid() && |res.1.rest| <= |r.rest|
    ensures r.error ==> res.1.error
    ensures res.0.None? ==> res.1.error
    decreases |r.rest|, n + 1
  {
    if n == 0 then (Some(acc), r)
    else if guarded && r.error then (None, r)
    else
      var (o, r1) := ReadObject(r);
      if o.Null? then (None, r1)
      else if CopyOf(o).Null? then (None, FAILED)
      else ReadItems(guarded, n - 1, r1, acc + [CopyOf(o)])
  }

  method NotificationReadObject(reader: MpackReader) returns (o: Object)
    requires reader.Valid()
    modifies reader
    ensures reader.Valid() && (o, reader.View()) == ReadObject(old(reader.View()))
    decreases |reader.View().rest|, 0
  {
    hide ParseTag;
    hide ReadItems;
    var tag := reader.PeekTag();
    if tag.TMap? {
      reader.Flag();
      return Null;
    }
    var _ := reader.ReadTag();
    match tag {
      case TNil => return Nil;
      case TBool(b) => return Bool(b);
      case TInt(i) => return Int(i);
      case TUInt(u) => return UInt(u);
      case TFloat(f) => return Float(f);
      case TDouble(d) => return Double(d);
      case TStr(n) =>
        var bytes := reader.ReadBytes(n);
        if reader.error { return Null; }
        if !NulFree(bytes) {
          reader.Flag();
          return Null;
        }
        return Str(bytes);
      case TBin(n) =>
        var bytes: Bytes := [];
        if n > 0 {
          bytes := reader.ReadBytes(n);
        }
        if reader.error { return Null; }
        return if n == 0 then BinNoData(0) else Bin(bytes);
      case TArray(n) =>
        if n > MAX_PARAMS {
          reader.Flag();
          return Null;
        }
        var items := ReadElements(reader, n);
        if items.None? || reader.error {
          reader.Flag();
          return Null;
        }
        return Arr(items.value);
    }
  }

  /** The element loop of a nested array. */
  method ReadElements(reader: MpackReader, n: nat) returns (items: Option<seq<Object>>)
    requires reader.Valid()
    modifies reader
    ensures reader.Valid() && (items, reader.View()) == ReadItems(true, n, old(reader.View()), [])
    decreases |reader.View().rest|, n + 1
  {
    hide ReadObject;
    hide CopyOf;
    var acc: seq<Object> := [];
    for k := 0 to n
      invariant reader.Valid() && |reader.View().rest| <= |old(reader.View()).rest|
      invariant ReadItems(true, n, old(reader.View()), []) == ReadItems(true, n - k, reader.View(), acc)
    {
      if reader.error { return None; }
      var value := NotificationReadObject(reader);
      if value.Null? { return None; }
      if CopyOf(value).Null? {
        reader.Flag();
        return None;
      }
      acc := acc + [CopyOf(value)];
    }
    items := Some(acc);
  }

  /** The envelope of NotificationUnmarshal up to the parameter count: (method, count). */
  function ReadHeader(b: Bytes): (res: (Bytes, nat, Reader))
    ensures res.2.Valid()
  {
    var (count, r1) := ExpectArray(Reader(b, false), 3);
    if r1.error || count != 3 then ([], 0, FAILED)
    else
      var (kind, r2) := ExpectUInt(r1, UINT64_LIMIT);
      if r2.error || kind != RPC_NOTIFICATION then ([], 0, FAILED)
      else
        var (name, r3) := ExpectCStr(r2, MAX_METHOD_SIZE);
        var (n, r4) := ExpectArray(r3, MAX_PARAMS);
        (name, n, r4)
  }

  /** NotificationUnmarshal and the reader it leaves behind. */
  function Decode(b: Bytes): (res: (Option<Notification>, Reader))
    ensures res.1.Valid()
    ensures res.0.Some? <==> !res.1.error
  {
    if b == [] then (None, FAILED)
    else
      var (name, n, r) := ReadHeader(b);
      if r.error then (None, FAILED)
      else
        var (items, r1) := ReadItems(false, n, r, []);
        if items.None? || r1.error then (None, FAILED)
        else (Some(Notification(Some(name), items.value)), r1)
  }

  function Unmarshal(b: Bytes): Option<Notification> { Decode(b).0 }

  method ReadEnvelope(reader: MpackReader) returns (ok: bool, name: Bytes, count: nat)
    requires reader.Valid() && !reader.error
    modifies reader
    ensures reader.Valid()
    ensures ok <==> !ReadHeader(old(reader.View().rest)).2.error
    ensures ok ==> (name, count, reader.View()) == ReadHeader(old(reader.View().rest))
  {
    hide ParseTag;
    name, count, ok := [], 0, false;
    var tag := reader.ReadTag();
    if !tag.TArray? || tag.count != 3 { return; }
    tag := reader.ReadTag();
    if tag != TUInt(RPC_NOTIFICATION) && tag != TInt(RPC_NOTIFICATION) { return; }
    tag := reader.ReadTag();
    if !tag.TStr? || tag.strLen >= MAX_METHOD_SIZE { return; }
    name := reader.ReadBytes(tag.strLen);
    if reader.error || !NulFree(name) { return; }
    tag := reader.ReadTag();
    if !tag.TArray? || tag.count > MAX_PARAMS { return; }
    ok, count := true, tag.count;
  }

  /** The loop over the parameters, which never looks at the error flag. */
  method ReadParams(reader: MpackReader, count: nat) returns (params: Option<seq<Object>>)
    requires reader.Valid()
    modifies reader
    ensures reader.Valid()
    ensures var (items, r) := ReadItems(false, count, old(reader.View()), []);
            params.Some? && !reader.error <==> items.Some? && !r.error
    ensures params.Some? ==> (params, reader.View()) == ReadItems(false, count, old(reader.View()), [])
  {
    hide ParseTag;
    var items: seq<Object> := [];
    for k := 0 to count
      invariant reader.Valid()
      invariant ReadItems(false, count, old(reader.View()), []) == ReadItems(false, count - k, reader.View(), items)
    {
      var o := NotificationReadObject(reader);
      if o.Null? || CopyOf(o).Null? { return None; }
      items := items + [CopyOf(o)];
    }
    params := Some(items);
  }

  method NotificationUnmarshal(b: Bytes) returns (n: Option<Notification>)
    ensures n == Unmarshal(b)
  {
    if b == [] { return None; }
    var reader := new MpackReader(b);
    var ok, name, count := ReadEnvelope(reader);
    if !ok { return None; }
    var params := ReadParams(reader, count);
    if params.None? || reader.error { return None; }
    n := Some(Notification(Some(name), params.value));
  }

  // ---------------------------------------------------------------- round trip

  /** A node that the strict reader takes back: NUL-free strings, arrays of at most 4096. */
  predicate Readable(o: Object)
  {
    (o.Str? ==> NulFree(o.s)) && (o.Arr? ==> |o.items| <= MAX_PARAMS)
  }

  /** The tree that comes back: integers in wire form, empty binaries without data. */
  function Norm(o: Object): (n: Object)
    decreases o, 1
  {
    match o
    case Int(i) => WireInt(i)
    case Bin(d) => if d == [] then BinNoData(0) else o
    case Arr(items) => Arr(NormAll(items))
    case _ => o
  }

  function NormAll(os: seq<Object>): (ns: seq<Object>)
    ensures |ns| == |os|
    decreases os, 0
  {
    if os == [] then [] else [Norm(os[0])] + NormAll(os[1..])
  }

  lemma {:induction false} NormDecoded(o: Object)
    requires Strict(o).Some? && Everywhere(Readable, o)
    ensures Decoded(Norm(o))
    decreases o, 1
  {
    if o.Arr? {
      NormAllDecoded(o.items);
    }
  }

  lemma {:induction false} NormAllDecoded(os: seq<Object>)
    requires StrictAll(os).Some? && EverywhereIn(Readable, os)
    ensures DecodedAll(NormAll(os))
    decreases os, 0
  {
    if os != [] {
      NormDecoded(os[0]);
      NormAllDecoded(os[1..]);
    }
  }

  /** Reading what was written gives the normal form and stops after exactly its bytes, or fails. */
  lemma {:induction false} ReadStrict(o: Object, tail: Bytes)
    requires Strict(o).Some?
    ensures var (o', r) := ReadObject(Reader(Strict(o).value + tail, false));
            if Everywhere(Readable, o) then o' == Norm(o) && r == Reader(tail, false) else r.error
    decreases o, 1
  {
    hide ParseTag;
    hide WriteTag;
    hide ReadObject;
    match o
    case Str(s) => ReadStrictStr(s, tail);
    case Bin(d) => ReadStrictBin(d, tail);
    case Arr(items) =>
      var body := StrictAll(items).value;
      assert Strict(o).value + tail == WriteTag(TArray(|items|)) + (body + tail);
      ReadStrictAll(true, items, tail, []);
      ReadArrayWritten(|items|, body + tail);
      assert [] + NormAll(items) == NormAll(items);
      assert Everywhere(Readable, o) <==> |items| <= MAX_PARAMS && EverywhereIn(Readable, items);
    case _ => ReadStrictScalar(o, tail);
  }

  /** An array tag, and then the element loop. */
  lemma ReadArrayWritten(n: UInt32, body: Bytes)
    ensures ReadObject(Reader(WriteTag(TArray(n)) + body, false)) ==
            if n > MAX_PARAMS then (Null, FAILED)
            else
              var (items, r) := ReadItems(true, n, Reader(body, false), []);
              if items.None? || r.error then (Null, FAILED) else (Arr(items.value), r)
  {
    hide ParseTag;
    hide WriteTag;
    hide ReadItems;
    ReadTagWritten(TArray(n), body);
  }

  lemma ReadStrictScalar(o: Object, tail: Bytes)
    requires Strict(o).Some? && !o.Str? && !o.Bin? && !o.Arr?
    ensures ReadObject(Reader(Strict(o).value + tail, false)) == (Norm(o), Reader(tail, false))
  {
    hide ParseTag;
    hide WriteTag;
    match o
    case Nil => ReadTagWritten(TNil, tail);
    case Bool(b) => ReadTagWritten(TBool(b), tail);
    case Int(i) => ReadTagWritten(TInt(i), tail);
    case UInt(u) => ReadTagWritten(TUInt(u), tail);
    case Float(f) => ReadTagWritten(TFloat(f), tail);
    case Double(d) => ReadTagWritten(TDouble(d), tail);
    case BinNoData(_) =>
      ReadTagWritten(TBin(0), tail);
      ReadBytesWritten([], tail);
      assert [] + tail == tail;
  }

  lemma ReadStrictStr(s: Bytes, tail: Bytes)
    requires |s| < UINT32_LIMIT
    ensures ReadObject(Reader(WriteTag(TStr(|s|)) + s + tail, false))
         == if NulFree(s) then (Str(s), Reader(tail, false)) else (Null, FAILED)
  {
    hide ParseTag;
    hide WriteTag;
    assert WriteTag(TStr(|s|)) + s + tail == WriteTag(TStr(|s|)) + (s + tail);
    ReadTagWritten(TStr(|s|), s + tail);
    ReadBytesWritten(s, tail);
  }

  lemma ReadStrictBin(d: Bytes, tail: Bytes)
    requires |d| < UINT32_LIMIT
    ensures ReadObject(Reader(WriteTag(TBin(|d|)) + d + tail, false)) == (Norm(Bin(d)), Reader(tail, false))
  {
    hide ParseTag;
    hide WriteTag;
    assert WriteTag(TBin(|d|)) + d + tail == WriteTag(TBin(|d|)) + (d + tail);
    ReadTagWritten(TBin(|d|), d + tail);
    ReadBytesWritten(d, tail);
  }

  lemma {:induction false} ReadStrictAll(guarded: bool, os: seq<Object>, tail: Bytes, acc: seq<Object>)
    requires StrictAll(os).Some?
    ensures var (items, r) := ReadItems(guarded, |os|, Reader(StrictAll(os).value + tail, false), acc);
            if EverywhereIn(Readable, os) then items == Some(acc + NormAll(os)) && r == Reader(tail, false)
            else r.error
    decreases os, 0
  {
    hide ReadObject;
    hide CopyOf;
    hide Decoded;
    hide Strict;
    hide Norm;
    hide Everywhere;
    hide EverywhereIn;
    if os == [] {
      EverywhereInNil(Readable);
      assert acc + NormAll(os) == acc;
      assert [] + tail == tail;
    } else {
      var rest := StrictAll(os[1..]).value + tail;
      assert StrictAll(os).value + tail == Strict(os[0]).value + rest;
      ReadStrict(os[0], rest);
      EverywhereInCons(Readable, os);
      if Everywhere(Readable, os[0]) {
        NormDecoded(os[0]);
        CopyOfDecoded(Norm(os[0]));
        ReadStrictAll(guarded, os[1..], tail, acc + [Norm(os[0])]);
        assert acc + [Norm(os[0])] + NormAll(os[1..]) == acc + NormAll(os);
      }
    }
  }

  /** What a caller can check before sending, so that the other side will take the message. */
  predicate Deliverable(n: Notification)
    requires n.name.Some?
  {
    |CString(n.name.value)| < MAX_METHOD_SIZE && |n.params| <= MAX_PARAMS && EverywhereIn(Readable, n.params)
  }

  lemma ReadHeaderWritten(name: Bytes, count: UInt32, body: Bytes)
    requires NulFree(name) && |name| < UINT32_LIMIT
    ensures var b := WriteTag(TArray(3)) + WriteTag(TUInt(RPC_NOTIFICATION)) + WriteTag(TStr(|name|)) + name
                     + WriteTag(TArray(count)) + body;
            if |name| < MAX_METHOD_SIZE && count <= MAX_PARAMS
            then ReadHeader(b) == (name, count, Reader(body, false))
            else ReadHeader(b).2.error
  {
    hide ParseTag;
    hide WriteTag;
    var s4 := WriteTag(TArray(count)) + body;
    var s3 := WriteTag(TStr(|name|)) + (name + s4);
    var s2 := WriteTag(TUInt(RPC_NOTIFICATION)) + s3;
    var b := WriteTag(TArray(3)) + WriteTag(TUInt(RPC_NOTIFICATION)) + WriteTag(TStr(|name|)) + name
             + WriteTag(TArray(count)) + body;
    assert b == WriteTag(TArray(3)) + s2;
    ReadTagWritten(TArray(3), s2);
    ReadTagWritten(TUInt(RPC_NOTIFICATION), s3);
    ReadTagWritten(TStr(|name|), name + s4);
    ReadBytesWritten(name, s4);
    ReadTagWritten(TArray(count), body);
  }

  /**
   Round trip.  Marshalling succeeds exactly when the method is set, the lengths fit 32 bits
   and no node is unrepresentable; the bytes are then accepted, whatever follows them, exactly when the
   method and the arrays are within the limits and no string holds a NUL; and then the same
   tree comes back in normal form, with exactly the encoded bytes consumed.
   */
  lemma NotificationRoundTrip(n: Notification, tail: Bytes)
    ensures Marshal(n).Some? <==>
              && n.name.Some? && |CString(n.name.value)| < UINT32_LIMIT
              && |n.params| < UINT32_LIMIT && EverywhereIn(Representable, n.params)
    ensures Marshal(n).Some? ==>
              var (got, r) := Decode(Marshal(n).value + tail);
              && (got.Some? <==> Deliverable(n))
              && (got.Some? ==> got.value == Notification(Some(CString(n.name.value)), NormAll(n.params))
                                && r == Reader(tail, false))
  {
    hide ParseTag;
    hide WriteTag;
    hide StrictAll;
    hide NormAll;
    hide ReadItems;
    hide ReadHeader;
    hide EverywhereIn;
    hide CString;
    StrictAllIff(n.params);
    if Marshal(n).Some? {
      var name, body := CString(n.name.value), StrictAll(n.params).value;
      ReadHeaderWritten(name, |n.params|, body + tail);
      var b := Marshal(n).value + tail;
      assert b == WriteTag(TArray(3)) + WriteTag(TUInt(RPC_NOTIFICATION)) + WriteTag(TStr(|name|)) + name
                  + WriteTag(TArray(|n.params|)) + (body + tail);
      ReadStrictAll(false, n.params, tail, []);
      assert [] + NormAll(n.params) == NormAll(n.params);
    }
  }

  // ---------------------------------------------------------------- prefixes

  /** A read that ends without an error goes the same way when more bytes follow. */
  lemma {:induction false} ReadObjectExtends(r: Reader, more: Bytes)
    requires r.Valid() && !ReadObject(r).1.error
    ensures !r.error
    ensures ReadObject(r.Extend(more)) == (ReadObject(r).0, ReadObject(r).1.Extend(more))
    decreases |r.rest|, 0
  {
    hide ParseTag;
    var (tag, r1) := ReadTag(r);
    assert !r1.error;
    ReadTagExtends(r, more);
    match tag
    case TStr(n) => ReadBytesExtends(r1, n, more);
    case TBin(n) => ReadBytesExtends(r1, n, more);
    case TArray(n) => ReadItemsExtends(true, n, r1, [], more);
    case _ =>
  }

  lemma {:induction false} ReadItemsExtends(guarded: bool, n: nat, r: Reader, acc: seq<Object>, more: Bytes)
    requires r.Valid() && !ReadItems(guarded, n, r, acc).1.error
    ensures !r.error
    ensures var (items, r') := ReadItems(guarded, n, r, acc);
            ReadItems(guarded, n, r.Extend(more), acc) == (items, r'.Extend(more))
    decreases |r.rest|, n + 1
  {
    hide ReadObject;
    hide CopyOf;
    if n > 0 {
      var (o, r1) := ReadObject(r);
      assert !r1.error;
      ReadObjectExtends(r, more);
      ReadItemsExtends(guarded, n - 1, r1, acc + [CopyOf(o)], more);
    }
  }

  lemma ReadHeaderExtends(b: Bytes, more: Bytes)
    requires !ReadHeader(b).2.error
    ensures ReadHeader(b + more) == (ReadHeader(b).0, ReadHeader(b).1, ReadHeader(b).2.Extend(more))
  {
    hide ParseTag;
    var r0 := Reader(b, false);
    assert r0.Extend(more) == Reader(b + more, false);
    var r1 := ReadTag(r0).1;
    var r2 := ReadTag(r1).1;
    var (tag, r3) := ReadTag(r2);
    assert !r1.error && !r2.error && !r3.error;
    ReadTagExtends(r0, more);
    ReadTagExtends(r1, more);
    ReadTagExtends(r2, more);
    ReadBytesExtends(r3, tag.strLen, more);
    ReadTagExtends(ReadBytes(r3, tag.strLen).1, more);
  }

  lemma DecodeExtends(b: Bytes, more: Bytes)
    requires Unmarshal(b).Some?
    ensures Decode(b + more) == (Decode(b).0, Decode(b).1.Extend(more))
  {
    hide ParseTag;
    var (name, n, r) := ReadHeader(b);
    ReadHeaderExtends(b, more);
    ReadItemsExtends(false, n, r, [], more);
  }

  /** No strict prefix of an encoded notification is ever accepted. */
  lemma NotificationPrefixRejected(n: Notification, p: Bytes)
    requires Marshal(n).Some? && p < Marshal(n).value
    ensures Unmarshal(p).None?
  {
    hide Marshal;
    hide Decode;
    hide EverywhereIn;
    hide NormAll;
    hide CString;
    if Unmarshal(p).Some? {
      var more := Marshal(n).value[|p|..];
      assert p + more == Marshal(n).value;
      DecodeExtends(p, more);
      assert Marshal(n).value + [] == Marshal(n).value;
      NotificationRoundTrip(n, []);
      assert false;
    }
  }
}
