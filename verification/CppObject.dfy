/**
 clients/cpp/src/proto: the C++ client's value type, which owns its payloads and so has no
 null pointers, and its recursive MessagePack reader and writer.
 */
module CppObjects {
  import opened Wire
  import opened Objects
  import opened Mpack

  datatype Value =
    | VUnd
    | VNil
    | VBool(b: bool)
    | VInt(i: Int64)
    | VUInt(u: UInt64)
    | VFloat(f: UInt32)
    | VDouble(d: UInt64)
    | VStr(s: Bytes)
    | VBin(data: Bytes)
    | VArr(items: seq<Value>)
    | VMap(entries: seq<(Value, Value)>)

  // ---------------------------------------------------------------- reader

  /** ObjectUnmarshalMPack of the C++ client; a failed read yields nil. */
  function ReadValue(r: Reader): (res: (Value, Reader))
    requires r.Valid()
    ensures res.1.Valid() && |res.1.rest| <= |r.rest|
    ensures r.error ==> res == (VNil, FAILED)
    ensures !res.1.error ==> |res.1.rest| < |r.rest|
    decreases |r.rest|, 0
  {
    var (tag, r1) := ReadTag(r);
    if r1.error then (VNil, r1) else
    match tag
    case TNil => (VNil, r1)
    case TBool(b) => (VBool(b), r1)
    case TInt(i) => (VInt(i), r1)
    case TUInt(u) => (VUInt(u), r1)
    case TFloat(f) => (VFloat(f), r1)
    case TDouble(d) => (VDouble(d), r1)
    case TStr(n) => var (bytes, r2) := ReadBytes(r1, n); (VStr(bytes), r2)
    case TBin(n) => var (bytes, r2) := ReadBytes(r1, n); (VBin(bytes), r2)
    case TArray(n) => var (items, r2) := ReadValues(n, r1, []); (VArr(items), r2)
    case TMap(_) => (VNil, r1)
  }

  function ReadValues(n: nat, r: Reader, acc: seq<Value>): (res: (seq<Value>, Reader))
    requires r.Valid()
    ensures res.1.Valid() && |res.1.rest| <= |r.rest|
    ensures r.error ==> res.1.error
    decreases |r.rest|, n + 1
  {
    if n == 0 then (acc, r)
    else
      var (v, r1) := ReadValue(r);
      ReadValues(n - 1, r1, acc + [v])
  }

  method ObjectUnmarshalMPack(reader: MpackReader) returns (v: Value)
    requires reader.Valid()
    modifies reader
    ensures reader.Valid() && (v, reader.View()) == ReadValue(old(reader.View()))
    decreases |reader.View().rest|
  {
    hide ParseTag;
    var tag := reader.ReadTag();
    if reader.error { return VNil; }
    match tag {
      case TNil => return VNil;
      case TBool(b) => return VBool(b);
      case TInt(i) => return VInt(i);
      case TUInt(u) => return VUInt(u);
      case TFloat(f) => return VFloat(f);
      case TDouble(d) => return VDouble(d);
      case TStr(n) =>
        var bytes := reader.ReadBytes(n);
        return VStr(bytes);
      case TBin(n) =>
        var bytes := reader.ReadBytes(n);
        return VBin(bytes);
      case TArray(n) =>
        ghost var r1 := reader.View();
        var items: seq<Value> := [];
        for k := 0 to n
          invariant reader.Valid() && |reader.View().rest| <= |r1.rest|
          invariant ReadValues(n, r1, []) == ReadValues(n - k, reader.View(), items)
        {
          var child := ObjectUnmarshalMPack(reader);
          items := items + [child];
        }
        return VArr(items);
      case TMap(_) => return VNil;
    }
  }

  /** A read that ends without an error goes the same way when more bytes follow. */
  lemma {:induction false} ReadValueExtends(r: Reader, more: Bytes)
    requires r.Valid() && !ReadValue(r).1.error
    ensures !r.error
    ensures ReadValue(r.Extend(more)) == (ReadValue(r).0, ReadValue(r).1.Extend(more))
    decreases |r.rest|, 0
  {
    hide ParseTag;
    var (tag, r1) := ReadTag(r);
    ReadTagExtends(r, more);
    match tag
    case TStr(n) => ReadBytesExtends(r1, n, more);
    case TBin(n) => ReadBytesExtends(r1, n, more);
    case TArray(n) => ReadValuesExtends(n, r1, [], more);
    case _ =>
  }

  lemma {:induction false} ReadValuesExtends(n: nat, r: Reader, acc: seq<Value>, more: Bytes)
    requires r.Valid() && !ReadValues(n, r, acc).1.error
    ensures !r.error
    ensures ReadValues(n, r.Extend(more), acc) == (ReadValues(n, r, acc).0, ReadValues(n, r, acc).1.Extend(more))
    decreases |r.rest|, n + 1
  {
    hide ReadValue;
    if n > 0 {
      var (v, r1) := ReadValue(r);
      assert !r1.error;
      ReadValueExtends(r, more);
      ReadValuesExtends(n - 1, r1, acc + [v], more);
    }
  }

  /** A value is read from its own bytes alone. */
  lemma {:induction false} ReadValueLocal(r: Reader, k: nat)
    requires r.Valid() && !ReadValue(r).1.error && k <= |ReadValue(r).1.rest|
    ensures ReadValue(r.Drop(k)) == (ReadValue(r).0, ReadValue(r).1.Drop(k))
    decreases |r.rest|, 0
  {
    hide ParseTag;
    var (tag, r1) := ReadTag(r);
    ReadTagLocal(r, k);
    match tag
    case TStr(n) => ReadBytesLocal(r1, n, k);
    case TBin(n) => ReadBytesLocal(r1, n, k);
    case TArray(n) => ReadValuesLocal(n, r1, [], k);
    case _ =>
  }

  lemma {:induction false} ReadValuesLocal(n: nat, r: Reader, acc: seq<Value>, k: nat)
    requires r.Valid() && !ReadValues(n, r, acc).1.error && k <= |ReadValues(n, r, acc).1.rest|
    ensures !r.error && k <= |r.rest|
    ensures ReadValues(n, r.Drop(k), acc) == (ReadValues(n, r, acc).0, ReadValues(n, r, acc).1.Drop(k))
    decreases |r.rest|, n + 1
  {
    hide ReadValue;
    if n > 0 {
      var (v, r1) := ReadValue(r);
      assert !r1.error;
      ReadValuesLocal(n - 1, r1, acc + [v], k);
      ReadValueLocal(r, k);
    }
  }

  /** A loop that ends without an error has read all it was asked for. */
  lemma {:induction false} ReadValuesCount(n: nat, r: Reader, acc: seq<Value>)
    requires r.Valid()
    ensures |ReadValues(n, r, acc).0| == |acc| + n
    decreases n
  {
    hide ReadValue;
    if n > 0 {
      var (v, r1) := ReadValue(r);
      ReadValuesCount(n - 1, r1, acc + [v]);
    }
  }

  // ---------------------------------------------------------------- writer

  /** ObjectMarshalMPack of the C++ client. */
  function WriteValue(v: Value): (s: Bytes)
    decreases v, 1
  {
    match v
    case VUnd => WriteTag(TNil)
    case VNil => WriteTag(TNil)
    case VBool(b) => WriteTag(TBool(b))
    case VInt(i) => WriteTag(TInt(i))
    case VUInt(u) => WriteTag(TUInt(u))
    case VFloat(f) => WriteTag(TFloat(f))
    case VDouble(d) => WriteTag(TDouble(d))
    case VStr(s) => WriteTag(TStr(|Cut(s)|)) + Cut(s)
    case VBin(d) => if d != [] then WriteTag(TBin(|Cut(d)|)) + Cut(d) else WriteTag(TNil)
    case VArr(items) => WriteTag(TArray(|items| % UINT32_LIMIT)) + WriteValues(items)
    case VMap(_) => WriteTag(TNil)
  }

  function WriteValues(vs: seq<Value>): (s: Bytes)
    decreases vs, 0
  {
    if vs == [] then [] else WriteValue(vs[0]) + WriteValues(vs[1..])
  }

  method ObjectMarshalMPack(writer: MpackWriter, v: Value)
    modifies writer`buffer
    ensures writer.buffer == old(writer.buffer) + WriteValue(v)
    decreases v, 1
  {
    hide WriteTag;
    match v {
      case VUnd => writer.Tag(TNil);
      case VNil => writer.Tag(TNil);
      case VBool(b) => writer.Tag(TBool(b));
      case VInt(i) => writer.Tag(TInt(i));
      case VUInt(u) => writer.Tag(TUInt(u));
      case VFloat(f) => writer.Tag(TFloat(f));
      case VDouble(d) => writer.Tag(TDouble(d));
      case VStr(s) =>
        writer.Tag(TStr(|Cut(s)|));
        writer.Raw(Cut(s));
      case VBin(d) =>
        if d != [] {
          writer.Tag(TBin(|Cut(d)|));
          writer.Raw(Cut(d));
        } else {
          writer.Tag(TNil);
        }
      case VArr(items) =>
        writer.Tag(TArray(|items| % UINT32_LIMIT));
        MarshalItems(writer, items);
      case VMap(_) => writer.Tag(TNil);
    }
  }

  method MarshalItems(writer: MpackWriter, items: seq<Value>)
    modifies writer`buffer
    ensures writer.buffer == old(writer.buffer) + WriteValues(items)
    decreases items, 0
  {
    hide WriteValue;
    for k := 0 to |items|
      invariant writer.buffer == old(writer.buffer) + WriteValues(items[..k])
    {
      ObjectMarshalMPack(writer, items[k]);
      WriteValuesAppend(items[..k], items[k]);
      assert items[..k + 1] == items[..k] + [items[k]];
    }
    assert items[..|items|] == items;
  }

  lemma {:induction false} WriteValuesAppend(vs: seq<Value>, v: Value)
    ensures WriteValues(vs + [v]) == WriteValues(vs) + WriteValue(v)
  {
    hide WriteValue;
    if vs == [] {
      assert vs + [v] == [v];
    } else {
      WriteValuesAppend(vs[1..], v);
      assert (vs + [v])[1..] == vs[1..] + [v];
    }
  }
}
