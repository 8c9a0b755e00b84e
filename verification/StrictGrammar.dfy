/**
 What the reader of Notification.c accepts: exactly the byte strings of a grammar that is
 written without it.
 */
module StrictGrammar {
  import opened Wire
  import opened Objects
  import opened Notifications
  import Grammar

  /** The bytes `b` are an encoding of `o` that a notification may hold. */
  ghost predicate Spelled(o: Object, b: Bytes)
    decreases o, 1
  {
    match o
    case Nil => Spells(b, TNil)
    case Bool(x) => Spells(b, TBool(x))
    case Int(i) => Spells(b, TInt(i))
    case UInt(u) => Spells(b, TUInt(u))
    case Float(f) => Spells(b, TFloat(f))
    case Double(d) => Spells(b, TDouble(d))
    case Str(s) => |s| < UINT32_LIMIT && NulFree(s) && exists a :: Spells(a, TStr(|s|)) && b == a + s
    case Bin(d) => 0 < |d| < UINT32_LIMIT && exists a :: Spells(a, TBin(|d|)) && b == a + d
    case BinNoData(n) => n == 0 && Spells(b, TBin(0))
    case Arr(items) =>
      |items| <= 4096 && exists a, body :: Spells(a, TArray(|items|)) && SpelledAll(items, body) && b == a + body
    case _ => false
  }

  ghost predicate SpelledAll(os: seq<Object>, b: Bytes)
    decreases os, 0
  {
    if os == [] then b == []
    else exists a, rest :: Spelled(os[0], a) && SpelledAll(os[1..], rest) && b == a + rest
  }

  lemma {:induction false} SpelledDecoded(o: Object, b: Bytes)
    requires Spelled(o, b)
    ensures Decoded(o) && CopyOf(o) == o
    decreases o, 1
  {
    hide Spells;
    if o.Arr? {
      var a, body :| Spells(a, TArray(|o.items|)) && SpelledAll(o.items, body) && b == a + body;
      SpelledAllDecoded(o.items, body);
    }
    CopyOfDecoded(o);
  }

  lemma {:induction false} SpelledAllDecoded(os: seq<Object>, b: Bytes)
    requires SpelledAll(os, b)
    ensures DecodedAll(os)
    decreases os, 0
  {
    hide Spelled;
    hide Decoded;
    if os != [] {
      var a, rest :| Spelled(os[0], a) && SpelledAll(os[1..], rest) && b == a + rest;
      SpelledDecoded(os[0], a);
      SpelledAllDecoded(os[1..], rest);
    }
  }

  // ---------------------------------------------------------------- the grammar is accepted

  /** Every encoding of a value is read as that value, from exactly its own bytes. */
  lemma {:induction false} SpelledReads(o: Object, b: Bytes, tail: Bytes)
    requires Spelled(o, b)
    ensures ReadObject(Reader(b + tail, false)) == (o, Reader(tail, false))
    decreases o, 1
  {
    hide ReadObject;
    hide Spells;
    match o
    case Str(s) =>
      var a :| Spells(a, TStr(|s|)) && b == a + s;
      StrReads(a, s, tail);
    case Bin(d) =>
      var a :| Spells(a, TBin(|d|)) && b == a + d;
      BinReads(a, d, tail);
    case BinNoData(_) =>
      assert b + [] == b;
      BinReads(b, [], tail);
    case Arr(items) =>
      var a, body :| Spells(a, TArray(|items|)) && SpelledAll(items, body) && b == a + body;
      assert b + tail == a + (body + tail);
      SpelledAllReads(true, items, body, tail, []);
      ArrayReads(|items|, a, body + tail);
      assert [] + items == items;
    case Nil => ScalarReads(TNil, b, tail);
    case Bool(x) => ScalarReads(TBool(x), b, tail);
    case Int(i) => ScalarReads(TInt(i), b, tail);
    case UInt(u) => ScalarReads(TUInt(u), b, tail);
    case Float(f) => ScalarReads(TFloat(f), b, tail);
    case Double(d) => ScalarReads(TDouble(d), b, tail);
  }

  /** What a tag without payload is read as. */
  function ObjectOf(t: Tag): (o: Object)
  {
    match t
    case TBool(b) => Bool(b)
    case TInt(i) => Int(i)
    case TUInt(u) => UInt(u)
    case TFloat(f) => Float(f)
    case TDouble(d) => Double(d)
    case _ => Nil
  }

  lemma ScalarReads(t: Tag, b: Bytes, tail: Bytes)
    requires Spells(b, t) && !t.TStr? && !t.TBin? && !t.TArray? && !t.TMap?
    ensures ReadObject(Reader(b + tail, false)) == (ObjectOf(t), Reader(tail, false))
  {
    hide Spells;
    hide ReadTag;
    ReadTagSpelled(t, b, tail);
  }

  lemma StrReads(a: Bytes, s: Bytes, tail: Bytes)
    requires |s| < UINT32_LIMIT && NulFree(s) && Spells(a, TStr(|s|))
    ensures ReadObject(Reader(a + s + tail, false)) == (Str(s), Reader(tail, false))
  {
    hide Spells;
    hide ReadTag;
    hide ReadBytes;
    assert a + s + tail == a + (s + tail);
    ReadTagSpelled(TStr(|s|), a, s + tail);
    ReadBytesWritten(s, tail);
  }

  lemma BinReads(a: Bytes, d: Bytes, tail: Bytes)
    requires |d| < UINT32_LIMIT && Spells(a, TBin(|d|))
    ensures ReadObject(Reader(a + d + tail, false)) == (if d == [] then BinNoData(0) else Bin(d), Reader(tail, false))
  {
    hide Spells;
    hide ReadTag;
    hide ReadBytes;
    assert a + d + tail == a + (d + tail);
    ReadTagSpelled(TBin(|d|), a, d + tail);
    ReadBytesWritten(d, tail);
  }

  lemma ArrayReads(n: UInt32, a: Bytes, body: Bytes)
    requires Spells(a, TArray(n)) && n <= 4096
    requires var (items, r) := ReadItems(true, n, Reader(body, false), []); items.Some? && !r.error
    ensures var (items, r) := ReadItems(true, n, Reader(body, false), []);
            ReadObject(Reader(a + body, false)) == (Arr(items.value), r)
  {
    hide Spells;
    hide ReadTag;
    hide ReadItems;
    ReadTagSpelled(TArray(n), a, body);
  }

  lemma {:induction false} SpelledAllReads(guarded: bool, os: seq<Object>, b: Bytes, tail: Bytes, acc: seq<Object>)
    requires SpelledAll(os, b)
    ensures ReadItems(guarded, |os|, Reader(b + tail, false), acc) == (Some(acc + os), Reader(tail, false))
    decreases os, 0
  {
    hide ReadObject;
    hide Spelled;
    hide CopyOf;
    if os == [] {
      assert acc + os == acc && b + tail == tail;
    } else {
      var a, rest :| Spelled(os[0], a) && SpelledAll(os[1..], rest) && b == a + rest;
      assert b + tail == a + (rest + tail);
      SpelledReads(os[0], a, rest + tail);
      SpelledDecoded(os[0], a);
      DecodedNotNull(os[0]);
      SpelledAllReads(guarded, os[1..], rest, tail, acc + [os[0]]);
      assert acc + [os[0]] + os[1..] == acc + os;
    }
  }

  lemma DecodedNotNull(o: Object)
    requires Decoded(o)
    ensures !o.Null?
  {
  }

  // ---------------------------------------------------------------- nothing else is

  /** What was read without an error is an encoding of it, and the rest is left as it was. */
  lemma {:induction false} ReadIsSpelled(r: Reader) returns (b: Bytes)
    requires r.Valid() && !ReadObject(r).1.error
    ensures r.rest == b + ReadObject(r).1.rest && Spelled(ReadObject(r).0, b)
    decreases |r.rest|, 0
  {
    hide ReadTag;
    hide PeekTag;
    hide ReadBytes;
    hide Spells;
    hide ReadItems;
    hide SpelledAll;
    var (tag, r1) := ReadTag(r);
    assert !r1.error;
    var a := Grammar.TagRead(r);
    if tag.TStr? || tag.TBin? {
      b := PayloadIsSpelled(r, a);
    } else if tag.TArray? {
      var body := ReadAllAreSpelled(true, tag.count, r1, []);
      var items := ReadItems(true, tag.count, r1, []).0.value;
      assert items[0..] == items;
      b := a + body;
      assert Spells(a, TArray(|items|)) && SpelledAll(items, body);
    } else {
      b := a;
    }
  }

  lemma PayloadIsSpelled(r: Reader, a: Bytes) returns (b: Bytes)
    requires r.Valid() && !ReadObject(r).1.error && !ReadTag(r).1.error
    requires (ReadTag(r).0.TStr? || ReadTag(r).0.TBin?) && Spells(a, ReadTag(r).0) && r.rest == a + ReadTag(r).1.rest
    ensures r.rest == b + ReadObject(r).1.rest && Spelled(ReadObject(r).0, b)
  {
    hide ReadTag;
    hide PeekTag;
    hide ReadBytes;
    hide Spells;
    var (tag, r1) := ReadTag(r);
    var n := if tag.TStr? then tag.strLen else tag.binLen;
    Grammar.BytesRead(r1, n);
    var payload := ReadBytes(r1, n).0;
    b := a + payload;
    assert Spells(a, if tag.TStr? then TStr(|payload|) else TBin(|payload|));
    assert n == 0 ==> b == a;
  }

  lemma {:induction false} ReadAllAreSpelled(guarded: bool, n: nat, r: Reader, acc: seq<Object>) returns (b: Bytes)
    requires r.Valid() && !ReadItems(guarded, n, r, acc).1.error
    ensures !r.error && r.rest == b + ReadItems(guarded, n, r, acc).1.rest
    ensures var items := ReadItems(guarded, n, r, acc).0;
            items.Some? && |items.value| == |acc| + n && acc <= items.value && SpelledAll(items.value[|acc|..], b)
    decreases |r.rest|, n + 1
  {
    hide ReadObject;
    hide Spelled;
    hide CopyOf;
    if n == 0 {
      b := [];
      assert acc[|acc|..] == [];
    } else {
      var (o, r1) := ReadObject(r);
      assert !r1.error;
      var a := ReadIsSpelled(r);
      SpelledDecoded(o, a);
      var rest := ReadAllAreSpelled(guarded, n - 1, r1, acc + [o]);
      var os := ReadItems(guarded, n, r, acc).0.value;
      assert os[|acc|] == o && os[|acc|..][1..] == os[|acc| + 1..];
      b := a + rest;
      assert Spelled(os[|acc|..][0], a) && SpelledAll(os[|acc|..][1..], rest);
    }
  }

  // ---------------------------------------------------------------- whole notifications

  /** [2, method, [params...]] within the limits, and nothing else. */
  ghost predicate SpelledNotification(n: Notification, b: Bytes)
  {
    && n.name.Some? && NulFree(n.name.value) && |n.name.value| < 4096 && |n.params| <= 4096
    && exists count, kind, size, items, params ::
         && Spells(count, TArray(3)) && Grammar.SpelledInteger(kind, 2)
         && Spells(size, TStr(|n.name.value|)) && Spells(items, TArray(|n.params|))
         && SpelledAll(n.params, params)
         && b == count + kind + size + n.name.value + items + params
  }

  lemma HeaderReads(count: Bytes, kind: Bytes, size: Bytes, name: Bytes, items: Bytes, n: UInt32, body: Bytes)
    requires Spells(count, TArray(3)) && Grammar.SpelledInteger(kind, 2)
    requires NulFree(name) && |name| < 4096 && Spells(size, TStr(|name|)) && n <= 4096 && Spells(items, TArray(n))
    ensures ReadHeader(count + kind + size + name + items + body) == (name, n, Reader(body, false))
  {
    hide Spells;
    hide Grammar.SpelledInteger;
    hide ReadTag;
    hide ReadBytes;
    var s4 := items + body;
    var s3 := size + (name + s4);
    assert count + kind + size + name + items + body == count + (kind + s3);
    ReadTagSpelled(TArray(3), count, kind + s3);
    Grammar.IntegerReads(kind, 2, s3);
    ReadTagSpelled(TStr(|name|), size, name + s4);
    ReadBytesWritten(name, s4);
    ReadTagSpelled(TArray(n), items, body);
  }

  lemma HeaderIsSpelled(b: Bytes) returns (count: Bytes, kind: Bytes, size: Bytes, items: Bytes)
    requires !ReadHeader(b).2.error
    ensures var (name, n, r) := ReadHeader(b);
            && NulFree(name) && |name| < 4096 && n <= 4096
            && Spells(count, TArray(3)) && Grammar.SpelledInteger(kind, 2)
            && Spells(size, TStr(|name|)) && Spells(items, TArray(n))
            && b == count + kind + size + name + items + r.rest
  {
    hide Spells;
    hide ReadTag;
    hide ReadBytes;
    hide ExpectArray;
    hide ExpectUInt;
    hide ExpectCStr;
    var r0 := Reader(b, false);
    var r1 := ReadTag(r0).1;
    var r2 := ReadTag(r1).1;
    var (tag, r3) := ReadTag(r2);
    var (name, r4) := ReadBytes(r3, tag.strLen);
    count := Grammar.TagRead(r0);
    kind := Grammar.TagRead(r1);
    size := Grammar.TagRead(r2);
    items := Grammar.TagRead(r4);
    Grammar.BytesRead(r3, tag.strLen);
    var rest := ReadHeader(b).2.rest;
    assert count + (kind + (size + (name + (items + rest)))) == count + kind + size + name + items + rest;
  }

  lemma SpelledNotificationReads(n: Notification, b: Bytes, tail: Bytes)
    requires SpelledNotification(n, b)
    ensures Decode(b + tail) == (Some(n), Reader(tail, false))
  {
    hide Spells;
    hide Grammar.SpelledInteger;
    hide SpelledAll;
    hide ReadHeader;
    hide ReadItems;
    hide NulFree;
    var name := n.name.value;
    var count, kind, size, items, params :|
      && Spells(count, TArray(3)) && Grammar.SpelledInteger(kind, 2)
      && Spells(size, TStr(|name|)) && Spells(items, TArray(|n.params|))
      && SpelledAll(n.params, params)
      && b == count + kind + size + name + items + params;
    SpellsSomething(count, TArray(3));
    assert b + tail == count + kind + size + name + items + (params + tail);
    HeaderReads(count, kind, size, name, items, |n.params|, params + tail);
    SpelledAllReads(false, n.params, params, tail, []);
    assert [] + n.params == n.params;
  }

  lemma DecodedIsSpelled(b: Bytes) returns (p: Bytes)
    requires Decode(b).0.Some?
    ensures b == p + Decode(b).1.rest && SpelledNotification(Decode(b).0.value, p)
  {
    hide Spells;
    hide Grammar.SpelledInteger;
    hide SpelledAll;
    hide ReadHeader;
    hide ReadItems;
    hide NulFree;
    var count, kind, size, items := HeaderIsSpelled(b);
    var (name, n, r) := ReadHeader(b);
    var params := ReadAllAreSpelled(false, n, r, []);
    var os := ReadItems(false, n, r, []).0.value;
    assert os[0..] == os;
    p := count + kind + size + name + items + params;
    var rest := ReadItems(false, n, r, []).1.rest;
    assert count + kind + size + name + items + (params + rest) == p + rest;
  }

  /** Decoding a notification is exactly recognising one of its spellings at the front. */
  lemma DecodeIff(b: Bytes, n: Notification, k: nat)
    requires k <= |b|
    ensures Decode(b) == (Some(n), Reader(b[k..], false)) <==> SpelledNotification(n, b[..k])
  {
    hide Decode;
    hide SpelledNotification;
    assert b == b[..k] + b[k..];
    if Decode(b) == (Some(n), Reader(b[k..], false)) {
      var p := DecodedIsSpelled(b);
      assert |p| == k && p == b[..k];
    }
    if SpelledNotification(n, b[..k]) { SpelledNotificationReads(n, b[..k], b[k..]); }
  }
}
