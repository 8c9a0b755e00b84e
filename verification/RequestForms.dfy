/**
 Requests as other encoders may write them: every tag in any width, integers signed or
 unsigned, wider than 32 bits, strings with or without bytes behind a NUL.
 */
module RequestForms {
  import opened Wire
  import opened Objects
  import opened Requests
  import Grammar

  /** The bytes `b` are an encoding of the parameter `o`. */
  ghost predicate SpelledParam(o: Object, b: Bytes)
  {
    match o
    case Nil => Spells(b, TNil)
    case Bool(x) => Spells(b, TBool(x))
    case Int(i) => Spells(b, TInt(i))
    case UInt(u) => Spells(b, TUInt(u))
    case Float(f) => Spells(b, TFloat(f))
    case Double(d) => Spells(b, TDouble(d))
    case Str(s) => exists a, text :: SpelledText(s, a, text) && b == a + text
    case Bin(d) => 0 < |d| < UINT32_LIMIT && exists a :: Spells(a, TBin(|d|)) && b == a + d
    case BinNoData(n) => n == 0 && Spells(b, TBin(0))
    case _ => false
  }

  /** The tag `a` and the bytes `text` carry the C string `s`. */
  ghost predicate SpelledText(s: Bytes, a: Bytes, text: Bytes)
  {
    |text| < UINT32_LIMIT && Spells(a, TStr(|text|)) && s <= text && NulFree(s) && (|s| < |text| ==> text[|s|] == 0)
  }

  /** An item of the parameter list: a parameter, or the bare tag of an array or a map, which is passed over. */
  ghost predicate SpelledItem(e: Option<Object>, b: Bytes)
  {
    match e
    case Some(o) => SpelledParam(o, b)
    case None => exists n: UInt32 :: Spells(b, TArray(n)) || Spells(b, TMap(n))
  }

  ghost predicate SpelledItems(es: seq<Option<Object>>, b: Bytes)
  {
    if es == [] then b == []
    else exists a, rest :: SpelledItem(es[0], a) && SpelledItems(es[1..], rest) && b == a + rest
  }

  /** The parameters that a list of items makes: nil for what was passed over, and nothing after the last one. */
  predicate Fills(params: seq<Object>, es: seq<Option<Object>>)
  {
    && |params| <= |es|
    && (forall j :: 0 <= j < |params| ==> params[j] == if es[j].Some? then es[j].value else Nil)
    && (forall j :: |params| <= j < |es| ==> es[j].None?)
    && (params != [] ==> es[|params| - 1].Some?)
  }

  /** An integer of any kind and width whose low 32 bits are `u`. */
  ghost predicate SpelledLow(b: Bytes, u: UInt32)
  {
    exists x :: Grammar.SpelledInteger(b, x) && (x - u) % 0x1_0000_0000 == 0
  }

  /** The pieces of a request as other encoders may write it. */
  ghost predicate Pieces(q: Request, es: seq<Option<Object>>, count: Bytes, kind: Bytes, id: Bytes, size: Bytes,
                         text: Bytes, items: Bytes, params: Bytes)
    requires q.name.Some?
  {
    && |es| < UINT32_LIMIT && Fills(q.params, es)
    && Spells(count, TArray(4)) && SpelledLow(kind, 0) && SpelledLow(id, q.msgid)
    && SpelledText(q.name.value, size, text) && Spells(items, TArray(|es|))
    && SpelledItems(es, params)
  }

  /** [0, msgid, method, [items...]], and nothing else. */
  ghost predicate SpelledRequest(q: Request, b: Bytes)
  {
    && q.kind == 0 && q.name.Some?
    && exists es, count, kind, id, size, text, items, params ::
         && Pieces(q, es, count, kind, id, size, text, items, params)
         && b == count + kind + id + size + text + items + params
  }

  // ---------------------------------------------------------------- parameters

  lemma {:induction false} CStringIs(s: Bytes, text: Bytes)
    requires s <= text && NulFree(s) && (|s| < |text| ==> text[|s|] == 0)
    ensures CString(text) == s
  {
    var c := CString(text);
    assert c == text[..|c|] && s == text[..|s|];
    assert |c| == |s|;
  }

  lemma ParamReads(o: Object, b: Bytes, tail: Bytes)
    requires SpelledParam(o, b)
    ensures ReadParam(Reader(b + tail, false)) == (Some(o), Reader(tail, false))
  {
    hide ReadParam;
    hide Spells;
    match o
    case Str(s) =>
      var a, text :| SpelledText(s, a, text) && b == a + text;
      TextReads(s, a, text, tail);
    case Bin(d) =>
      var a :| Spells(a, TBin(|d|)) && b == a + d;
      BinReads(a, d, tail);
    case BinNoData(_) =>
      assert b + [] == b;
      BinReads(b, [], tail);
    case Nil => ScalarReads(TNil, b, tail);
    case Bool(x) => ScalarReads(TBool(x), b, tail);
    case Int(i) => ScalarReads(TInt(i), b, tail);
    case UInt(u) => ScalarReads(TUInt(u), b, tail);
    case Float(f) => ScalarReads(TFloat(f), b, tail);
    case Double(d) => ScalarReads(TDouble(d), b, tail);
  }

  /** What a tag without payload is read as. */
  function ObjectOf(t: Tag): (o: Object)
  {
    match t
    case TBool(b) => Bool(b)
    case TInt(i) => Int(i)
    case TUInt(u) => UInt(u)
    case TFloat(f) => Float(f)
    case TDouble(d) => Double(d)
    case _ => Nil
  }

  lemma ScalarReads(t: Tag, b: Bytes, tail: Bytes)
    requires Spells(b, t) && !t.TStr? && !t.TBin? && !t.TArray? && !t.TMap?
    ensures ReadParam(Reader(b + tail, false)) == (Some(ObjectOf(t)), Reader(tail, false))
  {
    hide Spells;
    hide ReadTag;
    ReadTagSpelled(t, b, tail);
  }

  lemma TextReads(s: Bytes, a: Bytes, text: Bytes, tail: Bytes)
    requires SpelledText(s, a, text)
    ensures ReadParam(Reader(a + text + tail, false)) == (Some(Str(s)), Reader(tail, false))
  {
    hide Spells;
    hide ReadTag;
    hide ReadBytes;
    hide ReadParam;
    CStringIs(s, text);
    hide CString;
    assert a + text + tail == a + (text + tail);
    ReadTagSpelled(TStr(|text|), a, text + tail);
    ReadBytesWritten(text, tail);
    ReadParamText(Reader(a + text + tail, false));
  }

  lemma BinReads(a: Bytes, d: Bytes, tail: Bytes)
    requires |d| < UINT32_LIMIT && Spells(a, TBin(|d|))
    ensures ReadParam(Reader(a + d + tail, false))
         == (Some(if d == [] then BinNoData(0) else Bin(d)), Reader(tail, false))
  {
    hide Spells;
    hide ReadTag;
    hide ReadBytes;
    assert a + d + tail == a + (d + tail);
    ReadTagSpelled(TBin(|d|), a, d + tail);
    ReadBytesWritten(d, tail);
  }

  lemma ItemReads(e: Option<Object>, b: Bytes, tail: Bytes)
    requires SpelledItem(e, b)
    ensures ReadParam(Reader(b + tail, false)) == (e, Reader(tail, false))
  {
    hide Spells;
    match e
    case Some(o) =>
      hide ReadParam;
      ParamReads(o, b, tail);
    case None =>
      hide ReadTag;
      var n: UInt32 :| Spells(b, TArray(n)) || Spells(b, TMap(n));
      if Spells(b, TArray(n)) { ReadTagSpelled(TArray(n), b, tail); } else { ReadTagSpelled(TMap(n), b, tail); }
  }

  /** One more item: a parameter fills the gap before it, anything else leaves one. */
  lemma FillsOneMore(params: seq<Object>, es: seq<Option<Object>>, e: Option<Object>)
    requires Fills(params, es)
    ensures Fills(if e.None? then params else ParamAppend(params, e.value, |es|), es + [e])
  {
    hide ParamAppend;
  }

  lemma {:induction false} ItemsRead(i: nat, count: nat, done: seq<Option<Object>>, es: seq<Option<Object>>,
                                     b: Bytes, tail: Bytes, acc: seq<Object>) returns (params: seq<Object>)
    requires SpelledItems(es, b) && |done| == i && i + |es| == count && Fills(acc, done)
    ensures |acc| <= i && ReadParams(i, count, Reader(b + tail, false), acc) == (params, Reader(tail, false))
    ensures Fills(params, done + es)
    decreases |es|
  {
    hide ReadParam;
    hide SpelledItem;
    hide ReadParams;
    hide ParamAppend;
    FillsShort(acc, done);
    hide Fills;
    if es == [] {
      assert done + es == done && b + tail == tail;
      ReadParamsDone(count, Reader(tail, false), acc);
      params := acc;
    } else {
      var a, rest :| SpelledItem(es[0], a) && SpelledItems(es[1..], rest) && b == a + rest;
      hide SpelledItems;
      assert b + tail == a + (rest + tail);
      ItemReads(es[0], a, rest + tail);
      ReadParamsUnfold(i, count, Reader(b + tail, false), acc);
      FillsOneMore(acc, done, es[0]);
      var next := if es[0].None? then acc else ParamAppend(acc, es[0].value, i);
      params := ItemsRead(i + 1, count, done + [es[0]], es[1..], rest, tail, next);
      assert done + [es[0]] + es[1..] == done + es;
    }
  }

  lemma FillsNothing()
    ensures Fills([], [])
  {
  }

  lemma FillsShort(params: seq<Object>, es: seq<Option<Object>>)
    requires Fills(params, es)
    ensures |params| <= |es|
  {
  }

  /** The items leave no choice. */
  lemma FillsOnce(a: seq<Object>, b: seq<Object>, es: seq<Option<Object>>)
    requires Fills(a, es) && Fills(b, es)
    ensures a == b
  {
    assert |a| == |b|;
  }

  lemma ReadParamsDone(count: nat, r: Reader, acc: seq<Object>)
    requires r.Valid() && |acc| <= count
    ensures ReadParams(count, count, r, acc) == (acc, r)
  {
  }

  // ---------------------------------------------------------------- envelope

  lemma LowBits(x: int, u: UInt32)
    requires (x - u) % 0x1_0000_0000 == 0
    ensures x % 0x1_0000_0000 == u
  {
  }

  lemma LowReads(b: Bytes, u: UInt32, tail: Bytes)
    requires SpelledLow(b, u)
    ensures var (tag, r) := ReadTag(Reader(b + tail, false));
            r == Reader(tail, false) && Integer(tag) && Low32(tag) == u
  {
    hide ReadTag;
    var x :| Grammar.SpelledInteger(b, x) && (x - u) % 0x1_0000_0000 == 0;
    hide Grammar.SpelledInteger;
    LowBits(x, u);
    Grammar.IntegerReads(b, x, tail);
  }

  lemma HeaderReads(q: Request, n: UInt32, count: Bytes, kind: Bytes, id: Bytes, size: Bytes, text: Bytes,
                    items: Bytes, body: Bytes)
    requires q.name.Some? && Spells(count, TArray(4)) && SpelledLow(kind, 0) && SpelledLow(id, q.msgid)
    requires SpelledText(q.name.value, size, text) && Spells(items, TArray(n))
    ensures ReadHeader(count + kind + id + size + text + items + body)
         == (Some((q.msgid, q.name.value, n)), Reader(body, false))
  {
    hide Spells;
    hide SpelledLow;
    hide ReadTag;
    hide ReadBytes;
    hide Low32;
    CStringIs(q.name.value, text);
    hide CString;
    var s5 := items + body;
    var s4 := size + (text + s5);
    var s3 := id + s4;
    assert count + kind + id + size + text + items + body == count + (kind + s3);
    ReadTagSpelled(TArray(4), count, kind + s3);
    LowReads(kind, 0, s3);
    LowReads(id, q.msgid, s4);
    ReadTagSpelled(TStr(|text|), size, text + s5);
    ReadBytesWritten(text, s5);
    ReadTagSpelled(TArray(n), items, body);
  }

  lemma PiecesRead(q: Request, es: seq<Option<Object>>, count: Bytes, kind: Bytes, id: Bytes, size: Bytes,
                   text: Bytes, items: Bytes, params: Bytes, tail: Bytes)
    requires q.kind == 0 && q.name.Some? && Pieces(q, es, count, kind, id, size, text, items, params)
    ensures var b := count + kind + id + size + text + items + params; Decode(b + tail) == (Some(q), |b|)
  {
    hide Spells;
    hide SpelledLow;
    hide SpelledText;
    hide SpelledItems;
    hide ReadHeader;
    hide ReadParams;
    hide Fills;
    FillsNothing();
    var b := count + kind + id + size + text + items + params;
    assert b + tail == count + kind + id + size + text + items + (params + tail);
    HeaderReads(q, |es|, count, kind, id, size, text, items, params + tail);
    var read := ItemsRead(0, |es|, [], es, params, tail, []);
    assert [] + es == es;
    FillsOnce(read, q.params, es);
  }

  /**
   However a request is written, decoding it followed by anything gives that request and exactly
   the number of its bytes; the tag of an array or map among its items is passed over.
   */
  lemma SpelledRequestReads(q: Request, b: Bytes, tail: Bytes)
    requires SpelledRequest(q, b)
    ensures Decode(b + tail) == (Some(q), |b|)
  {
    var es, count, kind, id, size, text, items, params :|
      && Pieces(q, es, count, kind, id, size, text, items, params)
      && b == count + kind + id + size + text + items + params;
    hide Pieces;
    hide Decode;
    PiecesRead(q, es, count, kind, id, size, text, items, params, tail);
  }

  /** Flat parameters are items like any others. */
  lemma FlatFills(params: seq<Object>)
    ensures Fills(params, seq(|params|, i requires 0 <= i < |params| => Some(params[i])))
  {
  }

  /** An id in a field of four bytes, whatever its size: the call that carries it is answered under it. */
  lemma WideIdReads(id: UInt32, name: Bytes, tail: Bytes)
    requires NulFree(name) && |name| < 0x20
    ensures var b := [0x94] + [0x00] + ([0xce] + BigEndian(id, 4)) + [0xa0 + |name|] + name + [0x90];
            Decode(b + tail) == (Some(Request(0, id, Some(name), [])), |b|)
  {
    var q := Request(0, id, Some(name), []);
    var wide, size := [0xce] + BigEndian(id, 4), [0xa0 + |name|];
    PiecesSpell(id, wide, name, size);
    hide BigEndian;
    hide Spells;
    hide SpelledLow;
    hide SpelledText;
    hide Fills;
    hide Decode;
    FillsNothing();
    PiecesRead(q, [], [0x94], [0x00], wide, size, name, [0x90], [], tail);
    var b := [0x94] + [0x00] + wide + size + name + [0x90];
    assert b + [] == b;
  }

  lemma PiecesSpell(id: UInt32, wide: Bytes, name: Bytes, size: Bytes)
    requires wide == [0xce] + BigEndian(id, 4) && size == [0xa0 + |name|] && NulFree(name) && |name| < 0x20
    ensures Spells([0x94], TArray(4)) && Spells([0x90], TArray(0))
    ensures SpelledLow([0x00], 0) && SpelledLow(wide, id) && SpelledText(name, size, name)
  {
    hide BigEndian;
    assert Grammar.SpelledInteger([0x00], 0) && Grammar.SpelledInteger(wide, id);
  }
}
