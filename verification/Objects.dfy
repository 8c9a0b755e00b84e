/**
 The value type of source/msgpack/Object.h as the codecs see it: a tree, with every
 pointer that the C code may find null made explicit.
 */
module Objects {
  import opened Wire

  datatype Object =
    | Null                    // a null Object pointer
    | Und
    | Nil
    | Bool(b: bool)
    | Int(i: Int64)
    | UInt(u: UInt64)
    | Float(f: UInt32)        // the bit pattern
    | Double(d: UInt64)       // the bit pattern
    | Str(s: Bytes)           // the `size` bytes behind str_value
    | StrNull                 // str_value is null
    | Bin(data: Bytes)        // a RawBuffer whose data pointer is set
    | BinNoData(len: nat)     // a RawBuffer whose data pointer is null
    | BinNull                 // bin_value is null
    | Arr(items: seq<Object>)
    | ArrNull                 // array_value is null
    | Map                     // the table behind a map never reaches the wire

  /** `p` holds of every node of the tree, at every depth. */
  predicate Everywhere(p: Object -> bool, o: Object)
  {
    p(o) && (o.Arr? ==> forall k :: 0 <= k < |o.items| ==> Everywhere(p, o.items[k]))
  }

  predicate EverywhereIn(p: Object -> bool, os: seq<Object>)
  {
    forall k :: 0 <= k < |os| ==> Everywhere(p, os[k])
  }

  lemma EverywhereInNil(p: Object -> bool)
    ensures EverywhereIn(p, [])
  {
  }

  lemma EverywhereInCons(p: Object -> bool, os: seq<Object>)
    requires os != []
    ensures EverywhereIn(p, os) <==> Everywhere(p, os[0]) && EverywhereIn(p, os[1..])
  {
    assert os == [os[0]] + os[1..];
  }

  /** (uint32_t)size: the part of a payload that a 32-bit length can name. */
  function Cut(s: Bytes): (c: Bytes)
    ensures c <= s && |c| == |s| % 0x1_0000_0000
    ensures c == s <==> |s| < UINT32_LIMIT
  {
    s[..|s| % UINT32_LIMIT]
  }

  /** The value an integer has after it has been on the wire. */
  function WireInt(i: Int64): (o: Object)
  {
    if i >= 0 then UInt(i) else Int(i)
  }

  /**
   What ObjectCopy builds on values (source/msgpack/Object.c:59-140): null stays null, an
   array below which a copy fails is not copied, a zero-length buffer loses its data pointer.
   */
  function CopyOf(o: Object): (c: Object)
    decreases o, 1
  {
    match o
    case Str(s) => Str(CString(s))
    case Bin(d) => if d == [] then BinNoData(0) else Bin(d)
    case BinNoData(_) => BinNoData(0)
    case Arr(items) => if Null in CopyAll(items) then Null else Arr(CopyAll(items))
    case _ => o
  }

  function CopyAll(os: seq<Object>): (cs: seq<Object>)
    ensures |cs| == |os|
    decreases os, 0
  {
    if os == [] then [] else [CopyOf(os[0])] + CopyAll(os[1..])
  }

  /** Values a decoder can produce: nothing null at any depth, buffers in RawBufferNew's form. */
  predicate Decoded(o: Object)
    decreases o, 1
  {
    match o
    case Nil => true
    case Bool(_) => true
    case Int(_) => true
    case UInt(_) => true
    case Float(_) => true
    case Double(_) => true
    case Str(s) => NulFree(s)
    case Bin(d) => d != []
    case BinNoData(n) => n == 0
    case Arr(items) => DecodedAll(items)
    case _ => false
  }

  predicate DecodedAll(os: seq<Object>)
    decreases os, 0
  {
    os != [] ==> Decoded(os[0]) && DecodedAll(os[1..])
  }

  lemma {:induction false} DecodedAllAppend(os: seq<Object>, o: Object)
    requires DecodedAll(os) && Decoded(o)
    ensures DecodedAll(os + [o])
  {
    if os != [] {
      DecodedAllAppend(os[1..], o);
      assert (os + [o])[1..] == os[1..] + [o];
    }
  }

  /** Appending a decoded value to an ObjectArray, which copies it, loses nothing. */
  lemma {:induction false} CopyOfDecoded(o: Object)
    requires Decoded(o)
    ensures CopyOf(o) == o && !o.Null?
    decreases o, 1
  {
    if o.Arr? {
      CopyAllDecoded(o.items);
    }
  }

  lemma {:induction false} CopyAllDecoded(os: seq<Object>)
    requires DecodedAll(os)
    ensures CopyAll(os) == os && Null !in os
    decreases os, 0
  {
    if os != [] {
      CopyOfDecoded(os[0]);
      CopyAllDecoded(os[1..]);
    }
  }
}
