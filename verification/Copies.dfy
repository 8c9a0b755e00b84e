/**
 The copy that the codecs speak of (on values, with null pointers and buffers without data)
 is the copy that the heap routines make.
 */
module Copies {
  import opened Wire
  import opened Objects
  import Trees

  predicate NotNull(o: Object) { !o.Null? }

  /** What the nodes of a codec value hold; a map's table is not part of such a value. */
  function AsTree(o: Object): (t: Trees.Tree)
    requires Everywhere(NotNull, o)
    decreases o, 1
  {
    match o
    case Und => Trees.Leaf(Trees.Und)
    case Nil => Trees.Leaf(Trees.Nil)
    case Bool(b) => Trees.Leaf(Trees.Bool(b))
    case Int(i) => Trees.Leaf(Trees.Int(i))
    case UInt(u) => Trees.Leaf(Trees.UInt(u))
    case Float(f) => Trees.Leaf(Trees.Float(f))
    case Double(d) => Trees.Leaf(Trees.Double(d))
    case Str(s) => Trees.Text(CString(s))
    case StrNull => Trees.Leaf(Trees.NullStr)
    case Bin(d) => Trees.Blob(d)
    case BinNoData(_) => Trees.Blob([])
    case BinNull => Trees.Leaf(Trees.NullBin)
    case Arr(items) => Trees.List(AsTrees(items))
    case ArrNull => Trees.Leaf(Trees.NullArray)
    case Map => Trees.Leaf(Trees.NullMap)
  }

  function AsTrees(os: seq<Object>): (ts: seq<Trees.Tree>)
    requires EverywhereIn(NotNull, os)
    ensures |ts| == |os|
    decreases os, 0
  {
    if os == [] then [] else [AsTree(os[0])] + AsTrees(os[1..])
  }

  lemma {:induction false} CopiedAllCons(ts: seq<Trees.Tree>)
    requires ts != []
    ensures Trees.CopiedAll(ts) == [Trees.Copied(ts[0])] + Trees.CopiedAll(ts[1..])
    decreases |ts|
  {
    var n := |ts| - 1;
    if n > 0 {
      CopiedAllCons(ts[..n]);
      assert ts[..n][1..] == ts[1..][..n - 1];
    }
  }

  lemma {:induction false} CopyViewsAgree(o: Object)
    requires Everywhere(NotNull, o)
    ensures Everywhere(NotNull, CopyOf(o)) && AsTree(CopyOf(o)) == Trees.Copied(AsTree(o))
    decreases o, 1
  {
    match o
    case Str(s) => CStringIdempotent(s);
    case Arr(items) => CopyViewsAgreeAll(items);
    case _ =>
  }

  lemma {:induction false} CopyViewsAgreeAll(os: seq<Object>)
    requires EverywhereIn(NotNull, os)
    ensures Null !in CopyAll(os)
    ensures EverywhereIn(NotNull, CopyAll(os)) && AsTrees(CopyAll(os)) == Trees.CopiedAll(AsTrees(os))
    decreases os, 0
  {
    if os != [] {
      CopyViewsAgree(os[0]);
      CopyViewsAgreeAll(os[1..]);
      CopiedAllCons(AsTrees(os));
      EverywhereInCons(NotNull, CopyAll(os));
    }
  }

  /** A copy fails exactly when a null pointer is found somewhere in the tree. */
  lemma {:induction false} CopyFailsIff(o: Object)
    ensures CopyOf(o).Null? <==> !Everywhere(NotNull, o)
    decreases o, 1
  {
    if o.Arr? {
      CopyAllFailsIff(o.items);
      assert Everywhere(NotNull, o) <==> EverywhereIn(NotNull, o.items);
    }
  }

  lemma {:induction false} CopyAllFailsIff(os: seq<Object>)
    ensures Null in CopyAll(os) <==> !EverywhereIn(NotNull, os)
    decreases os, 0
  {
    if os != [] {
      CopyFailsIff(os[0]);
      CopyAllFailsIff(os[1..]);
      EverywhereInCons(NotNull, os);
      assert CopyAll(os) == [CopyOf(os[0])] + CopyAll(os[1..]);
    }
  }

  /** Strings end before their first NUL, and a buffer has a data pointer exactly when it is not empty. */
  predicate Tidy(o: Object)
  {
    (o.Str? ==> NulFree(o.s)) && (o.Bin? ==> o.data != []) && (o.BinNoData? ==> o.len == 0)
  }

  /** Every node of a copy is tidy. */
  lemma {:induction false} CopyIsTidy(o: Object)
    ensures Everywhere(Tidy, CopyOf(o))
    decreases o, 1
  {
    if o.Arr? {
      CopyAllIsTidy(o.items);
    }
  }

  lemma {:induction false} CopyAllIsTidy(os: seq<Object>)
    ensures EverywhereIn(Tidy, CopyAll(os))
    decreases os, 0
  {
    if os != [] {
      CopyIsTidy(os[0]);
      CopyAllIsTidy(os[1..]);
      EverywhereInCons(Tidy, CopyAll(os));
      assert CopyAll(os)[1..] == CopyAll(os[1..]);
    }
  }
}
