/**
 ObjectMapTable of source/msgpack/Object.c on the heap: a growable array of owned pairs,
 searched by ObjectEquals.
 */
module MapTable {
  import opened Wire
  import opened Trees
  import opened Tables
  import opened ObjectHeap

  class ObjectMap {
    var key: ObjectNode
    var value: ObjectNode
    ghost var Repr: set<object>

    ghost predicate Valid()
      reads this, Repr
      ensures Valid() ==> this in Repr && key in Repr && value in Repr && key.Repr <= Repr && value.Repr <= Repr
    {
      && this in Repr && key in Repr && value in Repr
      && key.Repr <= Repr && value.Repr <= Repr
      && this !in key.Repr && this !in value.Repr && key.Repr !! value.Repr
      && key.Valid() && value.Valid()
    }

    ghost function Pair(): (e: Entry)
      requires Valid()
      reads this, Repr
    {
      Entry(key.Value(), value.Value())
    }

    constructor (key: ObjectNode, value: ObjectNode)
      requires key.Valid() && value.Valid() && key.Repr !! value.Repr
      ensures Valid() && this.key == key && this.value == value && Repr == {this} + key.Repr + value.Repr
      ensures Pair() == Entry(key.Value(), value.Value())
    {
      this.key, this.value := key, value;
      Repr := {this} + key.Repr + value.Repr;
    }
  }

  class ObjectMapTable {
    var pairs: array<ObjectMap?>
    var len: nat
    ghost var Repr: set<object>

    ghost predicate Owns(p: ObjectMap)
      reads this, p
    {
      p in Repr && p.Repr <= Repr && this !in p.Repr && pairs !in p.Repr
    }

    ghost predicate Valid()
      reads this, Repr
      ensures Valid() ==> this in Repr && pairs in Repr
    {
      && this in Repr && pairs in Repr && len <= pairs.Length && 0 < pairs.Length
      && (forall i :: 0 <= i < len ==> pairs[i] != null && pairs[i] in Repr && Owns(pairs[i]))
      && (forall i :: 0 <= i < len ==> pairs[i].Valid())
      && (forall i, j :: 0 <= i < j < len ==> pairs[i].Repr !! pairs[j].Repr)
    }

    /** Valid, but for the pair at `gone`. */
    ghost predicate ValidBut(gone: nat)
      reads this, Repr
    {
      && this in Repr && pairs in Repr && len <= pairs.Length && 0 < pairs.Length
      && (forall i :: 0 <= i < len && i != gone ==> pairs[i] != null && pairs[i] in Repr && Owns(pairs[i]))
      && (forall i :: 0 <= i < len && i != gone ==> pairs[i].Valid())
      && (forall i, j :: 0 <= i < j < len && i != gone && j != gone ==> pairs[i].Repr !! pairs[j].Repr)
    }

    ghost function EntriesUpTo(n: nat): (ps: seq<Entry>)
      requires Valid() && n <= len
      reads this, Repr
      ensures |ps| == n
    {
      if n == 0 then [] else EntriesUpTo(n - 1) + [pairs[n - 1].Pair()]
    }

    ghost function Entries(): (ps: seq<Entry>)
      requires Valid()
      reads this, Repr
      ensures |ps| == len
    {
      EntriesUpTo(len)
    }

    /** ObjectMapTableCreate with OBJECT_MAP_INITIAL_CAPACITY. */
    constructor ()
      ensures Valid() && fresh(Repr) && Entries() == [] && len == 0
    {
      pairs, len := new ObjectMap?[8](_ => null), 0;
      Repr := {this, pairs};
    }
  }

  lemma {:induction false} EntryAt(t: ObjectMapTable, n: nat, i: nat)
    requires t.Valid() && i < n <= t.len
    ensures t.EntriesUpTo(n)[i] == t.pairs[i].Pair()
    decreases n
  {
    if i < n - 1 { EntryAt(t, n - 1, i); }
  }

  lemma EntriesAre(t: ObjectMapTable, ps: seq<Entry>)
    requires t.Valid() && |ps| == t.len && forall i :: 0 <= i < t.len ==> ps[i] == t.pairs[i].Pair()
    ensures t.Entries() == ps
  {
    forall i | 0 <= i < t.len ensures t.Entries()[i] == ps[i] { EntryAt(t, t.len, i); }
  }

  /** ObjectEquals. */
  predicate ObjectEquals(a: ObjectNode, b: ObjectNode)
    requires a.Valid() && b.Valid()
    reads a, a.Repr, b, b.Repr
    ensures ObjectEquals(a, b) == CEquals(a.Value(), b.Value())
  {
    if a.shape.SText? && b.shape.SText? then a.bytes[..] == b.bytes[..]
    else a.shape.SScalar? && b.shape.SScalar? && ScalarEquals(a.shape.scalar, b.shape.scalar)
  }

  /** The search loop that set, get and remove share. */
  method Search(t: ObjectMapTable, key: ObjectNode) returns (i: nat)
    requires t.Valid() && key.Valid()
    ensures i == IndexOf(C, t.Entries(), key.Value())
  {
    hide CEquals;
    hide ObjectNode.Valid;
    hide ObjectNode.Value;
    i := 0;
    while i < t.len
      invariant i <= t.len
      invariant forall j :: 0 <= j < i ==> !CEquals(t.Entries()[j].key, key.Value())
    {
      EntryAt(t, t.len, i);
      if ObjectEquals(t.pairs[i].key, key) { break; }
      i := i + 1;
    }
    IndexIs(C, t.Entries(), key.Value(), i);
  }

  /** ObjectMapTableGet: the table's own value node. */
  method ObjectMapTableGet(t: ObjectMapTable, key: ObjectNode) returns (v: ObjectNode?)
    requires t.Valid() && key.Valid()
    ensures v == null <==> Lookup(C, t.Entries(), key.Value()).None?
    ensures v != null ==> v.Valid() && v.Repr <= t.Repr && t !in v.Repr && t.pairs !in v.Repr
    ensures v != null ==> Lookup(C, t.Entries(), key.Value()) == Some(v.Value())
  {
    hide ObjectNode.Valid;
    hide ObjectNode.Value;
    hide IndexOf;
    var i := Search(t, key);
    if i == t.len { return null; }
    EntryAt(t, t.len, i);
    v := t.pairs[i].value;
  }

  /** ObjectMapCreate: copies both, null exactly when an allocation fails. */
  method ObjectMapCreate(key: ObjectNode, value: ObjectNode, m: Memory, n: nat) returns (p: ObjectMap?, n': nat)
    requires key.Valid() && value.Valid()
    ensures n <= n' && (p != null <==> Served(m, n, n'))
    ensures p != null ==> p.Valid() && fresh(p.Repr) && p.Pair() == Entry(Copied(key.Value()), Copied(value.Value()))
  {
    hide ObjectNode.Valid;
    hide ObjectNode.Value;
    hide Copied;
    p, n' := null, n + 1;
    if !m(n) { return; }
    var k, v;
    k, n' := ObjectCopy(key, m, n');
    v, n' := ObjectCopy(value, m, n');
    if k == null || v == null { return; }
    p := new ObjectMap(k, v);
  }

  /** realloc to twice the capacity; the pairs stay where they are. */
  method Grow(t: ObjectMapTable, m: Memory, n: nat) returns (ok: bool, n': nat)
    requires t.Valid()
    modifies t`pairs, t`Repr
    ensures t.Valid() && t.Entries() == old(t.Entries()) && t.len == old(t.len)
    ensures t.Repr == old(t.Repr) || (fresh(t.pairs) && t.Repr == old(t.Repr) + {t.pairs})
    ensures n <= n' && (ok <==> Served(m, n, n'))
    ensures ok ==> t.len < t.pairs.Length
    ensures t.pairs == old(t.pairs) || fresh(t.pairs)
  {
    hide ObjectMap.Valid;
    hide ObjectMap.Pair;
    if t.len < t.pairs.Length { return true, n; }
    ok, n' := m(n), n + 1;
    if !ok { return; }
    ghost var ps := t.Entries();
    forall i | 0 <= i < t.len ensures ps[i] == t.pairs[i].Pair() { EntryAt(t, t.len, i); }
    var source, len := t.pairs, t.len;
    var grown := new ObjectMap?[2 * source.Length](i requires i >= 0 reads source =>
                                                   if i < len && i < source.Length then source[i] else null);
    t.pairs := grown;
    t.Repr := t.Repr + {grown};
    EntriesAre(t, ps);
  }

  method Put(t: ObjectMapTable, p: ObjectMap)
    requires t.Valid() && t.len < t.pairs.Length
    requires p.Valid() && t.Repr !! p.Repr
    modifies t`len, t`Repr, t.pairs
    ensures t.Valid() && t.Repr == old(t.Repr) + p.Repr && t.len == old(t.len) + 1 && t.pairs[t.len - 1] == p
    ensures p.Valid() && p.Pair() == old(p.Pair())
    ensures forall i :: 0 <= i < t.len - 1 ==>
      t.pairs[i] == old(t.pairs[i]) && t.pairs[i].Pair() == old(t.pairs[i].Pair())
  {
    hide ObjectMap.Valid;
    hide ObjectMap.Pair;
    t.pairs[t.len] := p;
    t.len := t.len + 1;
    t.Repr := t.Repr + p.Repr;
  }

  method Store(t: ObjectMapTable, p: ObjectMap)
    requires t.Valid() && t.len < t.pairs.Length
    requires p.Valid() && t.Repr !! p.Repr
    modifies t`len, t`Repr, t.pairs
    ensures t.Valid() && t.Repr == old(t.Repr) + p.Repr
    ensures t.Entries() == old(t.Entries()) + [old(p.Pair())]
  {
    hide ObjectMap.Valid;
    hide ObjectMap.Pair;
    ghost var ps := t.Entries();
    forall i | 0 <= i < t.len ensures ps[i] == t.pairs[i].Pair() { EntryAt(t, t.len, i); }
    Put(t, p);
    hide ObjectMapTable.Valid;
    hide ObjectMapTable.EntriesUpTo;
    EntriesAre(t, ps + [p.Pair()]);
  }

  /** Free one value and put a fresh one in its place. */
  method ReplaceValue(p: ObjectMap, v: ObjectNode)
    requires p.Valid() && v.Valid() && p.Repr !! v.Repr
    modifies p, p.value.Repr
    ensures p.Valid() && p.Repr == old(p.Repr) + v.Repr
    ensures p.Pair() == Entry(old(p.Pair().key), old(v.Value()))
  {
    hide ObjectNode.Valid;
    hide ObjectNode.Value;
    ObjectFree(p.value);
    p.value := v;
    p.Repr := p.Repr + v.Repr;
  }

  /** The same on one pair of a table; the other pairs keep their nodes and values. */
  method ReplaceIn(t: ObjectMapTable, i: nat, v: ObjectNode)
    requires t.Valid() && i < t.len && v.Valid() && t.Repr !! v.Repr
    modifies t.pairs[i].Repr
    ensures unchanged(t) && unchanged(t.pairs)
    ensures t.pairs[i].Valid() && t.pairs[i].Repr == old(t.pairs[i].Repr) + v.Repr
    ensures t.pairs[i].Pair() == Entry(old(t.pairs[i].Pair().key), old(v.Value()))
    ensures forall j :: 0 <= j < t.len && j != i ==>
      t.pairs[j].Valid() && t.pairs[j].Repr == old(t.pairs[j].Repr) && t.pairs[j].Pair() == old(t.pairs[j].Pair())
  {
    hide ObjectNode.Valid;
    hide ObjectNode.Value;
    hide ObjectMap.Valid;
    hide ObjectMap.Pair;
    ReplaceValue(t.pairs[i], v);
  }

  method Update(t: ObjectMapTable, i: nat, v: ObjectNode)
    requires t.Valid() && i < t.len && v.Valid() && t.Repr !! v.Repr
    modifies t.Repr
    ensures t.Valid() && t.Repr == old(t.Repr) + v.Repr
    ensures t.Entries() == old(t.Entries()[i := Entry(t.Entries()[i].key, v.Value())])
  {
    hide ObjectNode.Valid;
    hide ObjectNode.Value;
    hide ObjectMap.Valid;
    hide ObjectMap.Pair;
    ghost var ps := t.Entries();
    forall j | 0 <= j < t.len ensures ps[j] == t.pairs[j].Pair() { EntryAt(t, t.len, j); }
    ghost var e := v.Value();
    ReplaceIn(t, i, v);
    t.Repr := t.Repr + v.Repr;
    assert t.Valid();
    hide ObjectMapTable.Valid;
    hide ObjectMapTable.EntriesUpTo;
    EntriesAre(t, ps[i := Entry(ps[i].key, e)]);
  }

  /**
   ObjectMapTableSet: false exactly when an allocation failed, and then nothing has changed.
   The value may be a node of the table itself, even the one that is replaced.
   */
  method ObjectMapTableSet(t: ObjectMapTable, key: ObjectNode, value: ObjectNode, m: Memory, n: nat)
    returns (ok: bool, n': nat)
    requires t.Valid() && key.Valid() && value.Valid()
    requires t !in key.Repr && t !in value.Repr
    modifies t.Repr
    ensures t.Valid() && fresh(t.Repr - old(t.Repr))
    ensures n <= n' && (ok <==> Served(m, n, n'))
    ensures ok ==> t.Entries() == Assign(C, old(t.Entries()), old(key.Value()), old(value.Value()))
    ensures !ok ==> t.Entries() == old(t.Entries())
  {
    hide ObjectNode.Valid;
    hide ObjectNode.Value;
    hide ObjectMapTable.Valid;
    hide ObjectMapTable.Entries;
    hide IndexOf;
    hide Copied;
    var i := Search(t, key);
    if i < t.len {
      var copy;
      copy, n' := ObjectCopy(value, m, n);
      if copy == null { return false, n'; }
      Update(t, i, copy);
      ok := true;
    } else {
      ok, n' := Grow(t, m, n);
      if !ok { return; }
      var p;
      p, n' := ObjectMapCreate(key, value, m, n');
      if p == null { return false, n'; }
      Store(t, p);
    }
  }

  /** Free one pair; the others keep their nodes and their values. */
  method FreePair(t: ObjectMapTable, index: nat)
    requires t.Valid() && index < t.len
    modifies t.pairs[index].Repr
    ensures unchanged(t) && unchanged(t.pairs) && t.ValidBut(index)
    ensures forall i :: 0 <= i < t.len && i != index ==>
      t.pairs[i].Valid() && t.pairs[i].Repr == old(t.pairs[i].Repr) && t.pairs[i].Pair() == old(t.pairs[i].Pair())
  {
    hide ObjectNode.Valid;
    hide ObjectMap.Pair;
    ObjectMapFree(t.pairs[index]);
  }

  method ObjectMapFree(p: ObjectMap)
    requires p.Valid()
    modifies p.Repr
  {
    hide ObjectNode.Valid;
    var key, value := p.key, p.value;
    ObjectFree(key);
    ObjectFree(value);
  }

  /** Closing the gap makes the table whole again. */
  method Shift(t: ObjectMapTable, index: nat)
    requires t.ValidBut(index) && index < t.len
    modifies t`len, t.pairs
    ensures t.Valid() && t.len == old(t.len) - 1
    ensures forall k :: 0 <= k < index ==> t.pairs[k] == old(t.pairs[k]) && t.pairs[k].Pair() == old(t.pairs[k].Pair())
    ensures forall k :: index <= k < t.len ==>
      t.pairs[k] == old(t.pairs[k + 1]) && t.pairs[k].Pair() == old(t.pairs[k + 1].Pair())
  {
    hide ObjectMap.Valid;
    hide ObjectMap.Pair;
    CloseGap(t, index);
  }

  /** Shift everything after `index` down by one place and clear the last one. */
  method CloseGap(t: ObjectMapTable, index: nat)
    requires index < t.len <= t.pairs.Length
    modifies t`len, t.pairs
    ensures t.len == old(t.len) - 1
    ensures forall k :: 0 <= k < index ==> t.pairs[k] == old(t.pairs[k])
    ensures forall k :: index <= k < t.len ==> t.pairs[k] == old(t.pairs[k + 1])
  {
    for j := index to t.len - 1
      invariant t.len == old(t.len)
      invariant forall k :: 0 <= k < index ==> t.pairs[k] == old(t.pairs[k])
      invariant forall k :: index <= k < j ==> t.pairs[k] == old(t.pairs[k + 1])
      invariant forall k :: j <= k < t.len ==> t.pairs[k] == old(t.pairs[k])
    {
      t.pairs[j] := t.pairs[j + 1];
    }
    t.len := t.len - 1;
    t.pairs[t.len] := null;
  }

  method RemovePair(t: ObjectMapTable, index: nat)
    requires t.Valid() && index < t.len
    modifies t.Repr
    ensures t.Valid() && t.Repr == old(t.Repr)
    ensures t.Entries() == CutAt(old(t.Entries()), index)
  {
    hide ObjectMap.Valid;
    hide ObjectMap.Pair;
    hide CutAt;
    ghost var ps := t.Entries();
    forall i | 0 <= i < t.len ensures ps[i] == t.pairs[i].Pair() { EntryAt(t, t.len, i); }
    FreePair(t, index);
    Shift(t, index);
    hide ObjectMapTable.EntriesUpTo;
    EntriesAre(t, CutAt(ps, index));
  }

  /** ObjectMapTableRemove: frees the first matching pair and closes the gap. */
  method ObjectMapTableRemove(t: ObjectMapTable, key: ObjectNode) returns (ok: bool)
    requires t.Valid() && key.Valid()
    modifies t.Repr
    ensures t.Valid() && t.Repr == old(t.Repr)
    ensures ok <==> IndexOf(C, old(t.Entries()), old(key.Value())) < |old(t.Entries())|
    ensures t.Entries() == Erase(C, old(t.Entries()), old(key.Value()))
  {
    hide ObjectNode.Valid;
    hide ObjectNode.Value;
    hide ObjectMapTable.Valid;
    hide ObjectMapTable.Entries;
    hide IndexOf;
    hide CutAt;
    var i := Search(t, key);
    ok := i < t.len;
    EraseFirst(t.Entries(), key.Value());
    hide Erase;
    if ok { RemovePair(t, i); }
  }

  lemma EraseFirst(ps: seq<Entry>, k: Tree)
    ensures var i := IndexOf(C, ps, k); Erase(C, ps, k) == if i < |ps| then CutAt(ps, i) else ps
  {
  }

  lemma CopyTableStep(ps: seq<Entry>, i: nat)
    requires i <= |ps|
    ensures CopyTable(ps[..0]) == []
    ensures i < |ps| ==> CopyTable(ps[..i + 1]) == Assign(C, CopyTable(ps[..i]), ps[i].key, ps[i].value)
  {
    if i < |ps| { assert ps[..i + 1][..i] == ps[..i]; }
  }

  /** The nodes of one pair, which belong to the table. */
  method PairAt(t: ObjectMapTable, i: nat) returns (key: ObjectNode, value: ObjectNode)
    requires t.Valid() && i < t.len
    ensures key.Valid() && value.Valid() && key.Repr <= t.Repr && value.Repr <= t.Repr
    ensures t.Entries()[i] == Entry(key.Value(), value.Value())
  {
    hide ObjectNode.Valid;
    hide ObjectNode.Value;
    EntryAt(t, t.len, i);
    key, value := t.pairs[i].key, t.pairs[i].value;
  }

  /** ObjectMapTableCopy: sets every pair, in order, in a new table. */
  method ObjectMapTableCopy(src: ObjectMapTable, m: Memory, n: nat) returns (dst: ObjectMapTable?, n': nat)
    requires src.Valid()
    ensures n <= n' && (dst != null <==> Served(m, n, n'))
    ensures dst != null ==> dst.Valid() && fresh(dst.Repr) && dst.Entries() == CopyTable(src.Entries())
  {
    hide ObjectNode.Valid;
    hide ObjectNode.Value;
    hide ObjectMapTable.Valid;
    hide ObjectMapTable.Entries;
    hide ObjectMap.Valid;
    hide CopyTable;
    hide Assign;
    n', dst := n + 1, null;
    if !m(n) { return; }
    n' := n + 2;
    if !m(n + 1) { return; }
    var made := new ObjectMapTable();
    ghost var ps := src.Entries();
    CopyTableStep(ps, 0);
    for i := 0 to src.len
      invariant src.Valid() && src.Entries() == ps && src.len == old(src.len)
      invariant made.Valid() && fresh(made.Repr) && made.Entries() == CopyTable(ps[..i])
      invariant n <= n' && Served(m, n, n')
    {
      CopyTableStep(ps, i);
      var k, v := PairAt(src, i);
      var ok;
      ok, n' := ObjectMapTableSet(made, k, v, m, n');
      if !ok { return; }
    }
    assert ps[..src.len] == ps;
    dst := made;
  }

  /** Setting a value that a get has just returned, without copying it first. */
  method SetFromTable(t: ObjectMapTable, key: ObjectNode, source: ObjectNode, m: Memory, n: nat)
    returns (ok: bool, n': nat)
    requires t.Valid() && key.Valid() && source.Valid() && t !in key.Repr
    modifies t.Repr
    ensures t.Valid() && fresh(t.Repr - old(t.Repr)) && n <= n'
    ensures (t.Entries(), Did(ok)) ==
            Step(C, old(t.Entries()), SetFrom(old(key.Value()), old(source.Value()), Served(m, n, n')))
  {
    hide ObjectNode.Valid;
    hide ObjectNode.Value;
    hide ObjectMapTable.Valid;
    hide ObjectMapTable.Entries;
    hide Lookup;
    hide Assign;
    var v := ObjectMapTableGet(t, key := source);
    if v == null { return false, n; }
    ok, n' := ObjectMapTableSet(t, key, v, m, n);
  }
}
