/**
 source/msgpack/Object.c on the heap: objects own their payloads, ObjectCopy and
 ObjectArrayAppend call each other to copy a tree node by node, any allocation may fail, and
 a freed node holds nothing anyone may rely on.
 */
module ObjectHeap {
  import opened Wire
  import opened Trees

  /** Whether the k-th allocation of a run succeeds. */
  type Memory = nat -> bool

  /** Every allocation numbered from `from` up to `to` succeeds. */
  predicate Served(m: Memory, from: nat, to: nat) { forall k :: from <= k < to ==> m(k) }

  /** The type tag of a node and the payload stored in it; a map's table is kept as its value. */
  datatype Shape = SScalar(scalar: Scalar) | SText | SBlob | SList | STable(entries: seq<Entry>) | SFreed

  class ObjectNode {
    var shape: Shape
    var bytes: array<Byte>
    var list: ObjectArray?
    ghost var Repr: set<object>

    ghost predicate Valid()
      reads this, Repr
      ensures Valid() ==> this in Repr
      decreases Repr
    {
      && this in Repr && !shape.SFreed?
      && (shape.SText? || shape.SBlob? ==> bytes in Repr)
      && (shape.SList? ==> list != null && list in Repr && list.Repr <= Repr && this !in list.Repr && list.Valid())
    }

    ghost function Value(): (t: Tree)
      requires Valid()
      reads this, Repr
      decreases Repr
    {
      match shape
      case SScalar(s) => Leaf(s)
      case SText => Text(bytes[..])
      case SBlob => Blob(bytes[..])
      case SList => List(list.Items())
      case STable(entries) => Table(entries)
    }

    /** Every object node of the tree. */
    ghost function Nodes(): (ns: set<ObjectNode>)
      requires Valid()
      reads this, Repr
      ensures this in ns && forall x :: x in ns ==> x in Repr
      decreases Repr
    {
      {this} + (if shape.SList? then list.NodesUpTo(list.len) else {})
    }

    constructor (shape: Shape, bytes: array<Byte>, list: ObjectArray?)
      requires !shape.SFreed? && (shape.SList? ==> list != null && list.Valid())
      ensures this.shape == shape && this.bytes == bytes && this.list == list
      ensures Valid()
      ensures Repr == {this} + (if shape.SText? || shape.SBlob? then {bytes} else {})
                      + (if shape.SList? then list.Repr else {})
    {
      this.shape, this.bytes, this.list := shape, bytes, list;
      Repr := {this} + (if shape.SText? || shape.SBlob? then {bytes} else {})
              + (if shape.SList? then list.Repr else {});
    }
  }

  class ObjectArray {
    var objects: array<ObjectNode?>
    var len: nat
    ghost var Repr: set<object>

    /** Element `i` is a tree of its own inside this array. */
    ghost predicate Owns(o: ObjectNode)
      reads this, o
    {
      o in Repr && o.Repr <= Repr && this !in o.Repr && objects !in o.Repr
    }

    ghost predicate Valid()
      reads this, Repr
      ensures Valid() ==> this in Repr && objects in Repr
      decreases Repr
    {
      && this in Repr && objects in Repr && len <= objects.Length && 0 < objects.Length
      && (forall i :: 0 <= i < len ==> objects[i] != null && objects[i] in Repr && Owns(objects[i]))
      && (forall i :: 0 <= i < len ==> objects[i].Valid())
      && (forall i, j :: 0 <= i < j < len ==> objects[i].Repr !! objects[j].Repr)
    }

    /** Valid, but for the element at `gone`. */
    ghost predicate ValidBut(gone: nat)
      reads this, Repr
    {
      && this in Repr && objects in Repr && len <= objects.Length && 0 < objects.Length
      && (forall i :: 0 <= i < len && i != gone ==> objects[i] != null && objects[i] in Repr && Owns(objects[i]))
      && (forall i :: 0 <= i < len && i != gone ==> objects[i].Valid())
      && (forall i, j :: 0 <= i < j < len && i != gone && j != gone ==> objects[i].Repr !! objects[j].Repr)
    }

    ghost function ItemsUpTo(n: nat): (ts: seq<Tree>)
      requires Valid() && n <= len
      reads this, Repr
      ensures |ts| == n
      decreases Repr, n
    {
      if n == 0 then [] else ItemsUpTo(n - 1) + [objects[n - 1].Value()]
    }

    ghost function Items(): (ts: seq<Tree>)
      requires Valid()
      reads this, Repr
      ensures |ts| == len
      decreases Repr, len + 1
    {
      ItemsUpTo(len)
    }

    /** The object nodes of the first `n` elements. */
    ghost function NodesUpTo(n: nat): (ns: set<ObjectNode>)
      requires Valid() && n <= len
      reads this, Repr
      ensures forall x :: x in ns ==> exists i :: 0 <= i < n && x in objects[i].Repr
      decreases Repr, n
    {
      if n == 0 then {} else NodesUpTo(n - 1) + objects[n - 1].Nodes()
    }

    /** ObjectArrayCreate with OBJECT_ARRAY_INITIAL_CAPACITY. */
    constructor ()
      ensures Valid() && fresh(Repr) && Items() == [] && len == 0
    {
      objects, len := new ObjectNode?[8](_ => null), 0;
      Repr := {this, objects};
    }
  }

  lemma {:induction false} ItemAt(a: ObjectArray, n: nat, i: nat)
    requires a.Valid() && i < n <= a.len
    ensures a.ItemsUpTo(n)[i] == a.objects[i].Value()
    decreases n
  {
    if i < n - 1 {
      ItemAt(a, n - 1, i);
    }
  }

  /** The items of an array are the values of its elements. */
  lemma ItemsAre(a: ObjectArray, ts: seq<Tree>)
    requires a.Valid() && |ts| == a.len && forall i :: 0 <= i < a.len ==> ts[i] == a.objects[i].Value()
    ensures a.Items() == ts
  {
    forall i | 0 <= i < a.len ensures a.Items()[i] == ts[i] {
      ItemAt(a, a.len, i);
    }
  }

  /** realloc to twice the capacity; the elements stay where they are. */
  method Grow(a: ObjectArray, m: Memory, n: nat) returns (ok: bool, n': nat)
    requires a.Valid()
    modifies a`objects, a`Repr
    ensures a.Valid() && a.Items() == old(a.Items()) && a.len == old(a.len)
    ensures a.Repr == old(a.Repr) || (fresh(a.objects) && a.Repr == old(a.Repr) + {a.objects})
    ensures n <= n' && (ok <==> Served(m, n, n'))
    ensures !ok ==> a.objects == old(a.objects) && a.Repr == old(a.Repr)
    ensures ok ==> a.len < a.objects.Length
    ensures a.objects == old(a.objects) || fresh(a.objects)
    ensures forall i :: 0 <= i < a.len ==> a.objects[i] == old(a.objects[i])
  {
    if a.len < a.objects.Length { return true, n; }
    ok, n' := m(n), n + 1;
    if !ok { return; }
    ghost var ts := a.Items();
    forall i | 0 <= i < a.len ensures ts[i] == a.objects[i].Value() { ItemAt(a, a.len, i); }
    var source, len := a.objects, a.len;
    var grown := new ObjectNode?[2 * source.Length](i requires i >= 0 reads source =>
                                                if i < len && i < source.Length then source[i] else null);
    a.objects := grown;
    a.Repr := a.Repr + {grown};
    ItemsAre(a, ts);
  }

  method CopyBytes(source: array<Byte>) returns (copy: array<Byte>)
    ensures fresh(copy) && copy[..] == source[..]
  {
    copy := new Byte[source.Length](i requires 0 <= i < source.Length reads source => source[i]);
  }

  /** ObjectCopy: null exactly when some allocation below it fails. */
  method ObjectCopy(v: ObjectNode, m: Memory, n: nat) returns (copy: ObjectNode?, n': nat)
    requires v.Valid()
    ensures n <= n' && (copy != null <==> Served(m, n, n'))
    ensures copy != null ==> copy.Valid() && fresh(copy.Repr) && copy.Value() == Copied(v.Value())
    decreases v.Repr, 0
  {
    hide ObjectArray.Valid;
    hide ObjectArray.Items;
    hide CopiedAll;
    n', copy := n + 1, null;
    if !m(n) { return; }
    if v.shape.SList? {
      var list;
      list, n' := ObjectArrayCopy(v.list, m, n');
      if list == null { return; }
      var none := new Byte[0];
      copy := new ObjectNode(SList, none, list);
    } else {
      copy, n' := CopyFlat(v, m, n');
    }
  }

  /** The cases of ObjectCopy that do not recurse. */
  method CopyFlat(v: ObjectNode, m: Memory, n: nat) returns (copy: ObjectNode?, n': nat)
    requires v.Valid() && !v.shape.SList?
    ensures n <= n' && (copy != null <==> Served(m, n, n'))
    ensures copy != null ==> copy.Valid() && fresh(copy.Repr) && copy.Value() == Copied(v.Value())
  {
    var bytes := new Byte[0];
    n', copy := n, null;
    if v.shape.SText? || v.shape.SBlob? {
      n' := n + 1;
      if !m(n) { return; }
      if v.shape.SBlob? && v.bytes.Length > 0 {
        n' := n + 2;
        if !m(n + 1) { return; }
      }
      bytes := CopyBytes(v.bytes);
    }
    copy := new ObjectNode(if v.shape.STable? then SScalar(NullMap) else v.shape, bytes, null);
  }

  /** ObjectArrayGet within bounds: the element node, which belongs to the array. */
  method ElementAt(a: ObjectArray, i: nat) returns (o: ObjectNode)
    requires a.Valid() && i < a.len
    ensures o.Valid() && o.Repr < a.Repr && a.Items()[i] == o.Value()
  {
    hide ObjectNode.Valid;
    hide ObjectNode.Value;
    ItemAt(a, a.len, i);
    o := a.objects[i];
  }

  /** ObjectArrayCopy: appends a copy of each element to a new array. */
  method ObjectArrayCopy(src: ObjectArray, m: Memory, n: nat) returns (dst: ObjectArray?, n': nat)
    requires src.Valid()
    ensures n <= n' && (dst != null <==> Served(m, n, n'))
    ensures dst != null ==> dst.Valid() && fresh(dst.Repr) && dst.Items() == CopiedAll(src.Items())
    decreases src.Repr, 3
  {
    hide CopiedAll;
    hide ObjectArray.Valid;
    hide ObjectArray.Items;
    n', dst := n + 1, null;
    if !m(n) { return; }
    n' := n + 2;
    if !m(n + 1) { return; }
    var made := new ObjectArray();
    var ok;
    ok, n' := AppendAll(made, src, m, n');
    if ok { dst := made; }
  }

  /** The loop of ObjectArrayCopy. */
  method AppendAll(made: ObjectArray, src: ObjectArray, m: Memory, n: nat) returns (ok: bool, n': nat)
    requires src.Valid() && made.Valid() && made.Items() == [] && src.Repr !! made.Repr
    modifies made, made.objects
    ensures made.Valid() && fresh(made.Repr - old(made.Repr))
    ensures n <= n' && (ok <==> Served(m, n, n'))
    ensures ok ==> made.Items() == CopiedAll(old(src.Items()))
    decreases src.Repr, 2
  {
    hide Copied;
    hide CopiedAll;
    hide ObjectNode.Valid;
    hide ObjectNode.Value;
    hide ObjectArray.Valid;
    hide ObjectArray.Items;
    n' := n;
    ghost var ts := src.Items();
    CopiedAllSteps(ts, 0);
    for i := 0 to src.len
      invariant src.Valid() && src.Items() == ts && src.Repr == old(src.Repr) && src.len == old(src.len)
      invariant made.Valid() && fresh(made.Repr - old(made.Repr))
      invariant made.objects == old(made.objects) || fresh(made.objects)
      invariant made.Items() == CopiedAll(ts[..i])
      invariant n <= n' && Served(m, n, n')
    {
      var o := ElementAt(src, i);
      CopiedAllSteps(ts, i);
      ok, n' := ObjectArrayAppend(made, o, m, n');
      if !ok { return; }
    }
    assert ts[..src.len] == ts;
    ok := true;
  }

  /**
   ObjectArrayAppend: grows if needed, then stores a copy.  It returns false exactly when an
   allocation failed, and then the contents are as before.
   */
  method ObjectArrayAppend(a: ObjectArray, obj: ObjectNode, m: Memory, n: nat) returns (ok: bool, n': nat)
    requires a.Valid() && obj.Valid() && a !in obj.Repr && a.objects !in obj.Repr
    modifies a, a.objects
    ensures a.Valid() && fresh(a.Repr - old(a.Repr))
    ensures a.objects == old(a.objects) || fresh(a.objects)
    ensures n <= n' && (ok <==> Served(m, n, n'))
    ensures a.Items() == old(a.Items()) + (if ok then [Copied(old(obj.Value()))] else [])
    decreases obj.Repr, 1
  {
    hide ObjectNode.Valid;
    hide ObjectNode.Value;
    hide Copied;
    ok, n' := Grow(a, m, n);
    if !ok { return; }
    var copy;
    copy, n' := ObjectCopy(obj, m, n');
    if copy == null { return false, n'; }
    Store(a, copy);
  }

  method Store(a: ObjectArray, o: ObjectNode)
    requires a.Valid() && a.len < a.objects.Length
    requires o.Valid() && a.Repr !! o.Repr
    modifies a`len, a`Repr, a.objects
    ensures a.Valid() && a.Repr == old(a.Repr) + o.Repr
    ensures a.Items() == old(a.Items()) + [old(o.Value())]
  {
    hide ObjectNode.Valid;
    hide ObjectNode.Value;
    ghost var ts := a.Items();
    forall i | 0 <= i < a.len ensures ts[i] == a.objects[i].Value() { ItemAt(a, a.len, i); }
    a.objects[a.len] := o;
    a.len := a.len + 1;
    a.Repr := a.Repr + o.Repr;
    ItemsAre(a, ts + [o.Value()]);
  }

  /**
   ObjectFree: every node of the tree is freed and nothing outside it is touched.  A freed node
   is not valid, so no node is freed twice.
   */
  method ObjectFree(o: ObjectNode)
    requires o.Valid()
    modifies o.Repr
    ensures forall x :: x in old(o.Nodes()) ==> x.shape.SFreed?
    decreases o.Repr, 0
  {
    hide ObjectArray.Valid;
    if o.shape.SList? {
      ObjectArrayFree(o.list);
    }
    o.shape := SFreed;
  }

  /** ObjectArrayFree: every node of every element is freed, each element while it is still whole. */
  method ObjectArrayFree(a: ObjectArray)
    requires a.Valid()
    modifies a.Repr
    ensures forall x :: x in old(a.NodesUpTo(a.len)) ==> x.shape.SFreed?
    decreases a.Repr, 1
  {
    hide ObjectNode.Valid;
    hide ObjectNode.Nodes;
    for i := 0 to a.len
      invariant unchanged(a) && unchanged(a.objects)
      invariant forall k :: i <= k < a.len ==> a.objects[k].Repr == old(a.objects[k].Repr) && a.objects[k].Valid()
      invariant forall k :: i <= k < a.len ==> a.objects[k].Nodes() == old(a.objects[k].Nodes())
      invariant forall x :: x in old(a.NodesUpTo(i)) ==> x.shape.SFreed?
    {
      ObjectFree(a.objects[i]);
    }
    a.len := 0;
  }

  /** Free one element; the others keep their nodes and their values. */
  method FreeElement(a: ObjectArray, index: nat)
    requires a.Valid() && index < a.len
    modifies a.objects[index].Repr
    ensures unchanged(a) && unchanged(a.objects) && a.ValidBut(index)
    ensures forall i :: 0 <= i < a.len && i != index ==>
      && a.objects[i].Valid() && a.objects[i].Repr == old(a.objects[i].Repr)
      && a.objects[i].Value() == old(a.objects[i].Value())
  {
    hide ObjectNode.Valid;
    hide ObjectNode.Value;
    ObjectFree(a.objects[index]);
  }

  /** ObjectArrayRemove: frees the element and closes the gap; false when there is none. */
  method ObjectArrayRemove(a: ObjectArray, index: nat) returns (ok: bool)
    requires a.Valid()
    modifies a.Repr
    ensures ok <==> index < old(a.len)
    ensures a.Valid() && a.Repr == old(a.Repr)
    ensures a.Items() == if ok then old(a.Items())[..index] + old(a.Items())[index + 1..] else old(a.Items())
  {
    if index >= a.len { return false; }
    hide ObjectNode.Valid;
    hide ObjectNode.Value;
    ghost var ts := a.Items();
    forall i | 0 <= i < a.len ensures ts[i] == a.objects[i].Value() { ItemAt(a, a.len, i); }
    FreeElement(a, index);
    Shift(a, index);
    hide ObjectArray.ItemsUpTo;
    ItemsAre(a, ts[..index] + ts[index + 1..]);
    ok := true;
  }

  /** Closing the gap makes the array whole again. */
  method Shift(a: ObjectArray, index: nat)
    requires a.ValidBut(index) && index < a.len
    modifies a`len, a.objects
    ensures a.Valid() && a.len == old(a.len) - 1
    ensures forall k :: 0 <= k < index ==>
      a.objects[k] == old(a.objects[k]) && a.objects[k].Value() == old(a.objects[k].Value())
    ensures forall k :: index <= k < a.len ==>
      a.objects[k] == old(a.objects[k + 1]) && a.objects[k].Value() == old(a.objects[k + 1].Value())
  {
    hide ObjectNode.Valid;
    hide ObjectNode.Value;
    CloseGap(a, index);
  }

  /** Shift everything after `index` down by one place and clear the last one. */
  method CloseGap(a: ObjectArray, index: nat)
    requires index < a.len <= a.objects.Length
    modifies a`len, a.objects
    ensures a.len == old(a.len) - 1
    ensures forall k :: 0 <= k < index ==> a.objects[k] == old(a.objects[k])
    ensures forall k :: index <= k < a.len ==> a.objects[k] == old(a.objects[k + 1])
  {
    for i := index to a.len - 1
      invariant a.len == old(a.len)
      invariant forall k :: 0 <= k < index ==> a.objects[k] == old(a.objects[k])
      invariant forall k :: index <= k < i ==> a.objects[k] == old(a.objects[k + 1])
      invariant forall k :: i <= k < a.len ==> a.objects[k] == old(a.objects[k])
    {
      a.objects[i] := a.objects[i + 1];
    }
    a.len := a.len - 1;
    a.objects[a.len] := null;
  }

  // ---------------------------------------------------------------- independence

  datatype Change = Append(obj: ObjectNode) | Remove(index: nat)

  /** Any run of appends and removes on one array leaves an array it shares no node with as it was. */
  method ChangeOne(a: ObjectArray, other: ObjectArray, changes: seq<Change>, m: Memory, n: nat) returns (n': nat)
    requires a.Valid() && other.Valid() && a.Repr !! other.Repr
    requires forall c <- changes :: c.Append? ==> c.obj.Valid() && c.obj.Repr !! a.Repr
    modifies a.Repr
    ensures a.Valid() && other.Valid() && a.Repr !! other.Repr && fresh(a.Repr - old(a.Repr))
    ensures other.Repr == old(other.Repr) && other.Items() == old(other.Items())
  {
    hide ObjectArray.Items;
    hide ObjectArray.Valid;
    hide ObjectNode.Valid;
    hide ObjectNode.Value;
    n' := n;
    for i := 0 to |changes|
      invariant a.Valid() && other.Valid() && a.Repr !! other.Repr && fresh(a.Repr - old(a.Repr))
      invariant other.Repr == old(other.Repr) && other.Items() == old(other.Items())
      invariant forall c <- changes :: c.Append? ==>
        c.obj.Valid() && c.obj.Repr == old(c.obj.Repr) && c.obj.Repr !! a.Repr
    {
      match changes[i] {
        case Append(o) => var ok; ok, n' := ObjectArrayAppend(a, o, m, n');
        case Remove(index) => var _ := ObjectArrayRemove(a, index);
      }
    }
  }

  /** ObjectArrayCopy, then any changes to the copy: the original keeps its value. */
  method ChangeCopy(src: ObjectArray, changes: seq<Change>, m: Memory, n: nat)
    returns (dst: ObjectArray?, n': nat)
    requires src.Valid() && forall c <- changes :: c.Append? ==> c.obj.Valid()
    ensures src.Valid() && src.Items() == old(src.Items()) && src.Repr == old(src.Repr)
    ensures dst != null ==> dst.Valid() && dst.Repr !! src.Repr
  {
    hide ObjectArray.Items;
    hide ObjectArray.Valid;
    hide ObjectNode.Valid;
    dst, n' := ObjectArrayCopy(src, m, n);
    if dst != null { n' := ChangeOne(dst, src, changes, m, n'); }
  }

  /** ObjectArrayCopy, then any changes to the original: the copy keeps its value. */
  method ChangeOriginal(src: ObjectArray, changes: seq<Change>, m: Memory, n: nat)
    returns (dst: ObjectArray?, n': nat)
    requires src.Valid() && forall c <- changes :: c.Append? ==> c.obj.Valid() && c.obj.Repr !! src.Repr
    modifies src.Repr
    ensures src.Valid()
    ensures dst != null ==> dst.Valid() && dst.Repr !! src.Repr && dst.Items() == CopiedAll(old(src.Items()))
  {
    hide ObjectArray.Items;
    hide ObjectArray.Valid;
    hide ObjectNode.Valid;
    dst, n' := ObjectArrayCopy(src, m, n);
    if dst != null { n' := ChangeOne(src, dst, changes, m, n'); }
  }
}
