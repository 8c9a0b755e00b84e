/**
 Association tables as pair lists, for both languages, and the insertion-ordered finite map
 that they implement (source/msgpack/Object.c:413-565, clients/cpp/src/proto/Object.cpp:138-199).
 */
module Tables {
  import opened Wire
  import opened Trees

  /** The C server's table and the C++ client's table. */
  datatype Dialect = C | Cpp

  predicate Same(d: Dialect, a: Tree, b: Tree) { if d.C? then CEquals(a, b) else CppEquals(a, b) }

  /** What a table keeps of a key or value handed to it. */
  function Kept(d: Dialect, t: Tree): Tree { if d.C? then Copied(t) else t }

  /** The position of the first pair whose key matches, or the length of the list. */
  function IndexOf(d: Dialect, ps: seq<Entry>, k: Tree): (i: nat)
    ensures i <= |ps|
    ensures forall j :: 0 <= j < i ==> !Same(d, ps[j].key, k)
    ensures i < |ps| ==> Same(d, ps[i].key, k)
  {
    if ps == [] || Same(d, ps[0].key, k) then 0
    else
      var i := IndexOf(d, ps[1..], k);
      assert forall j :: 0 < j <= i ==> ps[j] == ps[1..][j - 1];
      1 + i
  }

  lemma IndexIs(d: Dialect, ps: seq<Entry>, k: Tree, i: nat)
    requires i <= |ps| && forall j :: 0 <= j < i ==> !Same(d, ps[j].key, k)
    requires i < |ps| ==> Same(d, ps[i].key, k)
    ensures IndexOf(d, ps, k) == i
  {
  }

  function Lookup(d: Dialect, ps: seq<Entry>, k: Tree): (v: Option<Tree>)
  {
    var i := IndexOf(d, ps, k);
    if i < |ps| then Some(ps[i].value) else None
  }

  function Assign(d: Dialect, ps: seq<Entry>, k: Tree, v: Tree): (qs: seq<Entry>)
  {
    var i := IndexOf(d, ps, k);
    if i < |ps| then ps[i := Entry(ps[i].key, Kept(d, v))] else ps + [Entry(Kept(d, k), Kept(d, v))]
  }

  /** Without the element at `i`, if there is one. */
  function CutAt<T>(s: seq<T>, i: nat): (r: seq<T>)
    ensures |r| == if i < |s| then |s| - 1 else |s|
    ensures forall j :: 0 <= j < |r| ==> r[j] == s[if j < i then j else j + 1]
  {
    if i < |s| then s[..i] + s[i + 1..] else s
  }

  lemma CutAtLast<T>(s: seq<T>, i: nat)
    requires s != []
    ensures CutAt(s, i) == if i == |s| - 1 then s[..|s| - 1] else CutAt(s[..|s| - 1], i) + [s[|s| - 1]]
  {
    hide CutAt;
    var r := if i == |s| - 1 then s[..|s| - 1] else CutAt(s[..|s| - 1], i) + [s[|s| - 1]];
    assert |CutAt(s, i)| == |r|;
    assert forall j :: 0 <= j < |r| ==> CutAt(s, i)[j] == r[j];
  }

  /** The C table removes the first match, the C++ one every match. */
  function Erase(d: Dialect, ps: seq<Entry>, k: Tree): (qs: seq<Entry>)
  {
    if d.Cpp? then WithoutKey(ps, k)
    else
      CutAt(ps, IndexOf(d, ps, k))
  }

  function WithoutKey(ps: seq<Entry>, k: Tree): (qs: seq<Entry>)
  {
    if ps == [] then []
    else
      var qs := WithoutKey(ps[..|ps| - 1], k);
      if CppEquals(ps[|ps| - 1].key, k) then qs else qs + [ps[|ps| - 1]]
  }

  // ---------------------------------------------------------------- distinct keys

  /** No key matches an earlier one. */
  predicate Distinct(d: Dialect, ps: seq<Entry>)
  {
    forall i, j :: 0 <= i < j < |ps| ==> !Same(d, ps[i].key, ps[j].key)
  }

  /** A copied key matches what the key itself matches. */
  lemma KeptKeyMatches(d: Dialect, a: Tree, k: Tree)
    ensures Same(d, a, Kept(d, k)) <==> Same(d, a, k)
  {
  }

  lemma AssignKeepsDistinct(d: Dialect, ps: seq<Entry>, k: Tree, v: Tree)
    requires Distinct(d, ps)
    ensures Distinct(d, Assign(d, ps, k, v))
  {
    hide Same;
    hide Kept;
    var i, qs := IndexOf(d, ps, k), Assign(d, ps, k, v);
    if i == |ps| {
      forall j | 0 <= j < |ps| ensures !Same(d, ps[j].key, Kept(d, k)) { KeptKeyMatches(d, ps[j].key, k); }
    }
    forall a, b | 0 <= a < b < |qs| ensures !Same(d, qs[a].key, qs[b].key) {
      assert b < |ps| ==> qs[a].key == ps[a].key && qs[b].key == ps[b].key;
    }
  }

  lemma {:induction false} WithoutKeyMembers(ps: seq<Entry>, k: Tree)
    ensures forall i :: 0 <= i < |WithoutKey(ps, k)| ==> WithoutKey(ps, k)[i] in ps
  {
    hide CppEquals;
    if ps != [] {
      WithoutKeyMembers(ps[..|ps| - 1], k);
    }
  }

  lemma {:induction false} WithoutKeyDistinct(ps: seq<Entry>, k: Tree)
    requires Distinct(Cpp, ps)
    ensures Distinct(Cpp, WithoutKey(ps, k))
  {
    hide CppEquals;
    if ps != [] {
      var n := |ps| - 1;
      WithoutKeyDistinct(ps[..n], k);
      WithoutKeyMembers(ps[..n], k);
      AppendDistinct(ps[..n], WithoutKey(ps[..n], k), ps[n]);
    }
  }

  /** Some pairs of a list can be followed by what can follow the list. */
  lemma AppendDistinct(ps: seq<Entry>, qs: seq<Entry>, e: Entry)
    requires Distinct(Cpp, ps + [e]) && Distinct(Cpp, qs) && forall i :: 0 <= i < |qs| ==> qs[i] in ps
    ensures Distinct(Cpp, qs + [e])
  {
    hide CppEquals;
    forall i | 0 <= i < |qs| ensures !Same(Cpp, qs[i].key, e.key) {
      var j :| 0 <= j < |ps| && ps[j] == qs[i];
      assert (ps + [e])[j] == qs[i] && (ps + [e])[|ps|] == e;
    }
  }

  lemma EraseKeepsDistinct(d: Dialect, ps: seq<Entry>, k: Tree)
    requires Distinct(d, ps)
    ensures Distinct(d, Erase(d, ps, k))
  {
    hide CEquals;
    hide CppEquals;
    if d.Cpp? {
      WithoutKeyDistinct(ps, k);
    }
  }

  // ---------------------------------------------------------------- which keys can be found

  /** A double or float that is not a number. */
  predicate IsNan(t: Tree)
  {
    match t
    case Leaf(Float(x)) => x % 0x8000_0000 > 0x7f80_0000
    case Leaf(Double(x)) => x % 0x8000_0000_0000_0000 > 0x7ff0_0000_0000_0000
    case _ => false
  }

  predicate NanFree(t: Tree)
  {
    match t
    case List(items) => forall k :: 0 <= k < |items| ==> NanFree(items[k])
    case Table(entries) => forall k :: 0 <= k < |entries| ==> NanFree(entries[k].key) && NanFree(entries[k].value)
    case _ => !IsNan(t)
  }

  /** Keys that a lookup can find again, by their kind. */
  predicate Findable(d: Dialect, k: Tree)
  {
    if d.Cpp? then NanFree(k)
    else match k
      case Text(_) => true
      case Leaf(s) => s.Bool? || s.Int? || s.UInt? || s.NullStr? || ((s.Float? || s.Double?) && !IsNan(k))
      case _ => false
  }

  lemma {:induction false} CppReflexive(k: Tree)
    ensures CppEquals(k, k) <==> NanFree(k)
    decreases k
  {
    match k
    case List(items) =>
      forall i | 0 <= i < |items| ensures CppEquals(items[i], items[i]) <==> NanFree(items[i]) {
        CppReflexive(items[i]);
      }
    case Table(entries) =>
      forall i | 0 <= i < |entries| ensures CppEquals(entries[i].key, entries[i].key) <==> NanFree(entries[i].key) {
        CppReflexive(entries[i].key);
      }
      forall i | 0 <= i < |entries|
        ensures CppEquals(entries[i].value, entries[i].value) <==> NanFree(entries[i].value)
      {
        CppReflexive(entries[i].value);
      }
    case _ =>
  }

  lemma {:induction false} CppEqualIsNanFree(a: Tree, b: Tree)
    requires CppEquals(a, b)
    ensures NanFree(b)
    decreases a
  {
    match (a, b)
    case (List(xs), List(ys)) =>
      forall i | 0 <= i < |ys| ensures NanFree(ys[i]) { CppEqualIsNanFree(xs[i], ys[i]); }
    case (Table(xs), Table(ys)) =>
      forall i | 0 <= i < |ys| ensures NanFree(ys[i].key) && NanFree(ys[i].value) {
        CppEqualIsNanFree(xs[i].key, ys[i].key);
        CppEqualIsNanFree(xs[i].value, ys[i].value);
      }
    case _ =>
  }

  lemma MatchesOnlyFindable(d: Dialect, a: Tree, k: Tree)
    ensures Same(d, k, k) <==> Findable(d, k)
    ensures Same(d, a, k) ==> Findable(d, k)
  {
    if d.Cpp? {
      CppReflexive(k);
      if CppEquals(a, k) { CppEqualIsNanFree(a, k); }
    }
  }

  /**
   After a set, a get of the same key finds the value exactly when the key's kind can be
   compared; otherwise every set of it adds another pair that no get or remove ever reaches.
   */
  lemma AssignThenLookup(d: Dialect, ps: seq<Entry>, k: Tree, v: Tree)
    ensures Lookup(d, Assign(d, ps, k, v), k) == if Findable(d, k) then Some(Kept(d, v)) else None
    ensures !Findable(d, k) ==>
              var qs := Assign(d, ps, k, v); |qs| == |ps| + 1 && Erase(d, qs, k) == qs
  {
    hide CEquals;
    hide CppEquals;
    hide Findable;
    hide Kept;
    var i, qs := IndexOf(d, ps, k), Assign(d, ps, k, v);
    forall j | 0 <= j < |qs| ensures Same(d, qs[j].key, k) ==> Findable(d, k) { MatchesOnlyFindable(d, qs[j].key, k); }
    forall j | 0 <= j < |ps| ensures Same(d, ps[j].key, k) ==> Findable(d, k) { MatchesOnlyFindable(d, ps[j].key, k); }
    MatchesOnlyFindable(d, k, k);
    if Findable(d, k) {
      if i == |ps| { KeptFindable(d, k); }
      IndexIs(d, qs, k, i);
    } else {
      IndexIs(d, qs, k, |qs|);
      if d.Cpp? { WithoutNothing(qs, k); }
    }
  }

  lemma KeptFindable(d: Dialect, k: Tree)
    requires Findable(d, k)
    ensures Kept(d, k) == k
  {
  }

  lemma {:induction false} WithoutNothing(ps: seq<Entry>, k: Tree)
    requires forall j :: 0 <= j < |ps| ==> !CppEquals(ps[j].key, k)
    ensures WithoutKey(ps, k) == ps
  {
    if ps != [] {
      WithoutNothing(ps[..|ps| - 1], k);
    }
  }

  /** Nil is such a key for the C table: two sets leave two pairs, where the C++ table has one. */
  lemma NilKeyTwice(v: Scalar, w: Scalar)
    ensures var nil := Leaf(Nil);
            && Assign(C, Assign(C, [], nil, Leaf(v)), nil, Leaf(w)) == [Entry(nil, Leaf(v)), Entry(nil, Leaf(w))]
            && Assign(Cpp, Assign(Cpp, [], nil, Leaf(v)), nil, Leaf(w)) == [Entry(nil, Leaf(w))]
  {
    var nil, ps := Leaf(Nil), [Entry(Leaf(Nil), Leaf(v))];
    assert IndexOf(C, ps, nil) == 1;
    assert IndexOf(Cpp, ps, nil) == 0;
  }

  // ---------------------------------------------------------------- the ordered map

  /** An insertion-ordered finite map. */
  datatype OrderedMap = OrderedMap(order: seq<Tree>, content: map<Tree, Tree>)

  ghost predicate WellFormed(m: OrderedMap)
  {
    && (forall k :: k in m.order <==> k in m.content)
    && (forall i, j :: 0 <= i < j < |m.order| ==> m.order[i] != m.order[j])
    && (forall k :: k in m.content ==> Plain(k))
  }

  function Put(m: OrderedMap, k: Tree, v: Tree): OrderedMap
  {
    OrderedMap(if k in m.content then m.order else m.order + [k], m.content[k := v])
  }

  function Delete(m: OrderedMap, k: Tree): OrderedMap
  {
    OrderedMap(WithoutTree(m.order, k), m.content - {k})
  }

  function WithoutTree(ks: seq<Tree>, k: Tree): seq<Tree>
  {
    if ks == [] then []
    else if ks[|ks| - 1] == k then WithoutTree(ks[..|ks| - 1], k)
    else WithoutTree(ks[..|ks| - 1], k) + [ks[|ks| - 1]]
  }

  /** The pair list, oldest key first. */
  ghost function Listing(m: OrderedMap): (ps: seq<Entry>)
    requires WellFormed(m)
  {
    seq(|m.order|, i requires 0 <= i < |m.order| =>
      assert m.order[i] in m.order; Entry(m.order[i], m.content[m.order[i]]))
  }

  /** On the keys tables are meant for, both languages' comparisons are equality. */
  lemma PlainKeys(d: Dialect, a: Tree, k: Tree)
    requires Plain(k)
    ensures Same(d, a, k) <==> a == k
    ensures Kept(d, k) == k
  {
  }

  lemma ListingIndex(d: Dialect, m: OrderedMap, k: Tree) returns (i: nat)
    requires WellFormed(m) && Plain(k)
    ensures i == IndexOf(d, Listing(m), k)
    ensures i < |m.order| <==> k in m.content
    ensures i < |m.order| ==> m.order[i] == k
  {
    hide Same;
    var ps := Listing(m);
    i := IndexOf(d, ps, k);
    forall j | 0 <= j < |ps| ensures Same(d, ps[j].key, k) <==> m.order[j] == k { PlainKeys(d, ps[j].key, k); }
  }

  lemma LookupRefines(d: Dialect, m: OrderedMap, k: Tree)
    requires WellFormed(m) && Plain(k)
    ensures Lookup(d, Listing(m), k) == if k in m.content then Some(m.content[k]) else None
  {
    var i := ListingIndex(d, m, k);
  }

  lemma PutWellFormed(m: OrderedMap, k: Tree, v: Tree)
    requires WellFormed(m) && Plain(k)
    ensures WellFormed(Put(m, k, v))
  {
    hide Plain;
    var m' := Put(m, k, v);
    assert k !in m.content ==> m'.order[|m.order|] == k && k !in m.order;
    forall x ensures x in m'.order <==> x in m'.content {
      assert x in m.order <==> x in m.content;
    }
  }

  lemma AssignRefines(d: Dialect, m: OrderedMap, k: Tree, v: Tree)
    requires WellFormed(m) && Plain(k)
    ensures WellFormed(Put(m, k, Kept(d, v)))
    ensures Assign(d, Listing(m), k, v) == Listing(Put(m, k, Kept(d, v)))
  {
    hide Kept;
    hide IndexOf;
    hide Plain;
    PlainKeys(d, k, k);
    PutWellFormed(m, k, Kept(d, v));
    var i := ListingIndex(d, m, k);
    var ps, qs := Assign(d, Listing(m), k, v), Listing(Put(m, k, Kept(d, v)));
    forall j | 0 <= j < |qs| ensures ps[j] == qs[j] {
      assert j < |m.order| ==> m.order[j] in m.content;
    }
  }

  lemma {:induction false} WithoutTreeOnce(ks: seq<Tree>, k: Tree, i: nat)
    requires i < |ks| ==> ks[i] == k
    requires i <= |ks| && forall j :: 0 <= j < |ks| && j != i ==> ks[j] != k
    ensures WithoutTree(ks, k) == CutAt(ks, i)
  {
    if ks != [] {
      var n := |ks| - 1;
      hide CutAt;
      CutAtLast(ks, i);
      WithoutTreeOnce(ks[..n], k, if i < n then i else n);
    }
  }

  lemma {:induction false} WithoutKeyOnce(ps: seq<Entry>, k: Tree, i: nat)
    requires i < |ps| ==> CppEquals(ps[i].key, k)
    requires i <= |ps| && forall j :: 0 <= j < |ps| && j != i ==> !CppEquals(ps[j].key, k)
    ensures WithoutKey(ps, k) == CutAt(ps, i)
  {
    if ps != [] {
      var n := |ps| - 1;
      hide CppEquals;
      hide CutAt;
      CutAtLast(ps, i);
      WithoutKeyOnce(ps[..n], k, if i < n then i else n);
    }
  }

  lemma EraseOnce(d: Dialect, ps: seq<Entry>, k: Tree, i: nat)
    requires i == IndexOf(d, ps, k) && forall j :: 0 <= j < |ps| && j != i ==> !Same(d, ps[j].key, k)
    ensures Erase(d, ps, k) == CutAt(ps, i)
  {
    hide CEquals;
    hide CppEquals;
    if d.Cpp? { WithoutKeyOnce(ps, k, i); }
  }

  lemma EraseRefines(d: Dialect, m: OrderedMap, k: Tree)
    requires WellFormed(m) && Plain(k)
    ensures WellFormed(Delete(m, k))
    ensures Erase(d, Listing(m), k) == Listing(Delete(m, k))
  {
    hide Same;
    hide IndexOf;
    hide Erase;
    hide WithoutTree;
    var i := ListingIndex(d, m, k);
    var ps := Listing(m);
    forall j | 0 <= j < |ps| ensures Same(d, ps[j].key, k) <==> m.order[j] == k { PlainKeys(d, ps[j].key, k); }
    EraseOnce(d, ps, k, i);
    WithoutTreeOnce(m.order, k, i);
    DeleteWellFormed(m, k, i);
    CutListing(m, k, i);
  }

  lemma CutListing(m: OrderedMap, k: Tree, i: nat)
    requires WellFormed(m) && WellFormed(Delete(m, k)) && WithoutTree(m.order, k) == CutAt(m.order, i)
    ensures Listing(Delete(m, k)) == CutAt(Listing(m), i)
  {
    hide WithoutTree;
    hide CutAt;
    var m' := Delete(m, k);
    forall j | 0 <= j < |m'.order| ensures Listing(m')[j] == CutAt(Listing(m), i)[j] {
      assert m'.order[j] in m'.order;
    }
  }

  lemma CutAtDistinct(s: seq<Tree>, i: nat, x: Tree)
    requires i <= |s| && forall a, b :: 0 <= a < b < |s| ==> s[a] != s[b]
    ensures x in CutAt(s, i) <==> x in s && (i < |s| ==> x != s[i])
  {
    hide CutAt;
    if x in s {
      var j :| 0 <= j < |s| && s[j] == x;
      if j != i { assert CutAt(s, i)[if j < i then j else j - 1] == x; }
    }
    if x in CutAt(s, i) {
      var j :| 0 <= j < |CutAt(s, i)| && CutAt(s, i)[j] == x;
      assert x == s[if j < i then j else j + 1];
    }
  }

  lemma DeleteWellFormed(m: OrderedMap, k: Tree, i: nat)
    requires WellFormed(m) && i <= |m.order|
    requires (i < |m.order| <==> k in m.content) && (i < |m.order| ==> m.order[i] == k)
    requires WithoutTree(m.order, k) == CutAt(m.order, i)
    ensures WellFormed(Delete(m, k))
  {
    hide CutAt;
    hide WithoutTree;
    var m' := Delete(m, k);
    forall x ensures x in m'.order <==> x in m'.content {
      CutAtDistinct(m.order, i, x);
    }
  }

  // ---------------------------------------------------------------- every run

  /** `memory` says whether a C set gets the memory it asks for; SetFrom sets a value read from the table. */
  datatype Op =
    | Set(key: Tree, value: Tree, memory: bool)
    | SetFrom(key: Tree, source: Tree, memory: bool)
    | Get(key: Tree)
    | Remove(key: Tree)

  datatype Answer = Did(ok: bool) | Found(value: Option<Tree>)

  /** One operation on the pair list. */
  function Step(d: Dialect, ps: seq<Entry>, op: Op): (r: (seq<Entry>, Answer))
  {
    match op
    case Set(k, v, memory) => if memory then (Assign(d, ps, k, v), Did(true)) else (ps, Did(false))
    case SetFrom(k, s, memory) =>
      var v := Lookup(d, ps, s);
      if v.Some? && memory then (Assign(d, ps, k, v.value), Did(true)) else (ps, Did(false))
    case Get(k) => (ps, Found(Lookup(d, ps, k)))
    case Remove(k) => (Erase(d, ps, k), Did(IndexOf(d, ps, k) < |ps|))
  }

  /** The same operation on the ordered map, which keeps every value it is given. */
  function MapStep(m: OrderedMap, op: Op): (r: (OrderedMap, Answer))
  {
    match op
    case Set(k, v, memory) => if memory then (Put(m, k, v), Did(true)) else (m, Did(false))
    case SetFrom(k, s, memory) =>
      if s in m.content && memory then (Put(m, k, m.content[s]), Did(true)) else (m, Did(false))
    case Get(k) => (m, Found(if k in m.content then Some(m.content[k]) else None))
    case Remove(k) => (Delete(m, k), Did(k in m.content))
  }

  function Run(d: Dialect, ps: seq<Entry>, ops: seq<Op>): (r: (seq<Entry>, seq<Answer>))
    decreases |ops|
  {
    if ops == [] then (ps, [])
    else
      var (qs, a) := Step(d, ps, ops[0]);
      var (rs, answers) := Run(d, qs, ops[1..]);
      (rs, [a] + answers)
  }

  function MapRun(m: OrderedMap, ops: seq<Op>): (r: (OrderedMap, seq<Answer>))
    decreases |ops|
  {
    if ops == [] then (m, [])
    else
      var (m', a) := MapStep(m, ops[0]);
      var (m'', answers) := MapRun(m', ops[1..]);
      (m'', [a] + answers)
  }

  /** Plain keys, values that the dialect keeps whole, and no exception out of a C++ allocation. */
  predicate Fair(d: Dialect, op: Op)
  {
    && Plain(op.key)
    && (op.SetFrom? ==> Plain(op.source))
    && (op.Set? ==> Kept(d, op.value) == op.value)
    && (d.Cpp? && (op.Set? || op.SetFrom?) ==> op.memory)
  }

  ghost predicate Good(d: Dialect, m: OrderedMap)
  {
    WellFormed(m) && forall k :: k in m.content ==> Kept(d, m.content[k]) == m.content[k]
  }

  lemma StepRefines(d: Dialect, m: OrderedMap, op: Op)
    requires Good(d, m) && Fair(d, op)
    ensures Good(d, MapStep(m, op).0)
    ensures Step(d, Listing(m), op) == (Listing(MapStep(m, op).0), MapStep(m, op).1)
  {
    hide WellFormed;
    hide Listing;
    hide Kept;
    hide IndexOf;
    match op
    case Set(k, v, _) => AssignRefines(d, m, k, v);
    case SetFrom(k, s, _) =>
      LookupRefines(d, m, s);
      if s in m.content { AssignRefines(d, m, k, m.content[s]); }
    case Get(k) => LookupRefines(d, m, k);
    case Remove(k) =>
      EraseRefines(d, m, k);
      LookupRefines(d, m, k);
  }

  /** Over every run both tables give the answers and hold the pairs of the ordered map. */
  lemma {:induction false} RunRefines(d: Dialect, m: OrderedMap, ops: seq<Op>)
    requires Good(d, m) && forall op <- ops :: Fair(d, op)
    ensures Good(d, MapRun(m, ops).0)
    ensures Run(d, Listing(m), ops) == (Listing(MapRun(m, ops).0), MapRun(m, ops).1)
    decreases |ops|
  {
    hide Good;
    hide Fair;
    hide Listing;
    hide Step;
    hide MapStep;
    if ops != [] {
      GoodIsWellFormed(d, m);
      StepRefines(d, m, ops[0]);
      RunRefines(d, MapStep(m, ops[0]).0, ops[1..]);
    }
  }

  lemma GoodIsWellFormed(d: Dialect, m: OrderedMap)
    requires Good(d, m)
    ensures WellFormed(m)
  {
  }

  /** Each pair list the ordered map reaches has distinct keys and determines the map. */
  lemma ListingFaithful(m: OrderedMap)
    requires WellFormed(m)
    ensures forall i, j :: 0 <= i < j < |Listing(m)| ==> Listing(m)[i].key != Listing(m)[j].key
    ensures forall k, v :: Entry(k, v) in Listing(m) <==> k in m.content && m.content[k] == v
  {
    var ps := Listing(m);
    forall k, v ensures Entry(k, v) in ps <==> k in m.content && m.content[k] == v {
      if k in m.content && m.content[k] == v {
        var i :| 0 <= i < |m.order| && m.order[i] == k;
        assert ps[i] == Entry(k, v);
      }
    }
  }

  /** From empty tables, for values without maps, the two languages answer alike and hold the same pairs. */
  lemma LanguagesAgree(ops: seq<Op>)
    requires forall op <- ops :: Plain(op.key) && (op.SetFrom? ==> Plain(op.source) && op.memory)
                                   && (op.Set? ==> MapFree(op.value) && op.memory)
    ensures Run(C, [], ops) == Run(Cpp, [], ops)
  {
    hide Run;
    hide MapRun;
    hide Plain;
    forall op <- ops ensures Fair(C, op) && Fair(Cpp, op) {
      if op.Set? { CopyEqualIff(op.value); }
    }
    var empty := OrderedMap([], map[]);
    RunRefines(C, empty, ops);
    RunRefines(Cpp, empty, ops);
    assert Listing(empty) == [];
  }

  /** Whatever the keys, no run makes a key match an earlier one. */
  lemma {:induction false} RunKeepsDistinct(d: Dialect, ps: seq<Entry>, ops: seq<Op>)
    requires Distinct(d, ps)
    ensures Distinct(d, Run(d, ps, ops).0)
    decreases |ops|
  {
    if ops != [] {
      StepKeepsDistinct(d, ps, ops[0]);
      hide Step;
      hide Distinct;
      RunKeepsDistinct(d, Step(d, ps, ops[0]).0, ops[1..]);
    }
  }

  lemma StepKeepsDistinct(d: Dialect, ps: seq<Entry>, op: Op)
    requires Distinct(d, ps)
    ensures Distinct(d, Step(d, ps, op).0)
  {
    hide Distinct;
    hide Assign;
    hide Erase;
    match op
    case Set(k, v, _) => AssignKeepsDistinct(d, ps, k, v);
    case SetFrom(k, s, _) =>
      var v := Lookup(d, ps, s);
      if v.Some? { AssignKeepsDistinct(d, ps, k, v.value); }
    case Get(_) =>
    case Remove(k) => EraseKeepsDistinct(d, ps, k);
  }

  // ---------------------------------------------------------------- copying a C table

  /** ObjectMapTableCopy when memory lasts: set every pair, in order, in a new table. */
  function CopyTable(ps: seq<Entry>): (qs: seq<Entry>)
  {
    if ps == [] then []
    else Assign(C, CopyTable(ps[..|ps| - 1]), ps[|ps| - 1].key, ps[|ps| - 1].value)
  }

  function CopiedEntry(e: Entry): Entry { Entry(Copied(e.key), Copied(e.value)) }

  predicate CopiesEach(ps: seq<Entry>, qs: seq<Entry>)
  {
    |ps| == |qs| && forall i :: 0 <= i < |ps| ==> qs[i] == CopiedEntry(ps[i])
  }

  lemma CopiedMatchesLess(a: Tree, k: Tree)
    requires CEquals(Copied(a), k)
    ensures CEquals(a, k)
  {
  }

  /** Because no key matches an earlier one, the copy has a copy of each pair in its place. */
  lemma {:induction false} CopyTableReproduces(ps: seq<Entry>)
    requires Distinct(C, ps)
    ensures CopiesEach(ps, CopyTable(ps))
  {
    if ps != [] {
      var n := |ps| - 1;
      CopyTableReproduces(ps[..n]);
      hide CEquals;
      hide Copied;
      var qs := CopyTable(ps[..n]);
      forall j | 0 <= j < n ensures !Same(C, qs[j].key, ps[n].key) {
        assert !Same(C, ps[j].key, ps[n].key);
        assert qs[j] == CopiedEntry(ps[j]);
        if CEquals(qs[j].key, ps[n].key) { CopiedMatchesLess(ps[j].key, ps[n].key); }
      }
      IndexIs(C, qs, ps[n].key, n);
    }
  }

  /** The copy is the original exactly when no pair holds a map. */
  lemma CopyTableExact(ps: seq<Entry>)
    requires Distinct(C, ps)
    ensures CopyTable(ps) == ps <==> forall i :: 0 <= i < |ps| ==> MapFree(ps[i].key) && MapFree(ps[i].value)
  {
    CopyTableReproduces(ps);
    hide CopyTable;
    hide Copied;
    forall i | 0 <= i < |ps| ensures CopyTable(ps)[i] == ps[i] <==> MapFree(ps[i].key) && MapFree(ps[i].value) {
      CopyEqualIff(ps[i].key);
      CopyEqualIff(ps[i].value);
    }
  }

  /** Every table that a run of the C operations reaches is copied exactly. */
  lemma ReachedTableCopiesExactly(ops: seq<Op>)
    ensures CopyTable(Run(C, [], ops).0) == Run(C, [], ops).0
  {
    RunKeepsDistinct(C, [], ops);
    RunKeepsMapFree([], ops);
    CopyTableExact(Run(C, [], ops).0);
  }

  predicate AllMapFree(ps: seq<Entry>) { forall i :: 0 <= i < |ps| ==> MapFree(ps[i].key) && MapFree(ps[i].value) }

  lemma {:induction false} RunKeepsMapFree(ps: seq<Entry>, ops: seq<Op>)
    requires AllMapFree(ps)
    ensures AllMapFree(Run(C, ps, ops).0)
    decreases |ops|
  {
    if ops != [] {
      StepKeepsMapFree(ps, ops[0]);
      hide Step;
      hide AllMapFree;
      RunKeepsMapFree(Step(C, ps, ops[0]).0, ops[1..]);
    }
  }

  lemma StepKeepsMapFree(ps: seq<Entry>, op: Op)
    requires AllMapFree(ps)
    ensures AllMapFree(Step(C, ps, op).0)
  {
    hide AllMapFree;
    hide Assign;
    hide Erase;
    match op
    case Set(k, v, _) => AssignKeepsMapFree(ps, k, v);
    case SetFrom(k, s, _) =>
      var v := Lookup(C, ps, s);
      if v.Some? { AssignKeepsMapFree(ps, k, v.value); }
    case Get(_) =>
    case Remove(k) => EraseKeepsMapFree(ps, k);
  }

  lemma AssignKeepsMapFree(ps: seq<Entry>, k: Tree, v: Tree)
    requires AllMapFree(ps)
    ensures AllMapFree(Assign(C, ps, k, v))
  {
    hide MapFree;
    hide IndexOf;
    hide Copied;
    CopiedIsMapFree(k);
    CopiedIsMapFree(v);
  }

  lemma EraseKeepsMapFree(ps: seq<Entry>, k: Tree)
    requires AllMapFree(ps)
    ensures AllMapFree(Erase(C, ps, k))
  {
    hide MapFree;
    hide IndexOf;
    hide CutAt;
  }
}
