/**
 The map operations of clients/cpp/src/proto/Object.cpp: a variant that becomes a vector of
 pairs on its first MapSet.
 */
module CppTable {
  import opened Wire
  import opened Trees
  import opened Tables

  class MapObject {
    var value: Tree

    /** The pairs; a value that is not a map has none. */
    function Entries(): seq<Entry>
      reads this
    {
      if value.Table? then value.entries else []
    }

    constructor (v: Tree)
      ensures value == v
    {
      value := v;
    }

    method MapSet(k: Tree, v: Tree) returns (ok: bool)
      modifies this
      ensures ok && value.Table?
      ensures Entries() == Assign(Cpp, old(Entries()), k, v)
    {
      hide CppEquals;
      if !value.Table? {
        value := Table([]);
      }
      var map_ := value.entries;
      for i := 0 to |map_|
        invariant value == Table(map_) && map_ == old(Entries())
        invariant forall j :: 0 <= j < i ==> !CppEquals(map_[j].key, k)
      {
        if CppEquals(map_[i].key, k) {
          IndexIs(Cpp, map_, k, i);
          value := Table(map_[i := Entry(map_[i].key, v)]);
          return true;
        }
      }
      IndexIs(Cpp, map_, k, |map_|);
      value := Table(map_ + [Entry(k, v)]);
      ok := true;
    }

    method MapGet(k: Tree) returns (v: Option<Tree>)
      ensures v == Lookup(Cpp, Entries(), k)
    {
      hide CppEquals;
      var map_ := Entries();
      for i := 0 to |map_|
        invariant forall j :: 0 <= j < i ==> !CppEquals(map_[j].key, k)
      {
        if CppEquals(map_[i].key, k) {
          IndexIs(Cpp, map_, k, i);
          return Some(map_[i].value);
        }
      }
      IndexIs(Cpp, map_, k, |map_|);
      v := None;
    }

    /** MapSet with a value that MapGet has just returned from the same table. */
    method MapSetFrom(k: Tree, source: Tree) returns (ok: bool)
      modifies this
      ensures (Entries(), Did(ok)) == Step(Cpp, old(Entries()), SetFrom(k, source, true))
    {
      hide Lookup;
      hide Assign;
      var v := MapGet(source);
      if v.None? { return false; }
      ok := MapSet(k, v.value);
    }

    /** remove_if, then erase of the tail if anything matched. */
    method MapRemove(k: Tree) returns (ok: bool)
      modifies this
      ensures ok <==> IndexOf(Cpp, old(Entries()), k) < |old(Entries())|
      ensures Entries() == Erase(Cpp, old(Entries()), k)
      ensures !ok ==> value == old(value)
    {
      if !value.Table? { return false; }
      var kept := RemoveIf(value.entries, k);
      WithoutKeyLength(value.entries, k);
      ok := |kept| < |value.entries|;
      if ok { value := Table(kept); }
    }
  }

  /** The pass of std::remove_if: keeps what does not match, in order. */
  method RemoveIf(ps: seq<Entry>, k: Tree) returns (kept: seq<Entry>)
    ensures kept == WithoutKey(ps, k)
  {
    hide CppEquals;
    kept := [];
    for i := 0 to |ps|
      invariant kept == WithoutKey(ps[..i], k)
    {
      assert ps[..i + 1][..i] == ps[..i];
      if !CppEquals(ps[i].key, k) { kept := kept + [ps[i]]; }
    }
    assert ps[..|ps|] == ps;
  }

  /** Nothing is kept away exactly when no key matches. */
  lemma WithoutKeyLength(ps: seq<Entry>, k: Tree)
    ensures |WithoutKey(ps, k)| <= |ps|
    ensures |WithoutKey(ps, k)| == |ps| <==> IndexOf(Cpp, ps, k) == |ps|
    ensures IndexOf(Cpp, ps, k) == |ps| ==> WithoutKey(ps, k) == ps
  {
    hide CppEquals;
    WithoutKeyShorter(ps, k);
    if IndexOf(Cpp, ps, k) == |ps| { WithoutNothing(ps, k); }
  }

  lemma {:induction false} WithoutKeyShorter(ps: seq<Entry>, k: Tree)
    ensures |WithoutKey(ps, k)| <= |ps|
    ensures forall i :: 0 <= i < |ps| && CppEquals(ps[i].key, k) ==> |WithoutKey(ps, k)| < |ps|
  {
    hide CppEquals;
    if ps != [] { WithoutKeyShorter(ps[..|ps| - 1], k); }
  }
}
