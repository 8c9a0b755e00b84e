/**
 The abstract values of source/msgpack/Object.c and clients/cpp/src/proto/Object.cpp: trees,
 what a copy keeps of one, and the two equalities that decide whether keys match.
 */
module Trees {
  import opened Wire

  datatype Tree =
    | Leaf(scalar: Scalar)
    | Text(chars: Bytes)
    | Blob(data: Bytes)
    | List(items: seq<Tree>)
    | Table(entries: seq<Entry>)

  datatype Entry = Entry(key: Tree, value: Tree)

  /** Payloads that live inside the Object struct, and the null pointers. */
  datatype Scalar =
    | Und | Nil | Bool(b: bool) | Int(i: Int64) | UInt(u: UInt64) | Float(f: UInt32) | Double(d: UInt64)
    | NullStr | NullBin | NullArray | NullMap

  /** What ObjectCopy carries over: everything, but a map loses its table. */
  function Copied(t: Tree): (c: Tree)
    decreases t, 1
  {
    match t
    case List(items) => List(CopiedAll(items))
    case Table(_) => Leaf(NullMap)
    case _ => t
  }

  function CopiedAll(ts: seq<Tree>): (cs: seq<Tree>)
    ensures |cs| == |ts|
    decreases ts, 0
  {
    if ts == [] then [] else CopiedAll(ts[..|ts| - 1]) + [Copied(ts[|ts| - 1])]
  }

  lemma CopiedAllSteps(ts: seq<Tree>, i: nat)
    requires i <= |ts|
    ensures CopiedAll(ts[..0]) == []
    ensures i < |ts| ==> CopiedAll(ts[..i + 1]) == CopiedAll(ts[..i]) + [Copied(ts[i])]
  {
    if i < |ts| {
      assert ts[..i + 1][..i] == ts[..i];
    }
  }

  /** No map with a table at any depth. */
  predicate MapFree(t: Tree)
  {
    match t
    case List(items) => forall k :: 0 <= k < |items| ==> MapFree(items[k])
    case Table(_) => false
    case _ => true
  }

  /** A copy equals its original exactly when no map in the tree has a table. */
  lemma {:induction false} CopyEqualIff(t: Tree)
    ensures Copied(t) == t <==> MapFree(t)
    decreases t, 1
  {
    if t.List? {
      CopyAllEqualIff(t.items);
    }
  }

  lemma {:induction false} CopyAllEqualIff(ts: seq<Tree>)
    ensures CopiedAll(ts) == ts <==> forall k :: 0 <= k < |ts| ==> MapFree(ts[k])
    decreases ts, 0
  {
    if ts != [] {
      var n := |ts| - 1;
      CopyEqualIff(ts[n]);
      CopyAllEqualIff(ts[..n]);
      assert ts == ts[..n] + [ts[n]];
      if CopiedAll(ts) == ts {
        assert CopiedAll(ts)[..n] == ts[..n];
      }
    }
  }

  /** What is copied once can be copied again without further loss. */
  lemma {:induction false} CopiedIsMapFree(t: Tree)
    ensures MapFree(Copied(t)) && Copied(Copied(t)) == Copied(t)
    decreases t, 1
  {
    if t.List? {
      CopiedAllIsMapFree(t.items);
    }
    CopyEqualIff(Copied(t));
  }

  lemma {:induction false} CopiedAllIsMapFree(ts: seq<Tree>)
    ensures forall k :: 0 <= k < |ts| ==> MapFree(CopiedAll(ts)[k])
    decreases ts, 0
  {
    if ts != [] {
      CopiedAllIsMapFree(ts[..|ts| - 1]);
      CopiedIsMapFree(ts[|ts| - 1]);
    }
  }

  // ---------------------------------------------------------------- equality of keys

  /** `==` on IEEE bit patterns with `sign` the weight of the sign bit: no NaN equals anything, the zeros are equal. */
  predicate IeeeEqual(a: nat, b: nat, sign: nat, infinity: nat)
    requires sign > 0
  {
    a % sign <= infinity && b % sign <= infinity && (a == b || (a % sign == 0 && b % sign == 0))
  }

  predicate FloatEqual(a: UInt32, b: UInt32) { IeeeEqual(a, b, 0x8000_0000, 0x7f80_0000) }

  predicate DoubleEqual(a: UInt64, b: UInt64) { IeeeEqual(a, b, 0x8000_0000_0000_0000, 0x7ff0_0000_0000_0000) }

  predicate ScalarEquals(a: Scalar, b: Scalar)
  {
    match (a, b)
    case (Bool(x), Bool(y)) => x == y
    case (Int(x), Int(y)) => x == y
    case (UInt(x), UInt(y)) => x == y
    case (Float(x), Float(y)) => FloatEqual(x, y)
    case (Double(x), Double(y)) => DoubleEqual(x, y)
    case (NullStr, NullStr) => true
    case _ => false
  }

  /** ObjectEquals of the C server: only scalars with a value and strings are ever equal. */
  predicate CEquals(a: Tree, b: Tree)
  {
    match (a, b)
    case (Text(s), Text(t)) => s == t
    case (Leaf(x), Leaf(y)) => ScalarEquals(x, y)
    case _ => false
  }

  /** operator== of the C++ client: every kind of value can be a key. */
  predicate CppEquals(a: Tree, b: Tree)
    decreases a
  {
    match (a, b)
    case (Text(s), Text(t)) => s == t
    case (Blob(s), Blob(t)) => s == t
    case (Leaf(Float(x)), Leaf(Float(y))) => FloatEqual(x, y)
    case (Leaf(Double(x)), Leaf(Double(y))) => DoubleEqual(x, y)
    case (Leaf(x), Leaf(y)) => x == y
    case (List(xs), List(ys)) => |xs| == |ys| && forall k :: 0 <= k < |xs| ==> CppEquals(xs[k], ys[k])
    case (Table(xs), Table(ys)) =>
      && |xs| == |ys|
      && (forall k :: 0 <= k < |xs| ==> CppEquals(xs[k].key, ys[k].key))
      && (forall k :: 0 <= k < |xs| ==> CppEquals(xs[k].value, ys[k].value))
    case _ => false
  }

  /** The keys a table is meant for: booleans, integers and strings. */
  predicate Plain(k: Tree)
  {
    match k
    case Text(_) => true
    case Leaf(s) => s.Bool? || s.Int? || s.UInt?
    case _ => false
  }

  // ---------------------------------------------------------------- what the equalities mean

  function Pow2(k: nat): (p: nat)
    ensures p > 0
  {
    if k == 0 then 1 else 2 * Pow2(k - 1)
  }

  /** The number behind the exponent and `p`-valued fraction of an IEEE format, in units of the smallest one. */
  function Scaled(bits: nat, p: nat): (n: nat)
    requires p > 0
  {
    if bits / p == 0 then bits % p else (p + bits % p) * Pow2(bits / p - 1)
  }

  lemma DivMod(n: nat, p: nat, q: nat, r: nat)
    requires n == p * q + r && r < p
    ensures n / p == q && n % p == r
  {
    Quotient(n, p, q, r);
  }

  lemma ScaledIs(bits: nat, p: nat, e: nat, m: nat)
    requires bits == p * e + m && m < p
    ensures Scaled(bits, p) == if e == 0 then m else (p + m) * Pow2(e - 1)
  {
    DivMod(bits, p, e, m);
  }

  /** Each pattern stands for a larger number than the one before it. */
  lemma ScaledIncreases(bits: nat, p: nat)
    requires p > 0
    ensures Scaled(bits, p) < Scaled(bits + 1, p)
  {
    hide Scaled;
    var e, m := bits / p, bits % p;
    assert bits == p * e + m;
    ScaledIs(bits, p, e, m);
    if m + 1 < p {
      ScaledIs(bits + 1, p, e, m + 1);
      if e > 0 { Grows(p + m, Pow2(e - 1)); }
    } else {
      assert p * (e + 1) == p * e + p;
      ScaledIs(bits + 1, p, e + 1, 0);
      if e > 0 { Carries(p, Pow2(e - 1)); }
    }
  }

  lemma Grows(x: nat, u: nat)
    requires u > 0
    ensures x * u < (x + 1) * u
  {
    assert (x + 1) * u == x * u + u;
  }

  lemma Carries(p: nat, u: nat)
    requires p > 0 && u > 0
    ensures (p + (p - 1)) * u < (p + 0) * (2 * u)
  {
    assert (p + (p - 1)) * u == 2 * (p * u) - u;
    assert (p + 0) * (2 * u) == 2 * (p * u);
  }

  lemma {:induction false} ScaledOrder(a: nat, b: nat, p: nat)
    requires p > 0 && a < b
    ensures Scaled(a, p) < Scaled(b, p)
    decreases b
  {
    hide Scaled;
    ScaledIncreases(b - 1, p);
    if a < b - 1 { ScaledOrder(a, b - 1, p); }
  }

  /** The signed number; the infinities come after the largest finite numbers. */
  function IeeeNumber(bits: nat, sign: nat, p: nat): (n: int)
    requires p > 0
  {
    if bits < sign then Scaled(bits, p) else -(Scaled(bits - sign, p) as int)
  }

  lemma IeeeEqualIsNumeric(a: nat, b: nat, sign: nat, infinity: nat, p: nat)
    requires p > 0 && 0 < sign && a < 2 * sign && b < 2 * sign
    ensures IeeeEqual(a, b, sign, infinity) <==>
              a % sign <= infinity && b % sign <= infinity && IeeeNumber(a, sign, p) == IeeeNumber(b, sign, p)
  {
    var x, y := if a < sign then a else a - sign, if b < sign then b else b - sign;
    Low(a, sign);
    Low(b, sign);
    assert Scaled(0, p) == 0 by { DivMod(0, p, 0, 0); }
    hide Scaled;
    if x < y { ScaledOrder(x, y, p); } else if y < x { ScaledOrder(y, x, p); }
    if x > 0 { ScaledOrder(0, x, p); }
    if y > 0 { ScaledOrder(0, y, p); }
  }

  lemma Low(a: nat, sign: nat)
    requires 0 < sign && a < 2 * sign
    ensures a % sign == if a < sign then a else a - sign
  {
    if a < sign { DivMod(a, sign, 0, a); } else { DivMod(a, sign, 1, a - sign); }
  }

  /** Floats are equal exactly when neither is a NaN and they stand for the same number. */
  lemma FloatEqualIff(a: UInt32, b: UInt32)
    ensures FloatEqual(a, b) <==>
              && a % 0x8000_0000 <= 0x7f80_0000 && b % 0x8000_0000 <= 0x7f80_0000
              && IeeeNumber(a, 0x8000_0000, 0x80_0000) == IeeeNumber(b, 0x8000_0000, 0x80_0000)
  {
    hide IeeeNumber;
    IeeeEqualIsNumeric(a, b, 0x8000_0000, 0x7f80_0000, 0x80_0000);
  }

  /** And so are doubles. */
  lemma DoubleEqualIff(a: UInt64, b: UInt64)
    ensures DoubleEqual(a, b) <==>
              && a % 0x8000_0000_0000_0000 <= 0x7ff0_0000_0000_0000
              && b % 0x8000_0000_0000_0000 <= 0x7ff0_0000_0000_0000
              && IeeeNumber(a, 0x8000_0000_0000_0000, 0x10_0000_0000_0000)
                 == IeeeNumber(b, 0x8000_0000_0000_0000, 0x10_0000_0000_0000)
  {
    hide IeeeNumber;
    IeeeEqualIsNumeric(a, b, 0x8000_0000_0000_0000, 0x7ff0_0000_0000_0000, 0x10_0000_0000_0000);
  }

  /** Apart from floats, ObjectEquals of the C server is equality on the kinds it compares. */
  lemma CEqualsIsEquality(a: Tree, b: Tree)
    requires FloatFree(a)
    ensures CEquals(a, b) <==> a == b && (a.Text? || (a.Leaf? && (a.scalar.Bool? || a.scalar.Int? || a.scalar.UInt?
                                                                  || a.scalar.NullStr?)))
  {
  }

  predicate FloatFree(t: Tree)
  {
    match t
    case Leaf(s) => !s.Float? && !s.Double?
    case List(items) => forall k :: 0 <= k < |items| ==> FloatFree(items[k])
    case Table(entries) => forall k :: 0 <= k < |entries| ==> FloatFree(entries[k].key) && FloatFree(entries[k].value)
    case _ => true
  }

  /** On trees without floats, operator== of the C++ client is equality. */
  lemma {:induction false} CppEqualsIsEquality(a: Tree, b: Tree)
    requires FloatFree(a)
    ensures CppEquals(a, b) <==> a == b
    decreases a
  {
    match (a, b)
    case (List(xs), List(ys)) =>
      forall k | 0 <= k < |xs| && k < |ys| ensures CppEquals(xs[k], ys[k]) <==> xs[k] == ys[k] {
        CppEqualsIsEquality(xs[k], ys[k]);
      }
      assert xs == ys <==> |xs| == |ys| && forall k :: 0 <= k < |xs| ==> xs[k] == ys[k];
    case (Table(xs), Table(ys)) =>
      forall k | 0 <= k < |xs| && k < |ys|
        ensures CppEquals(xs[k].key, ys[k].key) <==> xs[k].key == ys[k].key
        ensures CppEquals(xs[k].value, ys[k].value) <==> xs[k].value == ys[k].value
      {
        CppEqualsIsEquality(xs[k].key, ys[k].key);
        CppEqualsIsEquality(xs[k].value, ys[k].value);
      }
      assert xs == ys <==> |xs| == |ys| && forall k :: 0 <= k < |xs| ==> xs[k] == ys[k];
    case _ =>
  }

  /** Both equalities are symmetric on all trees. */
  lemma {:induction false} EqualsSymmetric(a: Tree, b: Tree)
    ensures CEquals(a, b) <==> CEquals(b, a)
    ensures CppEquals(a, b) <==> CppEquals(b, a)
    decreases a
  {
    match (a, b)
    case (List(xs), List(ys)) =>
      forall k | 0 <= k < |xs| && k < |ys| ensures CppEquals(xs[k], ys[k]) <==> CppEquals(ys[k], xs[k]) {
        EqualsSymmetric(xs[k], ys[k]);
      }
    case (Table(xs), Table(ys)) =>
      forall k | 0 <= k < |xs| && k < |ys|
        ensures CppEquals(xs[k].key, ys[k].key) <==> CppEquals(ys[k].key, xs[k].key)
        ensures CppEquals(xs[k].value, ys[k].value) <==> CppEquals(ys[k].value, xs[k].value)
      {
        EqualsSymmetric(xs[k].key, ys[k].key);
        EqualsSymmetric(xs[k].value, ys[k].value);
      }
    case _ =>
  }
}
