/**
 The MessagePack byte layer that mpack gives to every codec of Haze: big-endian
 fields, the tag grammar (first byte plus an optional fixed-width field), the
 shortest-form writer and the in-memory reader with its sticky error flag.
 The byte constants are those of source/msgpack/Tag.h.
 */
module Wire {

  type Byte = b: int | 0 <= b < 256
  type Bytes = seq<Byte>
  type UInt32 = n: int | 0 <= n < 0x1_0000_0000
  type UInt64 = n: int | 0 <= n < 0x1_0000_0000_0000_0000
  type Int64 = n: int | -0x8000_0000_0000_0000 <= n < 0x8000_0000_0000_0000

  const UINT32_LIMIT: nat := 0x1_0000_0000
  const UINT64_LIMIT: nat := 0x1_0000_0000_0000_0000

  datatype Option<+T> = None | Some(value: T)

  // ---------------------------------------------------------------- big endian

  function Pow256(k: nat): (p: nat)
    ensures p > 0
  {
    if k == 0 then 1 else 256 * Pow256(k - 1)
  }

  /** The `k` low-order bytes of `n`, most significant first. */
  function BigEndian(n: nat, k: nat): (s: Bytes)
    ensures |s| == k
  {
    if k == 0 then [] else BigEndian(n / 256, k - 1) + [n % 256]
  }

  function FromBigEndian(s: Bytes): (n: nat)
    ensures n < Pow256(|s|)
  {
    if s == [] then 0 else FromBigEndian(s[..|s| - 1]) * 256 + s[|s| - 1]
  }

  lemma {:induction false} BigEndianRoundTrip(n: nat, k: nat)
    requires n < Pow256(k)
    ensures FromBigEndian(BigEndian(n, k)) == n
  {
    if k > 0 {
      BigEndianRoundTrip(n / 256, k - 1);
      assert BigEndian(n, k)[..k - 1] == BigEndian(n / 256, k - 1);
    }
  }

  /** Every field is the big-endian form of the number it stands for. */
  lemma {:induction false} BigEndianOnto(s: Bytes)
    ensures BigEndian(FromBigEndian(s), |s|) == s
  {
    if s != [] {
      var front, last := s[..|s| - 1], s[|s| - 1];
      BigEndianOnto(front);
      LastDigit(FromBigEndian(front), last);
      assert s == front + [last];
    }
  }

  lemma LastDigit(n: nat, d: Byte)
    ensures (n * 256 + d) / 256 == n && (n * 256 + d) % 256 == d
  {
  }

  /** The byte at place `j` is the digit of weight 256^(k-1-j). */
  lemma {:induction false} BigEndianDigit(n: nat, k: nat, j: nat)
    requires j < k
    ensures BigEndian(n, k)[j] == n / Pow256(k - 1 - j) % 256
  {
    if j < k - 1 {
      BigEndianDigit(n / 256, k - 1, j);
      DivideTwice(n, Pow256(k - 2 - j));
    }
  }

  lemma DivideTwice(n: nat, p: nat)
    requires p > 0
    ensures n / 256 / p == n / (256 * p)
  {
    var q := n / 256;
    Quotient(q, p, q / p, q % p);
    var r := 256 * (q % p) + n % 256;
    assert (256 * p) * (q / p) == 256 * (p * (q / p));
    Quotient(n, 256 * p, q / p, r);
  }

  lemma Quotient(n: nat, d: nat, q: nat, r: nat)
    requires n == d * q + r && r < d
    ensures n / d == q
  {
    var q' := n / d;
    assert n == d * q' + n % d;
    if q' > q { StepApart(d, q, q'); } else if q' < q { StepApart(d, q', q); }
  }

  lemma {:induction false} StepApart(d: nat, a: nat, b: nat)
    requires a < b
    ensures d * a + d <= d * b
    decreases b
  {
    assert d * b == d * (b - 1) + d;
    if a < b - 1 { StepApart(d, a, b - 1); }
  }

  lemma Widths()
    ensures Pow256(1) == 0x100 && Pow256(2) == 0x1_0000
    ensures Pow256(4) == UINT32_LIMIT && Pow256(8) == UINT64_LIMIT
  {
    assert Pow256(3) == 256 * Pow256(2);
    assert Pow256(4) == 256 * Pow256(3);
    assert Pow256(5) == 256 * Pow256(4);
    assert Pow256(6) == 256 * Pow256(5);
    assert Pow256(7) == 256 * Pow256(6);
    assert Pow256(8) == 256 * Pow256(7);
  }

  // ---------------------------------------------------------------- tags

  /** What mpack_read_tag yields; strings, binaries and arrays carry only their size. */
  datatype Tag =
    | TNil
    | TBool(b: bool)
    | TInt(i: Int64)
    | TUInt(u: UInt64)
    | TFloat(f: UInt32)
    | TDouble(d: UInt64)
    | TStr(strLen: UInt32)
    | TBin(binLen: UInt32)
    | TArray(count: UInt32)
    | TMap(pairs: UInt32)

  /** The signed integers a tag can carry are negative once they have been on the wire. */
  function WireTag(t: Tag): (w: Tag)
  {
    if t.TInt? && t.i >= 0 then TUInt(t.i) else t
  }

  datatype Field = FUInt | FInt | FFloat | FDouble | FStr | FBin | FArray | FMap

  /** What the first byte of a value says: the whole tag, a field to follow, or an error. */
  datatype Head = Immediate(tag: Tag) | Sized(field: Field, width: nat) | Unsupported

  predicate Width(w: nat) { w == 1 || w == 2 || w == 4 || w == 8 }

  /** mpack_parse_tag's switch on the first byte, extensions disabled. */
  function HeadOf(b: Byte): (h: Head)
    ensures h.Sized? ==> Width(h.width)
    ensures h.Sized? ==> h.field !in {FUInt, FInt, FDouble} ==> h.width != 8
    ensures h.Sized? && h.field == FFloat ==> h.width == 4
    ensures h.Sized? && h.field == FDouble ==> h.width == 8
    ensures h.Sized? && h.field in {FArray, FMap} ==> h.width == 2 || h.width == 4
  {
    if b < 0x80 then Immediate(TUInt(b))
    else if b < 0x90 then Immediate(TMap(b - 0x80))
    else if b < 0xa0 then Immediate(TArray(b - 0x90))
    else if b < 0xc0 then Immediate(TStr(b - 0xa0))
    else if b >= 0xe0 then Immediate(TInt(b - 0x100))
    else if b == 0xc0 then Immediate(TNil)
    else if b == 0xc2 then Immediate(TBool(false))
    else if b == 0xc3 then Immediate(TBool(true))
    else if b == 0xc4 then Sized(FBin, 1)
    else if b == 0xc5 then Sized(FBin, 2)
    else if b == 0xc6 then Sized(FBin, 4)
    else if b == 0xca then Sized(FFloat, 4)
    else if b == 0xcb then Sized(FDouble, 8)
    else if b == 0xcc then Sized(FUInt, 1)
    else if b == 0xcd then Sized(FUInt, 2)
    else if b == 0xce then Sized(FUInt, 4)
    else if b == 0xcf then Sized(FUInt, 8)
    else if b == 0xd0 then Sized(FInt, 1)
    else if b == 0xd1 then Sized(FInt, 2)
    else if b == 0xd2 then Sized(FInt, 4)
    else if b == 0xd3 then Sized(FInt, 8)
    else if b == 0xd9 then Sized(FStr, 1)
    else if b == 0xda then Sized(FStr, 2)
    else if b == 0xdb then Sized(FStr, 4)
    else if b == 0xdc then Sized(FArray, 2)
    else if b == 0xdd then Sized(FArray, 4)
    else if b == 0xde then Sized(FMap, 2)
    else if b == 0xdf then Sized(FMap, 4)
    else Unsupported
  }

  /** Two's complement reading of a `w`-byte field. */
  function Signed(raw: nat, w: nat): (i: int)
  {
    if 2 * raw < Pow256(w) then raw else raw - Pow256(w)
  }

  function FieldTag(field: Field, w: nat, raw: nat): (t: Tag)
    requires Width(w) && raw < Pow256(w)
    requires field !in {FUInt, FInt, FDouble} ==> w != 8
    requires field == FFloat ==> w == 4
  {
    Widths();
    match field
    case FUInt => TUInt(raw)
    case FInt => TInt(Signed(raw, w))
    case FFloat => TFloat(raw)
    case FDouble => TDouble(raw)
    case FStr => TStr(raw)
    case FBin => TBin(raw)
    case FArray => TArray(raw)
    case FMap => TMap(raw)
  }

  /** A tag and the number of bytes it takes, or None when the bytes run out or are not a tag. */
  function ParseTag(s: Bytes): (r: Option<(Tag, nat)>)
    ensures r.Some? ==> 0 < r.value.1 <= |s|
  {
    if s == [] then None else
    match HeadOf(s[0])
    case Immediate(t) => Some((t, 1))
    case Sized(field, w) =>
      if |s| < 1 + w then None
      else Some((FieldTag(field, w, FromBigEndian(s[1..1 + w])), 1 + w))
    case Unsupported => None
  }

  // ---------------------------------------------------------------- shortest-form writer

  function WriteUInt(u: UInt64): (s: Bytes)
  {
    if u < 0x80 then [u]
    else if u < 0x100 then [0xcc] + BigEndian(u, 1)
    else if u < 0x1_0000 then [0xcd] + BigEndian(u, 2)
    else if u < 0x1_0000_0000 then [0xce] + BigEndian(u, 4)
    else [0xcf] + BigEndian(u, 8)
  }

  function WriteInt(i: Int64): (s: Bytes)
  {
    if i >= 0 then WriteUInt(i)
    else if i >= -32 then [i + 0x100]
    else if i >= -0x80 then [0xd0] + BigEndian(i + 0x100, 1)
    else if i >= -0x8000 then [0xd1] + BigEndian(i + 0x1_0000, 2)
    else if i >= -0x8000_0000 then [0xd2] + BigEndian(i + 0x1_0000_0000, 4)
    else [0xd3] + BigEndian(i + 0x1_0000_0000_0000_0000, 8)
  }

  function WriteTag(t: Tag): (s: Bytes)
    ensures s != []
  {
    match t
    case TNil => [0xc0]
    case TBool(b) => if b then [0xc3] else [0xc2]
    case TInt(i) => WriteInt(i)
    case TUInt(u) => WriteUInt(u)
    case TFloat(f) => [0xca] + BigEndian(f, 4)
    case TDouble(d) => [0xcb] + BigEndian(d, 8)
    case TStr(n) =>
      if n < 0x20 then [0xa0 + n]
      else if n < 0x100 then [0xd9] + BigEndian(n, 1)
      else if n < 0x1_0000 then [0xda] + BigEndian(n, 2)
      else [0xdb] + BigEndian(n, 4)
    case TBin(n) =>
      if n < 0x100 then [0xc4] + BigEndian(n, 1)
      else if n < 0x1_0000 then [0xc5] + BigEndian(n, 2)
      else [0xc6] + BigEndian(n, 4)
    case TArray(n) =>
      if n < 0x10 then [0x90 + n]
      else if n < 0x1_0000 then [0xdc] + BigEndian(n, 2)
      else [0xdd] + BigEndian(n, 4)
    case TMap(n) =>
      if n < 0x10 then [0x80 + n]
      else if n < 0x1_0000 then [0xde] + BigEndian(n, 2)
      else [0xdf] + BigEndian(n, 4)
  }

  lemma SizedRoundTrip(head: Byte, field: Field, w: nat, raw: nat, tail: Bytes)
    requires HeadOf(head) == Sized(field, w) && raw < Pow256(w)
    ensures ParseTag([head] + BigEndian(raw, w) + tail) == Some((FieldTag(field, w, raw), 1 + w))
  {
    hide HeadOf;
    hide FieldTag;
    hide Pow256;
    var s := [head] + BigEndian(raw, w) + tail;
    BigEndianRoundTrip(raw, w);
    hide BigEndian;
    assert s[1..1 + w] == BigEndian(raw, w);
  }

  lemma UIntRoundTrip(u: UInt64, tail: Bytes)
    ensures ParseTag(WriteUInt(u) + tail) == Some((TUInt(u), |WriteUInt(u)|))
  {
    Widths();
    if u < 0x80 {
    } else if u < 0x100 {
      SizedRoundTrip(0xcc, FUInt, 1, u, tail);
    } else if u < 0x1_0000 {
      SizedRoundTrip(0xcd, FUInt, 2, u, tail);
    } else if u < 0x1_0000_0000 {
      SizedRoundTrip(0xce, FUInt, 4, u, tail);
    } else {
      SizedRoundTrip(0xcf, FUInt, 8, u, tail);
    }
  }

  /** A negative number in a field of `w` bytes. */
  lemma SignedRoundTrip(head: Byte, w: nat, i: Int64, tail: Bytes)
    requires i < 0 && HeadOf(head) == Sized(FInt, w) && 0 <= 2 * i + Pow256(w)
    ensures ParseTag([head] + BigEndian(i + Pow256(w), w) + tail) == Some((TInt(i), 1 + w))
  {
    hide HeadOf;
    hide ParseTag;
    SizedRoundTrip(head, FInt, w, i + Pow256(w), tail);
  }

  lemma FixedNegative(i: Int64, tail: Bytes)
    requires -32 <= i < 0
    ensures ParseTag(WriteInt(i) + tail) == Some((TInt(i), |WriteInt(i)|))
  {
  }

  lemma IntHeads()
    ensures HeadOf(0xd0) == Sized(FInt, 1) && HeadOf(0xd1) == Sized(FInt, 2)
    ensures HeadOf(0xd2) == Sized(FInt, 4) && HeadOf(0xd3) == Sized(FInt, 8)
  {
  }

  /** The head and the width of a negative number that does not fit the head itself. */
  lemma NegativeForm(i: Int64) returns (head: Byte, w: nat)
    requires i < -32
    ensures HeadOf(head) == Sized(FInt, w) && 0 <= 2 * i + Pow256(w)
    ensures WriteInt(i) == [head] + BigEndian(i + Pow256(w), w)
  {
    Widths();
    IntHeads();
    hide HeadOf;
    hide Pow256;
    hide BigEndian;
    head, w := if i >= -0x80 then 0xd0 else if i >= -0x8000 then 0xd1 else if i >= -0x8000_0000 then 0xd2 else 0xd3,
      if i >= -0x80 then 1 else if i >= -0x8000 then 2 else if i >= -0x8000_0000 then 4 else 8;
  }

  lemma NegativeRoundTrip(i: Int64, tail: Bytes)
    requires i < 0
    ensures ParseTag(WriteInt(i) + tail) == Some((TInt(i), |WriteInt(i)|))
  {
    hide ParseTag;
    hide BigEndian;
    hide HeadOf;
    hide WriteInt;
    hide Pow256;
    if i >= -32 {
      FixedNegative(i, tail);
    } else {
      var head, w := NegativeForm(i);
      SignedRoundTrip(head, w, i, tail);
      assert |WriteInt(i)| == 1 + w;
    }
  }

  lemma StrTagRoundTrip(n: UInt32, tail: Bytes)
    ensures ParseTag(WriteTag(TStr(n)) + tail) == Some((TStr(n), |WriteTag(TStr(n))|))
  {
    Widths();
    if n < 0x20 {
    } else if n < 0x100 {
      SizedRoundTrip(0xd9, FStr, 1, n, tail);
    } else if n < 0x1_0000 {
      SizedRoundTrip(0xda, FStr, 2, n, tail);
    } else {
      SizedRoundTrip(0xdb, FStr, 4, n, tail);
    }
  }

  lemma BinTagRoundTrip(n: UInt32, tail: Bytes)
    ensures ParseTag(WriteTag(TBin(n)) + tail) == Some((TBin(n), |WriteTag(TBin(n))|))
  {
    Widths();
    if n < 0x100 {
      SizedRoundTrip(0xc4, FBin, 1, n, tail);
    } else if n < 0x1_0000 {
      SizedRoundTrip(0xc5, FBin, 2, n, tail);
    } else {
      SizedRoundTrip(0xc6, FBin, 4, n, tail);
    }
  }

  lemma ArrayTagRoundTrip(n: UInt32, tail: Bytes)
    ensures ParseTag(WriteTag(TArray(n)) + tail) == Some((TArray(n), |WriteTag(TArray(n))|))
  {
    Widths();
    if n < 0x10 {
    } else if n < 0x1_0000 {
      SizedRoundTrip(0xdc, FArray, 2, n, tail);
    } else {
      SizedRoundTrip(0xdd, FArray, 4, n, tail);
    }
  }

  lemma MapTagRoundTrip(n: UInt32, tail: Bytes)
    ensures ParseTag(WriteTag(TMap(n)) + tail) == Some((TMap(n), |WriteTag(TMap(n))|))
  {
    Widths();
    if n < 0x10 {
    } else if n < 0x1_0000 {
      SizedRoundTrip(0xde, FMap, 2, n, tail);
    } else {
      SizedRoundTrip(0xdf, FMap, 4, n, tail);
    }
  }

  /** Every tag is read back as its wire form, from exactly its own bytes, whatever follows. */
  lemma TagRoundTrip(t: Tag, tail: Bytes)
    ensures ParseTag(WriteTag(t) + tail) == Some((WireTag(t), |WriteTag(t)|))
  {
    Widths();
    match t
    case TNil =>
    case TBool(_) =>
    case TInt(i) => if i >= 0 { UIntRoundTrip(i, tail); } else { NegativeRoundTrip(i, tail); }
    case TUInt(u) => UIntRoundTrip(u, tail);
    case TFloat(f) => SizedRoundTrip(0xca, FFloat, 4, f, tail);
    case TDouble(d) => SizedRoundTrip(0xcb, FDouble, 8, d, tail);
    case TStr(n) => StrTagRoundTrip(n, tail);
    case TBin(n) => BinTagRoundTrip(n, tail);
    case TArray(n) => ArrayTagRoundTrip(n, tail);
    case TMap(n) => MapTagRoundTrip(n, tail);
  }

  /** More input never changes a tag that was already complete. */
  lemma ParseTagExtends(s: Bytes, more: Bytes)
    requires ParseTag(s).Some?
    ensures ParseTag(s + more) == ParseTag(s)
  {
    var h := HeadOf(s[0]);
    assert (s + more)[0] == s[0];
    if h.Sized? {
      assert (s + more)[1..1 + h.width] == s[1..1 + h.width];
    }
  }

  /** A tag is read from its own bytes alone. */
  lemma ParseTagLocal(s: Bytes, k: nat)
    requires ParseTag(s).Some? && ParseTag(s).value.1 <= k <= |s|
    ensures ParseTag(s[..k]) == ParseTag(s)
  {
    var h := HeadOf(s[0]);
    if h.Sized? {
      assert s[..k][1..1 + h.width] == s[1..1 + h.width];
    }
  }

  /** The writer is the shortest form: no tag can be read from fewer bytes than it is written in. */
  lemma WriteTagShortest(s: Bytes)
    requires ParseTag(s).Some?
    ensures |WriteTag(ParseTag(s).value.0)| <= ParseTag(s).value.1
  {
    match HeadOf(s[0])
    case Immediate(_) =>
    case Sized(field, w) => FieldTagShortest(field, w, FromBigEndian(s[1..1 + w]));
  }

  lemma FieldTagShortest(field: Field, w: nat, raw: nat)
    requires Width(w) && raw < Pow256(w) && (field == FDouble ==> w == 8) && (field == FFloat ==> w == 4)
    requires (field in {FStr, FBin, FFloat} ==> w != 8) && (field in {FArray, FMap} ==> w == 2 || w == 4)
    ensures |WriteTag(FieldTag(field, w, raw))| <= 1 + w
  {
    Widths();
    hide BigEndian;
    if field == FInt { IntShortest(w, Signed(raw, w)); }
  }

  lemma IntShortest(w: nat, i: Int64)
    requires Width(w) && 0 <= 2 * i + Pow256(w) && 2 * i < Pow256(w)
    ensures |WriteInt(i)| <= 1 + w
  {
    Widths();
    hide BigEndian;
  }

  // ---------------------------------------------------------------- the formats

  /** A number of either sign as the unsigned number with the same low bits. */
  function TwosComplement(i: int, modulus: nat): (u: int)
  {
    if i < 0 then i + modulus else i
  }

  /** The bytes `b` are one of the formats of the value `t`, in any width it fits. */
  predicate Spells(b: Bytes, t: Tag)
  {
    match t
    case TNil => b == [0xc0]
    case TBool(x) => b == if x then [0xc3] else [0xc2]
    case TUInt(u) =>
      || (u < 0x80 && b == [u])
      || (u < 0x100 && b == [0xcc] + BigEndian(u, 1))
      || (u < 0x1_0000 && b == [0xcd] + BigEndian(u, 2))
      || (u < 0x1_0000_0000 && b == [0xce] + BigEndian(u, 4))
      || b == [0xcf] + BigEndian(u, 8)
    case TInt(i) =>
      || (-0x20 <= i < 0 && b == [i + 0x100])
      || (-0x80 <= i < 0x80 && b == [0xd0] + BigEndian(TwosComplement(i, 0x100), 1))
      || (-0x8000 <= i < 0x8000 && b == [0xd1] + BigEndian(TwosComplement(i, 0x1_0000), 2))
      || (-0x8000_0000 <= i < 0x8000_0000 && b == [0xd2] + BigEndian(TwosComplement(i, 0x1_0000_0000), 4))
      || b == [0xd3] + BigEndian(TwosComplement(i, 0x1_0000_0000_0000_0000), 8)
    case TFloat(f) => b == [0xca] + BigEndian(f, 4)
    case TDouble(d) => b == [0xcb] + BigEndian(d, 8)
    case TStr(n) =>
      || (n < 0x20 && b == [0xa0 + n])
      || (n < 0x100 && b == [0xd9] + BigEndian(n, 1))
      || (n < 0x1_0000 && b == [0xda] + BigEndian(n, 2))
      || b == [0xdb] + BigEndian(n, 4)
    case TBin(n) =>
      || (n < 0x100 && b == [0xc4] + BigEndian(n, 1))
      || (n < 0x1_0000 && b == [0xc5] + BigEndian(n, 2))
      || b == [0xc6] + BigEndian(n, 4)
    case TArray(n) =>
      || (n < 0x10 && b == [0x90 + n])
      || (n < 0x1_0000 && b == [0xdc] + BigEndian(n, 2))
      || b == [0xdd] + BigEndian(n, 4)
    case TMap(n) =>
      || (n < 0x10 && b == [0x80 + n])
      || (n < 0x1_0000 && b == [0xde] + BigEndian(n, 2))
      || b == [0xdf] + BigEndian(n, 4)
  }

  lemma SpellsSomething(b: Bytes, t: Tag)
    requires Spells(b, t)
    ensures b != []
  {
    hide BigEndian;
  }

  lemma SpelledUInt(u: UInt64, b: Bytes, tail: Bytes)
    requires Spells(b, TUInt(u))
    ensures ParseTag(b + tail) == Some((TUInt(u), |b|))
  {
    Widths();
    if u < 0x80 && b == [u] {
    } else {
      hide BigEndian;
      if u < 0x100 && b == [0xcc] + BigEndian(u, 1) {
        SizedRoundTrip(0xcc, FUInt, 1, u, tail);
      } else if u < 0x1_0000 && b == [0xcd] + BigEndian(u, 2) {
        SizedRoundTrip(0xcd, FUInt, 2, u, tail);
      } else if u < 0x1_0000_0000 && b == [0xce] + BigEndian(u, 4) {
        SizedRoundTrip(0xce, FUInt, 4, u, tail);
      } else {
        SizedRoundTrip(0xcf, FUInt, 8, u, tail);
      }
    }
  }

  /** A signed number in a field of `w` bytes, whatever its sign. */
  lemma SpelledField(head: Byte, w: nat, i: Int64, tail: Bytes)
    requires HeadOf(head) == Sized(FInt, w) && 0 <= 2 * i + Pow256(w) && 2 * i < Pow256(w)
    ensures ParseTag([head] + BigEndian(TwosComplement(i, Pow256(w)), w) + tail) == Some((TInt(i), 1 + w))
  {
    hide HeadOf;
    hide ParseTag;
    hide BigEndian;
    hide Pow256;
    SizedRoundTrip(head, FInt, w, TwosComplement(i, Pow256(w)), tail);
  }

  lemma SpelledInt(i: Int64, b: Bytes, tail: Bytes)
    requires Spells(b, TInt(i))
    ensures ParseTag(b + tail) == Some((TInt(i), |b|))
  {
    Widths();
    if -0x20 <= i < 0 && b == [i + 0x100] {
    } else {
      IntHeads();
      hide ParseTag;
      hide HeadOf;
      hide BigEndian;
      if -0x80 <= i < 0x80 && b == [0xd0] + BigEndian(TwosComplement(i, 0x100), 1) {
        SpelledField(0xd0, 1, i, tail);
      } else if -0x8000 <= i < 0x8000 && b == [0xd1] + BigEndian(TwosComplement(i, 0x1_0000), 2) {
        SpelledField(0xd1, 2, i, tail);
      } else if -0x8000_0000 <= i < 0x8000_0000 && b == [0xd2] + BigEndian(TwosComplement(i, 0x1_0000_0000), 4) {
        SpelledField(0xd2, 4, i, tail);
      } else {
        SpelledField(0xd3, 8, i, tail);
      }
    }
  }

  lemma SizeHeads()
    ensures HeadOf(0xd9) == Sized(FStr, 1) && HeadOf(0xda) == Sized(FStr, 2) && HeadOf(0xdb) == Sized(FStr, 4)
    ensures HeadOf(0xc4) == Sized(FBin, 1) && HeadOf(0xc5) == Sized(FBin, 2) && HeadOf(0xc6) == Sized(FBin, 4)
    ensures HeadOf(0xdc) == Sized(FArray, 2) && HeadOf(0xdd) == Sized(FArray, 4)
    ensures HeadOf(0xde) == Sized(FMap, 2) && HeadOf(0xdf) == Sized(FMap, 4)
  {
  }

  lemma SpelledStr(n: UInt32, b: Bytes, tail: Bytes)
    requires Spells(b, TStr(n))
    ensures ParseTag(b + tail) == Some((TStr(n), |b|))
  {
    Widths();
    if n < 0x20 && b == [0xa0 + n] {
    } else {
      SizeHeads();
      hide BigEndian;
      hide HeadOf;
      hide ParseTag;
      hide Pow256;
      if n < 0x100 && b == [0xd9] + BigEndian(n, 1) {
        SizedRoundTrip(0xd9, FStr, 1, n, tail);
      } else if n < 0x1_0000 && b == [0xda] + BigEndian(n, 2) {
        SizedRoundTrip(0xda, FStr, 2, n, tail);
      } else {
        SizedRoundTrip(0xdb, FStr, 4, n, tail);
      }
    }
  }

  lemma SpelledBin(n: UInt32, b: Bytes, tail: Bytes)
    requires Spells(b, TBin(n))
    ensures ParseTag(b + tail) == Some((TBin(n), |b|))
  {
    Widths();
    SizeHeads();
    hide BigEndian;
    hide HeadOf;
    hide ParseTag;
    hide Pow256;
    if n < 0x100 && b == [0xc4] + BigEndian(n, 1) {
      SizedRoundTrip(0xc4, FBin, 1, n, tail);
    } else if n < 0x1_0000 && b == [0xc5] + BigEndian(n, 2) {
      SizedRoundTrip(0xc5, FBin, 2, n, tail);
    } else {
      SizedRoundTrip(0xc6, FBin, 4, n, tail);
    }
  }

  lemma SpelledCount(t: Tag, b: Bytes, tail: Bytes)
    requires (t.TArray? || t.TMap?) && Spells(b, t)
    ensures ParseTag(b + tail) == Some((t, |b|))
  {
    Widths();
    if |b| > 1 {
      SizeHeads();
      hide BigEndian;
      hide HeadOf;
      hide ParseTag;
      hide Pow256;
      match t
      case TArray(n) => SizedRoundTrip(b[0], FArray, |b| - 1, n, tail);
      case TMap(n) => SizedRoundTrip(b[0], FMap, |b| - 1, n, tail);
    }
  }

  /** Every format of every value is read as that value, from exactly its own bytes. */
  lemma SpelledParses(t: Tag, b: Bytes, tail: Bytes)
    requires Spells(b, t)
    ensures ParseTag(b + tail) == Some((t, |b|))
  {
    match t
    case TNil =>
    case TBool(_) =>
    case TUInt(u) => SpelledUInt(u, b, tail);
    case TInt(i) => SpelledInt(i, b, tail);
    case TFloat(f) => Widths(); SizedRoundTrip(0xca, FFloat, 4, f, tail);
    case TDouble(d) => Widths(); SizedRoundTrip(0xcb, FDouble, 8, d, tail);
    case TStr(n) => SpelledStr(n, b, tail);
    case TBin(n) => SpelledBin(n, b, tail);
    case _ => SpelledCount(t, b, tail);
  }

  lemma FieldSpells(head: Byte, field: Field, w: nat, raw: nat)
    requires HeadOf(head) == Sized(field, w) && raw < Pow256(w)
    ensures Spells([head] + BigEndian(raw, w), FieldTag(field, w, raw))
  {
    Widths();
    hide BigEndian;
    if field == FInt {
      SignedRaw(raw, w);
    }
  }

  lemma SignedRaw(raw: nat, w: nat)
    requires raw < Pow256(w)
    ensures TwosComplement(Signed(raw, w), Pow256(w)) == raw
    ensures 0 <= 2 * Signed(raw, w) + Pow256(w) && 2 * Signed(raw, w) < Pow256(w)
  {
    hide Pow256;
  }

  lemma FixedSpells(b: Byte)
    requires HeadOf(b).Immediate?
    ensures Spells([b], HeadOf(b).tag)
  {
    hide BigEndian;
  }

  lemma ParsedIsSpelled(s: Bytes)
    requires ParseTag(s).Some?
    ensures Spells(s[..ParseTag(s).value.1], ParseTag(s).value.0)
  {
    match HeadOf(s[0])
    case Immediate(t) =>
      assert s[..1] == [s[0]];
      FixedSpells(s[0]);
    case Sized(field, w) =>
      hide Spells;
      hide HeadOf;
      hide FieldTag;
      var body := s[1..1 + w];
      BigEndianOnto(body);
      FieldSpells(s[0], field, w, FromBigEndian(body));
      hide BigEndian;
      assert s[..1 + w] == [s[0]] + body;
  }

  /** What the writer writes is one of the formats of what is read back. */
  lemma WriteTagSpells(t: Tag)
    ensures Spells(WriteTag(t), WireTag(t))
  {
    hide Spells;
    hide ParseTag;
    hide WriteTag;
    var b := WriteTag(t);
    assert b + [] == b && b[..|b|] == b;
    TagRoundTrip(t, []);
    ParsedIsSpelled(b);
  }

  /** Reading a tag is exactly recognising one of its formats at the front. */
  lemma ParseTagIff(s: Bytes, t: Tag, n: nat)
    ensures ParseTag(s) == Some((t, n)) <==> n <= |s| && Spells(s[..n], t)
  {
    hide ParseTag;
    hide Spells;
    if ParseTag(s) == Some((t, n)) { ParsedIsSpelled(s); }
    if n <= |s| && Spells(s[..n], t) {
      assert s[..n] + s[n..] == s;
      SpelledParses(t, s[..n], s[n..]);
    }
  }

  // ---------------------------------------------------------------- reader state

  /**
   The part of an mpack reader a codec can observe: the unread bytes and the
   error flag.  Flagging an error moves `end` to `data`, so nothing is left.
   */
  datatype Reader = Reader(rest: Bytes, error: bool) {
    ghost predicate Valid() { error ==> rest == [] }

    /** The same reader over a longer buffer. */
    function Extend(more: Bytes): (r: Reader)
    {
      Reader(rest + more, error)
    }

    /** The same reader without the last `k` bytes. */
    function Drop(k: nat): (r: Reader)
      requires k <= |rest|
    {
      Reader(rest[..|rest| - k], error)
    }
  }

  const FAILED: Reader := Reader([], true)

  /** mpack_read_tag: nil once the reader has failed. */
  function ReadTag(r: Reader): (res: (Tag, Reader))
    requires r.Valid()
    ensures res.1.Valid() && |res.1.rest| <= |r.rest|
    ensures r.error ==> res == (TNil, r)
    ensures res.1.error ==> res == (TNil, FAILED)
    ensures !res.1.error ==> |res.1.rest| < |r.rest|
  {
    if r.error then (TNil, r)
    else
      match ParseTag(r.rest)
      case None => (TNil, FAILED)
      case Some((t, n)) => (t, Reader(r.rest[n..], false))
  }

  /** mpack_peek_tag: the same tag; the cursor stays, but a failure is flagged. */
  function PeekTag(r: Reader): (res: (Tag, Reader))
    requires r.Valid()
    ensures res.1 == if ReadTag(r).1.error then FAILED else r
    ensures res.0 == ReadTag(r).0
  {
    if r.error then (TNil, r)
    else
      match ParseTag(r.rest)
      case None => (TNil, FAILED)
      case Some((t, _)) => (t, r)
  }

  function Zeros(n: nat): (s: Bytes)
    ensures |s| == n && forall i :: 0 <= i < n ==> s[i] == 0
  {
    seq(n, i => 0)
  }

  /** mpack_read_bytes: zeros once the reader has failed or when the bytes run out. */
  function ReadBytes(r: Reader, n: nat): (res: (Bytes, Reader))
    requires r.Valid()
    ensures res.1.Valid() && |res.1.rest| <= |r.rest| && |res.0| == n
    ensures r.error && n > 0 ==> res == (Zeros(n), FAILED)
    ensures r.error ==> res.1 == FAILED
    ensures res.1.error ==> res == (Zeros(n), FAILED)
  {
    if !r.error && n <= |r.rest| then (r.rest[..n], Reader(r.rest[n..], false))
    else (Zeros(n), FAILED)
  }

  lemma ReadTagExtends(r: Reader, more: Bytes)
    requires r.Valid() && !ReadTag(r).1.error
    ensures !r.error
    ensures ReadTag(r.Extend(more)) == (ReadTag(r).0, ReadTag(r).1.Extend(more))
  {
    ParseTagExtends(r.rest, more);
    var n := ParseTag(r.rest).value.1;
    assert (r.rest + more)[n..] == r.rest[n..] + more;
  }

  lemma ReadBytesExtends(r: Reader, n: nat, more: Bytes)
    requires r.Valid() && !ReadBytes(r, n).1.error
    ensures !r.error
    ensures ReadBytes(r.Extend(more), n) == (ReadBytes(r, n).0, ReadBytes(r, n).1.Extend(more))
  {
    assert (r.rest + more)[..n] == r.rest[..n];
    assert (r.rest + more)[n..] == r.rest[n..] + more;
  }

  /** Dropping bytes that a read does not reach changes nothing but what is left. */
  lemma ReadTagLocal(r: Reader, k: nat)
    requires r.Valid() && !ReadTag(r).1.error && k <= |ReadTag(r).1.rest|
    ensures ReadTag(r.Drop(k)) == (ReadTag(r).0, ReadTag(r).1.Drop(k))
  {
    var n := ParseTag(r.rest).value.1;
    ParseTagLocal(r.rest, |r.rest| - k);
    hide ParseTag;
    CutBothEnds(r.rest, n, k);
  }

  lemma CutBothEnds(s: Bytes, n: nat, k: nat)
    requires n + k <= |s|
    ensures s[..|s| - k][n..] == s[n..][..|s| - n - k]
  {
    var a, b := s[..|s| - k][n..], s[n..][..|s| - n - k];
    assert |a| == |b| && forall i :: 0 <= i < |a| ==> a[i] == b[i];
  }

  lemma ReadBytesLocal(r: Reader, n: nat, k: nat)
    requires r.Valid() && !ReadBytes(r, n).1.error && k <= |ReadBytes(r, n).1.rest|
    ensures ReadBytes(r.Drop(k), n) == (ReadBytes(r, n).0, ReadBytes(r, n).1.Drop(k))
  {
    CutBothEnds(r.rest, n, k);
    assert r.rest[..|r.rest| - k][..n] == r.rest[..n];
  }

  lemma ReadTagWritten(t: Tag, tail: Bytes)
    ensures ReadTag(Reader(WriteTag(t) + tail, false)) == (WireTag(t), Reader(tail, false))
  {
    TagRoundTrip(t, tail);
    assert (WriteTag(t) + tail)[|WriteTag(t)|..] == tail;
  }

  /** Whatever width a value is written in, the reader takes the value and exactly those bytes. */
  lemma ReadTagSpelled(t: Tag, b: Bytes, tail: Bytes)
    requires Spells(b, t)
    ensures ReadTag(Reader(b + tail, false)) == (t, Reader(tail, false))
  {
    hide ParseTag;
    hide Spells;
    SpelledParses(t, b, tail);
    assert (b + tail)[|b|..] == tail;
  }

  lemma ReservedByte(b: Bytes)
    requires b != [] && b[0] == 0xc1
    ensures ReadTag(Reader(b, false)) == (TNil, FAILED)
  {
    assert HeadOf(b[0]).Unsupported?;
  }

  lemma ReadBytesWritten(s: Bytes, tail: Bytes)
    ensures ReadBytes(Reader(s + tail, false), |s|) == (s, Reader(tail, false))
  {
    assert (s + tail)[..|s|] == s;
    assert (s + tail)[|s|..] == tail;
  }

  // ---------------------------------------------------------------- expect functions

  /** mpack_expect_array_max; mpack_expect_array is the case without a limit. */
  function ExpectArray(r: Reader, max: nat): (res: (UInt32, Reader))
    requires r.Valid()
    ensures res.1.Valid() && |res.1.rest| <= |r.rest|
    ensures res.1.error <==> ReadTag(r).1.error || !ReadTag(r).0.TArray? || ReadTag(r).0.count > max
    ensures !res.1.error ==> ReadTag(r) == (TArray(res.0), res.1)
  {
    var (tag, r1) := ReadTag(r);
    if tag.TArray? && tag.count <= max then (tag.count, r1) else (0, FAILED)
  }

  /** mpack_expect_u8, u32 and u64, which take any integer tag whose value is in range. */
  function ExpectUInt(r: Reader, limit: nat): (res: (UInt64, Reader))
    requires r.Valid()
    ensures res.1.Valid() && |res.1.rest| <= |r.rest|
    ensures r.error ==> res.1.error
    ensures !res.1.error <==>
              var (tag, r1) := ReadTag(r);
              !r1.error && ((tag.TUInt? && tag.u < limit) || (tag.TInt? && 0 <= tag.i < limit))
    ensures !res.1.error ==>
              res.1 == ReadTag(r).1 && res.0 == (if ReadTag(r).0.TUInt? then ReadTag(r).0.u else ReadTag(r).0.i)
  {
    var (tag, r1) := ReadTag(r);
    if tag.TUInt? && tag.u < limit then (tag.u, r1)
    else if tag.TInt? && 0 <= tag.i < limit then (tag.i, r1)
    else (0, FAILED)
  }

  /** mpack_expect_cstr_alloc: a string of fewer than `maxsize` bytes, none of them NUL. */
  function ExpectCStr(r: Reader, maxsize: nat): (res: (Bytes, Reader))
    requires r.Valid()
    ensures res.1.Valid() && |res.1.rest| <= |r.rest|
    ensures !res.1.error <==>
              var (tag, r1) := ReadTag(r);
              && !r1.error && tag.TStr? && tag.strLen < maxsize
              && var (bytes, r2) := ReadBytes(r1, tag.strLen); !r2.error && NulFree(bytes)
    ensures !res.1.error ==> res == ReadBytes(ReadTag(r).1, ReadTag(r).0.strLen)
  {
    var (tag, r1) := ReadTag(r);
    if tag.TStr? && tag.strLen < maxsize then
      var (bytes, r2) := ReadBytes(r1, tag.strLen);
      if r2.error || !NulFree(bytes) then ([], FAILED) else (bytes, r2)
    else ([], FAILED)
  }

  // ---------------------------------------------------------------- C strings

  predicate NulFree(s: Bytes) { forall i :: 0 <= i < |s| ==> s[i] != 0 }

  /** The bytes a C string function sees: everything before the first NUL. */
  function CString(s: Bytes): (c: Bytes)
    ensures c <= s && NulFree(c)
    ensures |c| < |s| ==> s[|c|] == 0
    ensures c == s <==> NulFree(s)
  {
    if s == [] || s[0] == 0 then []
    else
      var t := CString(s[1..]);
      assert s == [s[0]] + s[1..];
      [s[0]] + t
  }

  lemma {:induction false} CStringIdempotent(s: Bytes)
    ensures CString(CString(s)) == CString(s)
  {
  }
}
