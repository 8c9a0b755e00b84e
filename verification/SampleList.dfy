/**
 source/audio/SampleList.c: samples imported by file name, renamed when the name is taken,
 and deleted or found by name.
 */
module Samples {
  import opened Wire

  datatype Sample = Sample(id: nat, name: Bytes)

  /** ResultAudio: a failure carries a message, which is null when it could not be allocated. */
  datatype ResultAudio = Ok | Err(msg: Option<Bytes>)

  /** The bytes of an ASCII literal. */
  function Ascii(s: string): (b: Bytes)
    ensures |b| == |s|
  {
    seq(|s|, i requires 0 <= i < |s| => s[i] as int % 256)
  }

  const NUMBER_SIGN: Bytes := [0x20, 0x23]  // " #"

  // ---------------------------------------------------------------- names

  predicate IsDigit(b: Byte) { 0x30 <= b <= 0x39 }

  /** "%d" of a positive number. */
  function Decimal(n: nat): (s: Bytes)
    ensures s != [] && forall i :: 0 <= i < |s| ==> IsDigit(s[i])
  {
    if n < 10 then [0x30 + n] else Decimal(n / 10) + [0x30 + n % 10]
  }

  /** The name ends in " #" and at least one digit. */
  ghost predicate Numbered(name: Bytes)
  {
    exists stem: Bytes, digits: Bytes ::
      && name == stem + NUMBER_SIGN + digits
      && digits != [] && (forall i :: 0 <= i < |digits| ==> IsDigit(digits[i]))
  }

  /** strrchr(path, '/') + 1, or the whole path. */
  function BaseName(path: Bytes): (s: Bytes)
  {
    if path == [] then []
    else if path[|path| - 1] == 0x2f then []
    else BaseName(path[..|path| - 1]) + [path[|path| - 1]]
  }

  function Occurrences(list: seq<Sample>, name: Bytes): (n: nat)
    ensures n == 0 <==> forall i :: 0 <= i < |list| ==> list[i].name != name
  {
    if list == [] then 0
    else
      var last := |list| - 1;
      Occurrences(list[..last], name) + (if list[last].name == name then 1 else 0)
  }

  /** The name a new sample gets. */
  function FreshName(list: seq<Sample>, name: Bytes): (s: Bytes)
  {
    var n := Occurrences(list, name);
    if n > 0 then name + NUMBER_SIGN + Decimal(n) else name
  }

  // ---------------------------------------------------------------- list operations

  /** Index of the first sample with this name, or the length of the list. */
  function FirstNamed(list: seq<Sample>, name: Bytes): (k: nat)
    ensures k <= |list|
    ensures forall i :: 0 <= i < k ==> list[i].name != name
    ensures k < |list| ==> list[k].name == name
  {
    if list == [] || list[0].name == name then 0
    else
      var k := FirstNamed(list[1..], name);
      assert forall i :: 0 < i <= k ==> list[i] == list[1..][i - 1];
      1 + k
  }

  lemma FirstNamedIs(list: seq<Sample>, name: Bytes, k: nat)
    requires k <= |list| && forall i :: 0 <= i < k ==> list[i].name != name
    requires k < |list| ==> list[k].name == name
    ensures FirstNamed(list, name) == k
  {
  }

  function Imported(list: seq<Sample>, path: Bytes): (l: seq<Sample>)
  {
    list + [Sample(|list|, FreshName(list, BaseName(path)))]
  }

  /** The first match goes, the others keep their order. */
  function Deleted(list: seq<Sample>, name: Bytes): (l: seq<Sample>)
  {
    var k := FirstNamed(list, name);
    if k == |list| then list else list[..k] + list[k + 1..]
  }

  function Find(list: seq<Sample>, name: Bytes): (s: Option<Sample>)
  {
    var k := FirstNamed(list, name);
    if k == |list| then None else Some(list[k])
  }

  datatype Allocations = Allocations(sample: bool, name: bool, table: bool)

  class SampleList {
    var samples: array<Sample>
    var len: nat

    ghost predicate Valid()
      reads this
    {
      len <= samples.Length
    }

    ghost function Contents(): seq<Sample>
      requires Valid()
      reads this, samples
    {
      samples[..len]
    }

    constructor ()
      ensures Valid() && fresh(samples) && Contents() == []
    {
      samples, len := new Sample[0], 0;
    }

    /**
     SampleListImportByFile.  The environment decides whether the audio library can load the
     file and which allocations succeed: the sample, its numbered name, the larger table.
     */
    method ImportByFile(path: Bytes, loads: ResultAudio, memory: Allocations) returns (r: ResultAudio)
      requires Valid()
      modifies this
      ensures Valid() && (samples == old(samples) || fresh(samples))
      ensures Contents() == (if r.Ok? then Imported(old(Contents()), path) else old(Contents()))
      ensures r.Ok? <==> memory.sample && loads.Ok? && memory.table
                         && (memory.name || Occurrences(old(Contents()), BaseName(path)) == 0)
      ensures memory.sample && loads.Err? ==> r == loads
    {
      if !memory.sample { return Err(Some(Ascii("failed to allocate sample"))); }
      if loads.Err? { return loads; }
      var name := BaseName(path);
      var occurrences := 0;
      for i := 0 to len
        invariant occurrences == Occurrences(samples[..i], name)
      {
        assert samples[..i + 1][..i] == samples[..i];
        if samples[i].name == name {
          occurrences := occurrences + 1;
        }
      }
      var sample := Sample(len, name);
      if occurrences > 0 {
        if !memory.name { return Err(Some(Ascii("failed to allocate sample name"))); }
        sample := Sample(len, name + NUMBER_SIGN + Decimal(occurrences));
      }
      if !memory.table { return Err(Some(Ascii("failed to resize sample list"))); }
      var old_samples := samples;
      var grown := new Sample[len + 1](i requires 0 <= i <= len reads this, old_samples =>
                                       if i < len && i < old_samples.Length then old_samples[i] else sample);
      samples := grown;
      len := len + 1;
      r := Ok;
      assert samples[len - 1] == sample && forall k :: 0 <= k < len - 1 ==> samples[k] == old_samples[k];
      assert samples[..len - 1] == old_samples[..len - 1] == old(Contents());
      assert samples[..len] == samples[..len - 1] + [sample];
    }

    /** SampleListDeleteSampleByName: shifts the tail down by one place. */
    method DeleteByName(name: Bytes) returns (r: ResultAudio)
      requires Valid()
      modifies this, samples
      ensures Valid() && samples == old(samples)
      ensures Contents() == Deleted(old(Contents()), name)
      ensures r == if FirstNamed(old(Contents()), name) < old(len) then Ok else Err(Some(Ascii("sample not found")))
    {
      hide FirstNamed;
      for i := 0 to len
        invariant unchanged(this) && samples[..] == old(samples[..])
        invariant forall k :: 0 <= k < i ==> samples[k].name != name
      {
        if samples[i].name == name {
          FirstNamedIs(Contents(), name, i);
          RemoveAt(i);
          return Ok;
        }
      }
      FirstNamedIs(Contents(), name, len);
      r := Err(Some(Ascii("sample not found")));
    }

    /** The shift that closes the gap. */
    method RemoveAt(i: nat)
      requires Valid() && i < len
      modifies this`len, samples
      ensures Valid() && len == old(len) - 1
      ensures Contents() == old(Contents())[..i] + old(Contents())[i + 1..]
    {
      ShiftDown(i);
      ghost var rest := old(Contents())[..i] + old(Contents())[i + 1..];
      assert forall k :: 0 <= k < len ==> samples[k] == rest[k];
      assert samples[..len] == rest;
    }

    /** The loop, and the shorter length. */
    method ShiftDown(i: nat)
      requires Valid() && i < len
      modifies this`len, samples
      ensures Valid() && len == old(len) - 1
      ensures forall k :: 0 <= k < i ==> samples[k] == old(samples[k])
      ensures forall k :: i <= k < len ==> samples[k] == old(samples[k + 1])
    {
      var j := i;
      while j + 1 < len
        invariant i <= j < len == old(len)
        invariant forall k :: 0 <= k < i ==> samples[k] == old(samples[k])
        invariant forall k :: i <= k < j ==> samples[k] == old(samples[k + 1])
        invariant forall k :: j <= k < len ==> samples[k] == old(samples[k])
      {
        samples[j] := samples[j + 1];
        j := j + 1;
      }
      len := len - 1;
    }

    /** SampleListGetSampleByName. */
    method GetByName(name: Bytes) returns (s: Option<Sample>)
      requires Valid()
      ensures s == Find(Contents(), name)
    {
      for i := 0 to len
        invariant forall k :: 0 <= k < i ==> samples[k].name != name
      {
        if samples[i].name == name {
          assert FirstNamed(Contents(), name) == i;
          return Some(samples[i]);
        }
      }
      s := None;
    }
  }

  // ---------------------------------------------------------------- every run

  datatype Op = Import(path: Bytes, ok: bool) | Delete(name: Bytes)

  function Step(list: seq<Sample>, op: Op): seq<Sample>
  {
    match op
    case Import(path, ok) => if ok then Imported(list, path) else list
    case Delete(name) => Deleted(list, name)
  }

  function Run(list: seq<Sample>, ops: seq<Op>): seq<Sample>
    decreases |ops|
  {
    if ops == [] then list else Run(Step(list, ops[0]), ops[1..])
  }

  // ---------------------------------------------------------------- names that can repeat

  /**
   A file name with the number k added, where the name below it can be held k times: always
   for k = 1, and otherwise when it can repeat itself.
   */
  ghost predicate Repeatable(name: Bytes)
    decreases |name|
  {
    exists stem: Bytes, k: nat ::
      && k >= 1 && name == stem + NUMBER_SIGN + Decimal(k)
      && 0x2f !in stem && (k == 1 || Repeatable(stem))
  }

  /** Every name held twice can repeat. */
  ghost predicate RepeatsOnlyRepeatable(list: seq<Sample>)
  {
    forall name :: Occurrences(list, name) >= 2 ==> Repeatable(name)
  }

  /** A path that is nothing, or a directory with its slash. */
  predicate Directory(dir: Bytes) { dir == [] || dir[|dir| - 1] == 0x2f }

  /** Every path is a directory followed by its base name, which has no slash. */
  lemma {:induction false} BaseNameSplits(path: Bytes) returns (dir: Bytes)
    ensures path == dir + BaseName(path) && Directory(dir) && 0x2f !in BaseName(path)
  {
    if path == [] || path[|path| - 1] == 0x2f {
      dir := path;
    } else {
      dir := BaseNameSplits(path[..|path| - 1]);
      assert path == path[..|path| - 1] + [path[|path| - 1]];
    }
  }

  /** And that is the only such split. */
  lemma {:induction false} BaseNameUnique(dir: Bytes, name: Bytes)
    requires Directory(dir) && 0x2f !in name
    ensures BaseName(dir + name) == name
    decreases |name|
  {
    if name == [] {
      assert dir + name == dir;
    } else {
      BaseNameUnique(dir, name[..|name| - 1]);
      assert (dir + name)[..|dir + name| - 1] == dir + name[..|name| - 1];
    }
  }

  lemma BaseNameHasNoSlash(path: Bytes)
    ensures 0x2f !in BaseName(path)
    ensures 0x2f !in path ==> BaseName(path) == path
  {
    var dir := BaseNameSplits(path);
    if 0x2f !in path {
      assert [] + path == path;
      BaseNameUnique([], path);
    }
  }

  /** The number that digits stand for. */
  function Number(digits: Bytes): (n: int)
  {
    if digits == [] then 0 else Number(digits[..|digits| - 1]) * 10 + digits[|digits| - 1] as int - 0x30
  }

  /** Decimal notation: the digits stand for the number and do not begin with a zero. */
  lemma {:induction false} DecimalStandsFor(n: nat)
    ensures Number(Decimal(n)) == n
    ensures n > 0 ==> Decimal(n)[0] != 0x30
  {
    if n >= 10 {
      DecimalStandsFor(n / 10);
      var s := Decimal(n);
      assert s[..|s| - 1] == Decimal(n / 10);
    } else {
      assert Decimal(n)[..0] == [];
    }
  }

  function Names(list: seq<Sample>): seq<Bytes> { seq(|list|, i requires 0 <= i < |list| => list[i].name) }

  /** Occurrences is how often the name is among the names. */
  lemma {:induction false} OccurrencesCount(list: seq<Sample>, name: Bytes)
    ensures Occurrences(list, name) == multiset(Names(list))[name]
  {
    if list != [] {
      var n := |list| - 1;
      OccurrencesCount(list[..n], name);
      assert Names(list) == Names(list[..n]) + [list[n].name];
    }
  }

  /**
   What an import adds: one sample at the end, under the base name if that is free, and
   otherwise under the base name, " #" and the number of samples that hold the base name.
   */
  lemma ImportedIs(list: seq<Sample>, path: Bytes, dir: Bytes, name: Bytes)
    requires path == dir + name && Directory(dir) && 0x2f !in name
    ensures var l, k := Imported(list, path), multiset(Names(list))[name];
            && |l| == |list| + 1 && l[..|list|] == list && l[|list|].id == |list|
            && (k == 0 ==> l[|list|].name == name)
            && (k > 0 ==> exists digits :: Number(digits) == k && l[|list|].name == name + [0x20, 0x23] + digits)
  {
    BaseNameUnique(dir, name);
    OccurrencesCount(list, name);
    var k := Occurrences(list, name);
    DecimalStandsFor(k);
    hide Occurrences;
    hide BaseName;
  }

  lemma {:induction false} OccurrencesConcat(a: seq<Sample>, b: seq<Sample>, name: Bytes)
    ensures Occurrences(a + b, name) == Occurrences(a, name) + Occurrences(b, name)
    decreases |b|
  {
    if b == [] {
      assert a + b == a;
    } else {
      OccurrencesConcat(a, b[..|b| - 1], name);
      assert (a + b)[..|a + b| - 1] == a + b[..|b| - 1];
    }
  }

  lemma ImportedCount(list: seq<Sample>, path: Bytes, name: Bytes)
    ensures Occurrences(Imported(list, path), name)
         == Occurrences(list, name) + (if FreshName(list, BaseName(path)) == name then 1 else 0)
  {
    assert Imported(list, path)[..|list|] == list;
  }

  lemma DeletedCount(list: seq<Sample>, gone: Bytes, name: Bytes)
    ensures Occurrences(Deleted(list, gone), name)
         == Occurrences(list, name) - (if gone == name && Occurrences(list, name) > 0 then 1 else 0)
  {
    hide FirstNamed;
    var k := FirstNamed(list, gone);
    if k < |list| {
      var a, b := list[..k], list[k + 1..];
      assert list == a + ([list[k]] + b);
      assert Deleted(list, gone) == a + b;
      assert Occurrences([list[k]], name) == if list[k].name == name then 1 else 0;
      OccurrencesConcat(a, [list[k]] + b, name);
      OccurrencesConcat([list[k]], b, name);
      OccurrencesConcat(a, b, name);
    }
  }

  lemma ImportKeepsRepeats(list: seq<Sample>, path: Bytes)
    requires RepeatsOnlyRepeatable(list)
    ensures RepeatsOnlyRepeatable(Imported(list, path))
  {
    var stem := BaseName(path);
    var k := Occurrences(list, stem);
    BaseNameHasNoSlash(path);
    forall name | Occurrences(Imported(list, path), name) >= 2 ensures Repeatable(name) {
      ImportedCount(list, path, name);
      assert Occurrences(list, name) >= 2 || name == stem + NUMBER_SIGN + Decimal(k);
    }
  }

  lemma {:induction false} RunKeepsRepeats(list: seq<Sample>, ops: seq<Op>)
    requires RepeatsOnlyRepeatable(list)
    ensures RepeatsOnlyRepeatable(Run(list, ops))
    decreases |ops|
  {
    hide Repeatable;
    if ops != [] {
      match ops[0] {
        case Import(path, ok) => if ok { ImportKeepsRepeats(list, path); }
        case Delete(gone) =>
          forall name ensures Occurrences(Deleted(list, gone), name) <= Occurrences(list, name) {
            DeletedCount(list, gone, name);
          }
      }
      RunKeepsRepeats(Step(list, ops[0]), ops[1..]);
    }
  }

  lemma {:induction false} RunConcat(list: seq<Sample>, a: seq<Op>, b: seq<Op>)
    ensures Run(list, a + b) == Run(Run(list, a), b)
    decreases |a|
  {
    hide Step;
    if a == [] {
      assert a + b == b;
    } else {
      RunConcat(Step(list, a[0]), a[1..], b);
      assert (a + b)[1..] == a[1..] + b;
    }
  }

  /** While the stem is held k times, its k-th numbered name can be brought to any count. */
  lemma {:induction false} Adjust(list: seq<Sample>, stem: Bytes, k: nat, n: nat) returns (ops: seq<Op>)
    requires k >= 1 && 0x2f !in stem && Occurrences(list, stem) == k
    ensures Occurrences(Run(list, ops), stem + NUMBER_SIGN + Decimal(k)) == n
    decreases var c := Occurrences(list, stem + NUMBER_SIGN + Decimal(k)); if c < n then n - c else c - n
  {
    var name := stem + NUMBER_SIGN + Decimal(k);
    var c := Occurrences(list, name);
    if c == n {
      return [];
    }
    var op := if c < n then Import(stem, true) else Delete(name);
    BaseNameHasNoSlash(stem);
    ImportedCount(list, stem, stem);
    ImportedCount(list, stem, name);
    DeletedCount(list, name, stem);
    DeletedCount(list, name, name);
    ops := Adjust(Step(list, op), stem, k, n);
    assert ([op] + ops)[1..] == ops;
    ops := [op] + ops;
  }

  /** A repeatable name can be held any number of times. */
  lemma {:induction false} Reach(name: Bytes, n: nat) returns (ops: seq<Op>)
    requires Repeatable(name)
    ensures Occurrences(Run([], ops), name) == n
    decreases |name|
  {
    var stem: Bytes, k: nat :|
      && k >= 1 && name == stem + NUMBER_SIGN + Decimal(k)
      && 0x2f !in stem && (k == 1 || Repeatable(stem));
    hide Repeatable;
    var first;
    if k == 1 {
      first := [Import(stem, true)];
      BaseNameHasNoSlash(stem);
      ImportedCount([], stem, stem);
      assert first[1..] == [];
      assert Run([], first) == Run(Step([], first[0]), first[1..]);
    } else {
      first := Reach(stem, k);
    }
    var more := Adjust(Run([], first), stem, k, n);
    RunConcat([], first, more);
    ops := first + more;
  }

  /** Exactly the repeatable names can be held by two samples at once. */
  lemma RepeatsIff(name: Bytes)
    ensures (exists ops :: Occurrences(Run([], ops), name) >= 2) <==> Repeatable(name)
  {
    hide Repeatable;
    if Repeatable(name) {
      var ops := Reach(name, 2);
    }
    forall ops | Occurrences(Run([], ops), name) >= 2 ensures Repeatable(name) {
      RunKeepsRepeats([], ops);
    }
  }

  lemma {:induction false} FindIsCount(list: seq<Sample>, name: Bytes)
    ensures Find(list, name).Some? <==> Occurrences(list, name) > 0
  {
  }

  /** Exactly for the others, deleting the name once makes it unfindable in every reachable list. */
  lemma DeletedIsGoneIff(name: Bytes)
    ensures (forall ops :: Find(Deleted(Run([], ops), name), name).None?) <==> !Repeatable(name)
  {
    hide Repeatable;
    if Repeatable(name) {
      var ops := Reach(name, 2);
      DeletedCount(Run([], ops), name, name);
      FindIsCount(Deleted(Run([], ops), name), name);
    } else {
      forall ops ensures Find(Deleted(Run([], ops), name), name).None? {
        RunKeepsRepeats([], ops);
        DeletedCount(Run([], ops), name, name);
        FindIsCount(Deleted(Run([], ops), name), name);
      }
    }
  }

  lemma RepeatableIsNumbered(name: Bytes)
    requires Repeatable(name)
    ensures Numbered(name)
  {
  }

  lemma {:induction false} TwiceCounts(list: seq<Sample>, i: nat, j: nat)
    requires i < j < |list| && list[i].name == list[j].name
    ensures Occurrences(list, list[i].name) >= 2
  {
    var name := list[i].name;
    assert list == list[..j] + list[j..];
    OccurrencesConcat(list[..j], list[j..], name);
    assert list[..j][i].name == name && list[j..][0].name == name;
  }

  /** So a name that does not end in a number is held by at most one sample. */
  lemma PlainNamesStayUnique(ops: seq<Op>, i: nat, j: nat)
    requires i < j < |Run([], ops)| && !Numbered(Run([], ops)[i].name)
    ensures Run([], ops)[i].name != Run([], ops)[j].name
  {
    hide Numbered;
    var list := Run([], ops);
    if list[i].name == list[j].name {
      TwiceCounts(list, i, j);
      RepeatsIff(list[i].name);
      RepeatableIsNumbered(list[i].name);
    }
  }

  /** And deleting it makes it unfindable. */
  lemma DeletedPlainNameIsGone(ops: seq<Op>, name: Bytes)
    requires !Numbered(name)
    ensures Find(Deleted(Run([], ops), name), name).None?
  {
    hide Numbered;
    DeletedIsGoneIff(name);
    if Repeatable(name) { RepeatableIsNumbered(name); }
  }

  /** Ending in a number is not enough to repeat: " #0" is never added to a name. */
  lemma NumberZeroNeverRepeats(stem: Bytes)
    ensures var name := stem + NUMBER_SIGN + Decimal(0); Numbered(name) && !Repeatable(name)
  {
    var zero := Decimal(0);
    var name := stem + NUMBER_SIGN + zero;
    if Repeatable(name) {
      var other: Bytes, k: nat :| k >= 1 && name == other + NUMBER_SIGN + Decimal(k);
      assert Decimal(k) != zero;
      LastSign(stem, zero, other, Decimal(k));
      assert false;
    }
  }

  /** The digits behind the last sign are determined by the name. */
  lemma LastSign(stem: Bytes, digits: Bytes, other: Bytes, others: Bytes)
    requires stem + NUMBER_SIGN + digits == other + NUMBER_SIGN + others
    requires forall i :: 0 <= i < |digits| ==> IsDigit(digits[i])
    requires forall i :: 0 <= i < |others| ==> IsDigit(others[i])
    ensures digits == others && stem == other
  {
    var name := stem + NUMBER_SIGN + digits;
    assert name[|stem| + 1] == 0x23 && name[|other| + 1] == 0x23;
    assert |stem| == |other|;
    assert stem == name[..|stem|] && other == name[..|other|];
    assert digits == name[|stem| + 2..] && others == name[|other| + 2..];
  }

  /** An import of a file when one sample holds its name already. */
  lemma SecondImport(list: seq<Sample>, a: Bytes, numbered: Bytes)
    requires Occurrences(list, a) == 1 && 0x2f !in a && numbered == a + NUMBER_SIGN + Decimal(1)
    ensures Step(list, Import(a, true)) == list + [Sample(|list|, numbered)]
    ensures Occurrences(Step(list, Import(a, true)), a) == 1
  {
    BaseNameHasNoSlash(a);
    ImportedCount(list, a, a);
    hide Occurrences;
    hide BaseName;
    assert |numbered| > |a|;
    hide Decimal;
  }

  lemma NumberedOne()
    ensures [0x61] + NUMBER_SIGN + Decimal(1) == [0x61, 0x20, 0x23, 0x31]
  {
    assert Decimal(1) == [0x31];
  }

  /** The shortest such run: three imports of one file leave "a #1" twice, and one delete leaves it findable. */
  lemma NumberedNameTwice()
    ensures var one := Import([0x61], true);
            var list := Run([], [one] + ([one] + ([one] + [])));
            && |list| == 3 && list[1].name == list[2].name == [0x61, 0x20, 0x23, 0x31]
            && Find(Deleted(list, list[1].name), list[1].name).Some?
  {
    var a: Bytes := [0x61];
    var one, numbered := Import(a, true), [0x61, 0x20, 0x23, 0x31];
    var l1 := [Sample(0, a)];
    BaseNameHasNoSlash(a);
    ImportedCount([], a, a);
    assert Step([], one) == l1;
    NumberedOne();
    SecondImport(l1, a, numbered);
    SecondImport(Step(l1, one), a, numbered);
    hide Step;
    hide Occurrences;
    RunFirst([], one, [one] + ([one] + []));
    RunFirst(l1, one, [one] + []);
    RunFirst(Step(l1, one), one, []);
    var list := Run([], [one] + ([one] + ([one] + [])));
    hide Run;
    assert list == l1 + [Sample(1, numbered)] + [Sample(2, numbered)];
    TwiceCounts(list, 1, 2);
    DeletedCount(list, numbered, numbered);
    FindIsCount(Deleted(list, numbered), numbered);
  }

  lemma RunFirst(list: seq<Sample>, op: Op, ops: seq<Op>)
    ensures Run(list, [op] + ops) == Run(Step(list, op), ops)
    ensures ops == [] ==> Run(list, [op] + ops) == Step(list, op)
  {
    hide Step;
    assert ([op] + ops)[1..] == ops;
  }
}
