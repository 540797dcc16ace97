/** The types of type.go: atoms, void and structs, with their sizes (Go
    `uint`, so sums wrap modulo 2^64) and the cast rule. */
module Typing {
  const Word: int := 0x1_0000_0000_0000_0000

  /** Go's `uint` on a 64-bit target. */
  newtype u64 = x: int | 0 <= x < 0x1_0000_0000_0000_0000

  datatype Type =
    | Atom(size: u64, signed: bool, float: bool)
    | Void
    | Struct(members: seq<Var>)

  /** A struct member or a variable: a name and a type. */
  datatype Var = Var(name: string, typ: Type)

  // ---------------------------------------------------------------------------
  // Sizes

  /** `Size`: an atom's stored size, 0 for void, and for a struct the sum of
      its members' sizes, accumulated in a `uint`. */
  function Size(t: Type): (r: u64)
    ensures !t.Struct? ==> r as int == TotalSize(t)
    decreases t, 1
  {
    match t
    case Atom(size, _, _) => size
    case Void => 0
    case Struct(members) => SumSizes(members)
  }

  /** The accumulator of `Struct.Size` after the given members, in order. */
  function SumSizes(ms: seq<Var>): u64
    decreases ms, 0
  {
    if ms == [] then 0
    else
      var last := ms[|ms| - 1];
      ((SumSizes(ms[..|ms| - 1]) as int + Size(last.typ) as int) % Word) as u64
  }

  /** The reference size: the mathematical sum, without a bound. */
  function TotalSize(t: Type): nat
    decreases t, 1
  {
    match t
    case Atom(size, _, _) => size as nat
    case Void => 0
    case Struct(members) => TotalSizes(members)
  }

  function TotalSizes(ms: seq<Var>): nat
    decreases ms, 0
  {
    if ms == [] then 0 else TotalSize(ms[0].typ) + TotalSizes(ms[1..])
  }

  lemma {:induction false} TotalSizesSnoc(ms: seq<Var>, m: Var)
    ensures TotalSizes(ms + [m]) == TotalSizes(ms) + TotalSize(m.typ)
    decreases |ms|
  {
    if ms != [] {
      assert (ms + [m])[1..] == ms[1..] + [m];
      TotalSizesSnoc(ms[1..], m);
    } else {
      assert [m][1..] == [];
    }
  }

  /** A size is the true total reduced modulo 2^64: exact as long as the
      total fits in a `uint`, wrapped around otherwise. */
  lemma {:induction false} SizeWraps(t: Type)
    ensures Size(t) as int == TotalSize(t) % Word
    decreases t, 1
  {
    if t.Struct? {
      SumSizesWrap(t.members);
    }
  }

  lemma {:induction false} SumSizesWrap(ms: seq<Var>)
    ensures SumSizes(ms) as int == TotalSizes(ms) % Word
    decreases ms, 0
  {
    if ms != [] {
      var init, last := ms[..|ms| - 1], ms[|ms| - 1];
      assert ms == init + [last];
      SumSizesWrap(init);
      SizeWraps(last.typ);
      TotalSizesSnoc(init, last);
      ModAdd(TotalSizes(init), TotalSize(last.typ));
    }
  }

  lemma ModAdd(a: nat, b: nat)
    ensures (a % Word + b % Word) % Word == (a + b) % Word
  {
  }

  /** `Struct.Size`: the loop over the members. */
  method StructSize(members: seq<Var>) returns (size: u64)
    ensures size == Size(Struct(members))
    ensures size as int == TotalSizes(members) % Word
  {
    size := 0;
    for i := 0 to |members|
      invariant size == SumSizes(members[..i])
    {
      assert members[..i + 1][..i] == members[..i];
      size := ((size as int + Size(members[i].typ) as int) % Word) as u64;
    }
    assert members[..|members|] == members;
    SumSizesWrap(members);
  }

  // ---------------------------------------------------------------------------
  // Casts

  /** `Cast`: an atom casts to any atom, void to void, and a struct to a struct
      with the same members, compared pairwise by type and name. */
  predicate Cast(t: Type, as': Type)
    ensures Cast(t, as') ==> (t.Atom? <==> as'.Atom?) && (t.Void? <==> as'.Void?) && (t.Struct? <==> as'.Struct?)
  {
    match t
    case Atom(_, _, _) => as'.Atom?
    case Void => as'.Void?
    case Struct(ms) => as'.Struct? && ms == as'.members
  }

  /** Casting relates types of the same kind only, and is an equivalence. */
  lemma CastEquivalence(a: Type, b: Type, c: Type)
    ensures Cast(a, b) ==> (a.Atom? <==> b.Atom?) && (a.Void? <==> b.Void?) && (a.Struct? <==> b.Struct?)
    ensures Cast(a, a)
    ensures Cast(a, b) ==> Cast(b, a)
    ensures Cast(a, b) && Cast(b, c) ==> Cast(a, c)
  {
  }

  /** A struct casts to another exactly when both have the same number of
      members and agree on every member's name and type, in order. */
  lemma StructCast(ms: seq<Var>, as': Type)
    ensures Cast(Struct(ms), as') <==>
      as'.Struct? && |ms| == |as'.members| &&
      forall i :: 0 <= i < |ms| ==>
        ms[i].name == as'.members[i].name && ms[i].typ == as'.members[i].typ
  {
    if as'.Struct? && |ms| == |as'.members| &&
       forall i :: 0 <= i < |ms| ==>
         ms[i].name == as'.members[i].name && ms[i].typ == as'.members[i].typ
    {
      assert forall i :: 0 <= i < |ms| ==> ms[i] == as'.members[i];
    }
  }

  // ---------------------------------------------------------------------------
  // The struct cast as written

  /** Go's `==` on two `Type` interface values: false for different dynamic
      types, field-wise for atoms, true for voids, and a run-time panic
      (`Nothing`) for two structs, whose member slice is not comparable. */
  function InterfaceEq(a: Type, b: Type): (r: Maybe<bool>)
    ensures r.Nothing? <==> a.Struct? && b.Struct?
    ensures r.Just? ==> (r.value <==> a == b)
  {
    if a.Struct? && b.Struct? then Nothing
    else Just(a == b)
  }

  datatype Maybe<T> = Nothing | Just(value: T)

  /** `slices.EqualFunc` with the member test `a.Type == b.Type && a.Name == b.Name`,
      from the `i`-th member on. */
  function MembersEqAsWritten(ms: seq<Var>, ns: seq<Var>, i: nat): (r: Maybe<bool>)
    requires |ms| == |ns| && i <= |ms|
    ensures r.Nothing? ==> exists j :: i <= j < |ms| && ms[j].typ.Struct? && ns[j].typ.Struct?
    decreases |ms| - i
  {
    if i == |ms| then Just(true)
    else
      match InterfaceEq(ms[i].typ, ns[i].typ)
      case Nothing => Nothing
      case Just(same) =>
        if !(same && ms[i].name == ns[i].name) then Just(false)
        else MembersEqAsWritten(ms, ns, i + 1)
  }

  /** `Struct.Cast` as written; `Nothing` is a run-time panic. */
  function StructCastAsWritten(ms: seq<Var>, as': Type): (r: Maybe<bool>)
    ensures !as'.Struct? || |ms| != |as'.members| ==> r == Just(false)
    ensures r.Nothing? ==>
      as'.Struct? && |ms| == |as'.members| &&
      exists j :: 0 <= j < |ms| && ms[j].typ.Struct? && as'.members[j].typ.Struct?
  {
    if !as'.Struct? then Just(false)
    else if |ms| != |as'.members| then Just(false)
    else MembersEqAsWritten(ms, as'.members, 0)
  }

  /** Where the written cast does not panic it agrees with `Cast`. */
  lemma {:induction false} MembersEqAgrees(ms: seq<Var>, ns: seq<Var>, i: nat)
    requires |ms| == |ns| && i <= |ms|
    ensures var r := MembersEqAsWritten(ms, ns, i);
      r.Just? ==> (r.value <==> ms[i..] == ns[i..])
    decreases |ms| - i
  {
    if i < |ms| {
      assert ms[i..] == [ms[i]] + ms[i + 1..];
      assert ns[i..] == [ns[i]] + ns[i + 1..];
      MembersEqAgrees(ms, ns, i + 1);
    }
  }

  lemma StructCastAgrees(ms: seq<Var>, as': Type)
    ensures var r := StructCastAsWritten(ms, as');
      r.Just? ==> (r.value <==> Cast(Struct(ms), as'))
  {
    if as'.Struct? && |ms| == |as'.members| {
      MembersEqAgrees(ms, as'.members, 0);
      assert ms[0..] == ms && as'.members[0..] == as'.members;
    }
  }

  /** A struct with a struct member panics when cast to itself, where the
      intended answer is that it casts. */
  lemma NestedStructPanics()
    ensures var t := Struct([Var("inner", Struct([]))]);
      StructCastAsWritten(t.members, t) == Nothing && Cast(t, t)
  {
  }
}
