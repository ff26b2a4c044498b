/** Flattening loses nothing and adds nothing: read in order, with how deep each one lies,
    the fields that are no wrappers are the same before and after. */
module Flattening {
  import opened FieldTree

  /** A field that is no wrapper, without what is below it; how many such fields it lies
      below; and whether every wrapper around it is required. */
  datatype Reading = Reading(depth: nat, field: Field, sure: bool)

  function Bare(f: Field): Field {
    f.(children := [])
  }

  function Readings(fields: seq<Field>, depth: nat, sure: bool): seq<Reading>
    decreases fields, 0
  {
    if fields == [] then [] else ReadingsOf(fields[0], depth, sure) + Readings(fields[1..], depth, sure)
  }

  function ReadingsOf(f: Field, depth: nat, sure: bool): seq<Reading>
    decreases f, 1
  {
    match f case Field(_, _, _, _, required, sameNode, _, _, _, _, children) =>
    if sameNode then Readings(children, depth, sure && required)
    else [Reading(depth, Bare(f), sure)] + Readings(children, depth + 1, sure)
  }

  /** The accessors that insist on their attribute, each with the one that does not. */
  const LENIENT: map<string, string> := map[
    "attrString" := "maybeAttrString", "attrInt" := "maybeAttrInt", "attrEnum" := "maybeAttrEnum"
  ]

  /** Required if it was and every wrapper around it was; lenient if one of them was not. */
  predicate Lifted(before: Reading, after: Reading) {
    var m := before.field.method_;
    after == Reading(before.depth, before.field.(
      required := before.field.required && before.sure,
      method_ := if before.sure || m !in LENIENT then m else LENIENT[m]), true)
  }

  ghost predicate AllLifted(before: seq<Reading>, after: seq<Reading>) {
    |before| == |after| && forall i | 0 <= i < |before| :: Lifted(before[i], after[i])
  }

  lemma AllLiftedConcat(a: seq<Reading>, b: seq<Reading>, a1: seq<Reading>, b1: seq<Reading>)
    requires AllLifted(a, a1) && AllLifted(b, b1)
    ensures AllLifted(a + b, a1 + b1)
  {
    hide Lifted;
  }

  lemma {:induction false} ReadingsConcat(a: seq<Field>, b: seq<Field>, depth: nat, sure: bool)
    ensures Readings(a + b, depth, sure) == Readings(a, depth, sure) + Readings(b, depth, sure)
  {
    if a == [] {
      assert a + b == b;
    } else {
      assert (a + b)[1..] == a[1..] + b && (a + b)[0] == a[0];
      ReadingsConcat(a[1..], b, depth, sure);
    }
  }

  lemma {:induction false} FlattenLifts(fields: seq<Field>, optional: bool, depth: nat)
    ensures AllLifted(Readings(fields, depth, !optional), Readings(Flatten(fields, optional), depth, true))
    decreases fields, 0
  {
    if fields != [] {
      FlattenOneLifts(fields[0], optional, depth);
      FlattenLifts(fields[1..], optional, depth);
      ReadingsConcat(FlattenOne(fields[0], optional), Flatten(fields[1..], optional), depth, true);
      hide AllLifted;
      AllLiftedConcat(ReadingsOf(fields[0], depth, !optional), Readings(fields[1..], depth, !optional),
                      Readings(FlattenOne(fields[0], optional), depth, true), Readings(Flatten(fields[1..], optional), depth, true));
    }
  }

  lemma {:induction false} FlattenOneLifts(f: Field, optional: bool, depth: nat)
    ensures AllLifted(ReadingsOf(f, depth, !optional), Readings(FlattenOne(f, optional), depth, true))
    decreases f, 1
  {
    match f case Field(_, _, _, _, required, sameNode, _, _, _, _, children) =>
    FlattenLifts(children, optional || !required, depth);
    FlattenLifts(children, optional, depth + 1);
    if !sameNode {
      var g := (if optional then Weaken(f) else f).(children := Flatten(children, optional));
      assert FlattenOne(f, optional) == [g] && [g][1..] == [];
      var before, after := Reading(depth, Bare(f), !optional), Reading(depth, Bare(g), true);
      assert Readings([g], depth, true) == [after] + Readings(Flatten(children, optional), depth + 1, true);
      assert Lifted(before, after);
      hide Lifted;
      AllLiftedConcat([before], Readings(children, depth + 1, !optional), [after], Readings(Flatten(children, optional), depth + 1, true));
    }
  }

  // ---------------------------------------------------------------- nothing else reads so

  lemma {:induction false} DeepReadings(fields: seq<Field>, depth: nat, sure: bool)
    ensures forall r | r in Readings(fields, depth, sure) :: r.depth >= depth
    decreases fields, 0
  {
    if fields != [] {
      DeepReadingsOf(fields[0], depth, sure);
      DeepReadings(fields[1..], depth, sure);
    }
  }

  lemma {:induction false} DeepReadingsOf(f: Field, depth: nat, sure: bool)
    ensures forall r | r in ReadingsOf(f, depth, sure) :: r.depth >= depth
    decreases f, 1
  {
    match f case Field(_, _, _, _, required, sameNode, _, _, _, _, children) =>
    DeepReadings(children, depth, sure && required);
    DeepReadings(children, depth + 1, sure);
  }

  lemma FirstReading(fields: seq<Field>, depth: nat, sure: bool)
    requires Flat(fields) && fields != []
    ensures Readings(fields, depth, sure) == [Reading(depth, Bare(fields[0]), sure)] +
      Readings(fields[0].children, depth + 1, sure) + Readings(fields[1..], depth, sure)
    ensures Flat(fields[0].children) && Flat(fields[1..])
  {
    match fields[0] case Field(_, _, _, _, _, _, _, _, _, _, children) =>
    assert FlatField(fields[0]);
  }

  lemma NotShorter(a: seq<Reading>, b: seq<Reading>, a1: seq<Reading>, b1: seq<Reading>, depth: nat)
    requires a + b == a1 + b1 && (forall r | r in a1 :: r.depth > depth) && (b != [] ==> b[0].depth == depth)
    ensures |a| >= |a1|
  {
    assert |a| < |a1| ==> (a1 + b1)[|a|] == a1[|a|];
  }

  /** Where what is deeper ends, the rest begins. */
  lemma SplitByDepth(a: seq<Reading>, b: seq<Reading>, a1: seq<Reading>, b1: seq<Reading>, depth: nat)
    requires a + b == a1 + b1
    requires (forall r | r in a :: r.depth > depth) && (forall r | r in a1 :: r.depth > depth)
    requires (b != [] ==> b[0].depth == depth) && (b1 != [] ==> b1[0].depth == depth)
    ensures a == a1 && b == b1
  {
    NotShorter(a, b, a1, b1, depth);
    NotShorter(a1, b1, a, b, depth);
    assert a == (a + b)[..|a|] == a1;
    assert b == (a + b)[|a|..] == b1;
  }

  lemma HeadDepth(fields: seq<Field>, depth: nat, sure: bool)
    requires Flat(fields)
    ensures Readings(fields, depth, sure) != [] ==> Readings(fields, depth, sure)[0].depth == depth
  {
    if fields != [] { FirstReading(fields, depth, sure); }
  }

  lemma SameParts(a: seq<Field>, b: seq<Field>, depth: nat, sure: bool)
    requires Flat(a) && Flat(b) && Readings(a, depth, sure) == Readings(b, depth, sure) && a != [] && b != []
    ensures Bare(a[0]) == Bare(b[0])
    ensures Readings(a[0].children, depth + 1, sure) == Readings(b[0].children, depth + 1, sure)
    ensures Readings(a[1..], depth, sure) == Readings(b[1..], depth, sure)
  {
    hide *;
    FirstReading(a, depth, sure);
    FirstReading(b, depth, sure);
    DeepReadings(a[0].children, depth + 1, sure);
    DeepReadings(b[0].children, depth + 1, sure);
    HeadDepth(a[1..], depth, sure);
    HeadDepth(b[1..], depth, sure);
    var below, below1 := Readings(a[0].children, depth + 1, sure), Readings(b[0].children, depth + 1, sure);
    var rest, rest1 := Readings(a[1..], depth, sure), Readings(b[1..], depth, sure);
    var all := Readings(a, depth, sure);
    assert all[0] == Reading(depth, Bare(a[0]), sure) == Reading(depth, Bare(b[0]), sure);
    assert all[1..] == below + rest && all[1..] == below1 + rest1;
    SplitByDepth(below, rest, below1, rest1, depth);
  }

  /** Without wrappers the readings show the whole tree. */
  lemma {:induction false} ReadingsInjective(a: seq<Field>, b: seq<Field>, depth: nat, sure: bool)
    requires Flat(a) && Flat(b) && Readings(a, depth, sure) == Readings(b, depth, sure)
    ensures a == b
    decreases a
  {
    if a != [] { FirstReading(a, depth, sure); }
    if b != [] { FirstReading(b, depth, sure); }
    hide Readings, Flat;
    if a != [] && b != [] {
      SameParts(a, b, depth, sure);
      match a[0] case Field(_, _, _, _, _, _, _, _, _, _, children) =>
      ReadingsInjective(children, b[0].children, depth + 1, sure);
      ReadingsInjective(a[1..], b[1..], depth, sure);
      Rebuilt(a[0], b[0]);
      assert a == [a[0]] + a[1..] && b == [b[0]] + b[1..];
    }
  }

  lemma Rebuilt(a: Field, b: Field)
    requires Bare(a) == Bare(b) && a.children == b.children
    ensures a == b
  {
    assert a == a.(children := []).(children := a.children);
  }

  /** The flattened tree is the one tree without wrappers that reads so. */
  lemma FlattenExactly(fields: seq<Field>, flat: seq<Field>)
    ensures flat == Flatten(fields, false) <==> Flat(flat) && AllLifted(Readings(fields, 0, true), Readings(flat, 0, true))
  {
    FlattenFlat(fields, false);
    FlattenLifts(fields, false, 0);
    if Flat(flat) && AllLifted(Readings(fields, 0, true), Readings(flat, 0, true)) {
      LiftedOnce(Readings(fields, 0, true), Readings(flat, 0, true), Readings(Flatten(fields, false), 0, true));
      ReadingsInjective(flat, Flatten(fields, false), 0, true);
    }
  }

  lemma LiftedOnce(before: seq<Reading>, a: seq<Reading>, b: seq<Reading>)
    requires AllLifted(before, a) && AllLifted(before, b)
    ensures a == b
  {
    forall i | 0 <= i < |before| ensures a[i] == b[i] {
      assert Lifted(before[i], a[i]) && Lifted(before[i], b[i]);
    }
  }
}
