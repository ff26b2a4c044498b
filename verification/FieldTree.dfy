/** The response field tree, the classification of accessor methods, and the
    flattening of fields that are read off their parent's node. */
module FieldTree {
  import opened Values

  datatype FieldType = Union | BoolType | OtherType

  datatype Field = Field(
    method_: string, name: string, tag: Option<string>, fieldType: FieldType,
    required: bool, sameNode: bool, repeats: bool, hasContentType: bool,
    intMin: Option<int>, intMax: Option<int>, children: seq<Field>)

  // ---------------------------------------------------------------- accessor methods

  const HAS_ATTR := "hasAttr"
  const CHILD := "child"
  const MAYBE_CHILD := "maybeChild"

  const CHILD_METHODS: set<string> := {CHILD, MAYBE_CHILD, "forEachChildWithTag", "mapChildren", "mapChildrenWithTag"}

  const CONTENT_METHODS: set<string> := {
    "contentString", "contentBytes", "contentInt", "contentUint", "contentEnum",
    "contentStringEnum", "contentBytesRange", "contentLiteralBytes"
  }

  predicate EndsWith(s: string, suffix: string) {
    |suffix| <= |s| && s[|s| - |suffix|..] == suffix
  }

  predicate Contains(s: string, part: string) {
    exists i :: 0 <= i <= |s| && part <= s[i..]
  }

  predicate IsAttrMethod(m: string) {
    var literal := "literal" <= m && !Contains(m, "Content");
    var attr := ("attr" <= m || "maybeAttr" <= m) && m != HAS_ATTR;
    (attr || literal) && !EndsWith(m, "FromReference")
  }

  predicate IsChild(f: Field) {
    f.method_ in CHILD_METHODS
  }

  predicate IsContent(f: Field) {
    f.method_ in CONTENT_METHODS
  }

  predicate IsAttr(f: Field) {
    IsAttrMethod(f.method_) || IsContent(f) || f.method_ == HAS_ATTR
  }

  /** An attribute or content leaf that becomes a struct field. */
  predicate IsLeaf(f: Field) {
    IsAttr(f) && f.method_ != HAS_ATTR
  }

  function TagOrName(f: Field): string {
    match f.tag case Some(t) => t case None => f.name
  }

  /** A child whose whole body is its content: one field, named by the tag. */
  predicate IsContentChild(f: Field) {
    f.hasContentType ||
    ((f.method_ == CHILD || f.method_ == MAYBE_CHILD) && f.children != [] && forall k | k in f.children :: IsContent(k))
  }

  /** A child accessor starts with `child`, `m` or `f`, an attribute one with `attr`,
      `maybeAttr` or `literal`; `maybeChild` and `maybeAttr` part at their sixth letter. */
  lemma ChildSpelling(m: string)
    requires m in CHILD_METHODS
    ensures |m| > 5 || m == CHILD
    ensures m[0] != 'a' && m[0] != 'l' && m[0] != 'h' && (m[0] == 'm' && m[2] == 'y' ==> m[5] == 'C')
    ensures m !in CONTENT_METHODS
  {
    assert m == "child" || m == "maybeChild" || m == "forEachChildWithTag" || m == "mapChildren" || m == "mapChildrenWithTag";
  }

  lemma AttrSpelling(m: string)
    requires IsAttrMethod(m)
    ensures m != "" && (m[0] == 'a' || m[0] == 'l' || (|m| > 5 && m[0] == 'm' && m[2] == 'y' && m[5] == 'A'))
  {
    hide Contains, EndsWith;
  }

  /** No accessor reads both a child element and a value. */
  lemma ChildIsNotLeaf(f: Field)
    ensures IsChild(f) ==> !IsAttr(f)
  {
    if IsChild(f) {
      ChildSpelling(f.method_);
      assert f.method_ != HAS_ATTR;
      hide IsAttrMethod;
      if IsAttrMethod(f.method_) { AttrSpelling(f.method_); }
    }
  }

  // ---------------------------------------------------------------- flattening

  /** Lifted out of an optional wrapper: no longer required, in its lenient spelling. */
  function Weaken(f: Field): (g: Field)
    ensures !g.required && g == f.(required := false, method_ := g.method_)
    ensures IsChild(g) == IsChild(f) && IsContent(g) == IsContent(f)
  {
    var m := if f.method_ == "attrString" then "maybeAttrString"
      else if f.method_ == "attrInt" then "maybeAttrInt"
      else if f.method_ == "attrEnum" then "maybeAttrEnum"
      else f.method_;
    f.(required := false, method_ := m)
  }

  function Flatten(fields: seq<Field>, optional: bool): seq<Field>
    decreases fields, 0
  {
    if fields == [] then [] else FlattenOne(fields[0], optional) + Flatten(fields[1..], optional)
  }

  function FlattenOne(f: Field, optional: bool): seq<Field>
    decreases f, 1
  {
    match f case Field(_, _, _, _, required, sameNode, _, _, _, _, children) =>
    if sameNode then Flatten(children, optional || !required)
    else [(if optional then Weaken(f) else f).(children := Flatten(children, optional))]
  }

  /** Nothing below reads off its parent's node. */
  predicate Flat(fields: seq<Field>)
    decreases fields, 0
  {
    fields == [] || (FlatField(fields[0]) && Flat(fields[1..]))
  }

  predicate FlatField(f: Field)
    decreases f, 1
  {
    match f case Field(_, _, _, _, _, sameNode, _, _, _, _, children) =>
    !sameNode && Flat(children)
  }

  lemma {:induction false} FlatConcat(a: seq<Field>, b: seq<Field>)
    ensures Flat(a + b) <==> Flat(a) && Flat(b)
  {
    if a == [] {
      assert a + b == b;
    } else {
      FlatConcat(a[1..], b);
      assert (a + b)[1..] == a[1..] + b;
    }
  }

  lemma {:induction false} FlattenFlat(fields: seq<Field>, optional: bool)
    ensures Flat(Flatten(fields, optional))
    decreases fields, 0
  {
    if fields != [] {
      FlattenOneFlat(fields[0], optional);
      FlattenFlat(fields[1..], optional);
      FlatConcat(FlattenOne(fields[0], optional), Flatten(fields[1..], optional));
    }
  }

  lemma {:induction false} FlattenOneFlat(f: Field, optional: bool)
    ensures Flat(FlattenOne(f, optional))
    decreases f, 1
  {
    match f case Field(_, _, _, _, required, sameNode, _, _, _, _, children) =>
    FlattenFlat(children, optional || !required);
    FlattenFlat(children, optional);
    if !sameNode {
      var out := FlattenOne(f, optional);
      assert FlatField(out[0]) && out[1..] == [];
    }
  }

  /** Flattening a flattened tree changes nothing: both generators may flatten at
      every level they descend to. */
  lemma {:induction false} FlattenFixed(fields: seq<Field>)
    requires Flat(fields)
    ensures Flatten(fields, false) == fields
    decreases fields, 0
  {
    if fields != [] {
      FlattenOneFixed(fields[0]);
      FlattenFixed(fields[1..]);
      assert [fields[0]] + fields[1..] == fields;
    }
  }

  lemma {:induction false} FlattenOneFixed(f: Field)
    requires FlatField(f)
    ensures FlattenOne(f, false) == [f]
    decreases f, 1
  {
    match f case Field(_, _, _, _, _, _, _, _, _, _, children) =>
    FlattenFixed(children);
  }

  lemma FlattenIdempotent(fields: seq<Field>, optional: bool)
    ensures Flatten(Flatten(fields, optional), false) == Flatten(fields, optional)
  {
    FlattenFlat(fields, optional);
    FlattenFixed(Flatten(fields, optional));
  }

  /** Everything lifted out of an optional wrapper is optional, to any depth. */
  lemma {:induction false} LiftedAreOptional(fields: seq<Field>)
    ensures forall f | f in Flatten(fields, true) :: !f.required
    decreases fields, 0
  {
    if fields != [] {
      LiftedOneIsOptional(fields[0]);
      LiftedAreOptional(fields[1..]);
    }
  }

  lemma {:induction false} LiftedOneIsOptional(f: Field)
    ensures forall g | g in FlattenOne(f, true) :: !g.required
    decreases f, 1
  {
    match f case Field(_, _, _, _, _, sameNode, _, _, _, _, children) =>
    if sameNode { LiftedAreOptional(children); }
  }

  /** The hoisting loop. */
  method FlattenSameNode(fields: seq<Field>, optional: bool) returns (out: seq<Field>)
    ensures out == Flatten(fields, optional)
    decreases fields
  {
    out := [];
    for i := 0 to |fields|
      invariant Flatten(fields, optional) == out + Flatten(fields[i..], optional)
    {
      assert fields[i..][0] == fields[i] && fields[i..][1..] == fields[i + 1..];
      match fields[i] {
        case Field(_, _, _, _, required, sameNode, _, _, _, _, children) =>
          if sameNode {
            var lifted := FlattenSameNode(children, optional || !required);
            out := out + lifted;
          } else {
            var f := fields[i];
            if optional { f := Weaken(f); }
            var below := FlattenSameNode(children, optional);
            out := out + [f.(children := below)];
          }
      }
    }
  }

  // ---------------------------------------------------------------- size

  /** Number of fields in the tree. */
  function Size(fields: seq<Field>): nat
    decreases fields, 0
  {
    if fields == [] then 0 else SizeOf(fields[0]) + Size(fields[1..])
  }

  function SizeOf(f: Field): (n: nat)
    ensures n >= 1
    decreases f, 1
  {
    match f case Field(_, _, _, _, _, _, _, _, _, _, children) =>
    1 + Size(children)
  }

  lemma {:induction false} SizeConcat(a: seq<Field>, b: seq<Field>)
    ensures Size(a + b) == Size(a) + Size(b)
  {
    if a == [] {
      assert a + b == b;
    } else {
      SizeConcat(a[1..], b);
      assert (a + b)[1..] == a[1..] + b;
    }
  }

  lemma {:induction false} FlattenSize(fields: seq<Field>, optional: bool)
    ensures Size(Flatten(fields, optional)) <= Size(fields)
    decreases fields, 0
  {
    if fields != [] {
      FlattenOneSize(fields[0], optional);
      FlattenSize(fields[1..], optional);
      SizeConcat(FlattenOne(fields[0], optional), Flatten(fields[1..], optional));
    }
  }

  lemma {:induction false} FlattenOneSize(f: Field, optional: bool)
    ensures Size(FlattenOne(f, optional)) <= SizeOf(f)
    decreases f, 1
  {
    match f case Field(_, _, _, _, required, sameNode, _, _, _, _, children) =>
    FlattenSize(children, optional || !required);
    FlattenSize(children, optional);
    if !sameNode {
      var out := FlattenOne(f, optional);
      assert out[1..] == [];
      assert SizeOf(out[0]) == 1 + Size(Flatten(children, optional));
    }
  }

  lemma {:induction false} SizeAt(fields: seq<Field>, i: nat)
    requires i < |fields|
    ensures SizeOf(fields[i]) <= Size(fields)
    ensures Size(fields[i].children) < Size(fields)
  {
    if i > 0 {
      SizeAt(fields[1..], i - 1);
    }
    var f := fields[i];
    match f case Field(_, _, _, _, _, _, _, _, _, _, children) =>
    assert SizeOf(f) == 1 + Size(f.children);
  }
}
