/** The declaration and the parser agree on every field tree, up to the one family of
    children on which they part. */
module ResponseAgreement {
  import Values
  import opened FieldTree
  import opened ResponseStruct
  import opened Sequences

  // ---------------------------------------------------------------- columns

  function NameSet(fields: seq<Field>): set<string> {
    if fields == [] then {} else {fields[0].name} + NameSet(fields[1..])
  }

  function LeafNameSet(kids: seq<Field>): set<string> {
    if kids == [] then {} else (if IsLeaf(kids[0]) then {kids[0].name} else {}) + LeafNameSet(kids[1..])
  }

  function Image(names: set<string>, n: Naming): set<string> {
    set x | x in names :: n.ident(x)
  }

  lemma {:induction false} DedupSpec(kids: seq<Field>, seen: set<string>)
    ensures NameSet(DedupLeaves(kids, seen)) == LeafNameSet(kids) - seen
  {
    hide IsLeaf;
    if kids != [] {
      DedupSpec(kids[1..], seen);
      DedupSpec(kids[1..], seen + {kids[0].name});
      if IsLeaf(kids[0]) && kids[0].name !in seen {
        assert DedupLeaves(kids, seen)[1..] == DedupLeaves(kids[1..], seen + {kids[0].name});
      }
    }
  }

  lemma {:induction false} IdentsSpec(fields: seq<Field>, n: Naming)
    ensures Members(Idents(fields, n)) == Image(NameSet(fields), n)
  {
    if fields == [] {
      assert Idents(fields, n) == [];
    } else {
      IdentsSpec(fields[1..], n);
      assert Idents(fields, n) == [n.ident(fields[0].name)] + Idents(fields[1..], n);
      MembersConcat([n.ident(fields[0].name)], Idents(fields[1..], n));
    }
  }

  lemma {:induction false} LeafNamesSpec(kids: seq<Field>, n: Naming)
    ensures Members(LeafNames(kids, n)) == Image(LeafNameSet(kids), n)
    ensures LeafNames(kids, n) == [] <==> LeafNameSet(kids) == {}
  {
    hide IsLeaf;
    if kids != [] {
      LeafNamesSpec(kids[1..], n);
      var own := if IsLeaf(kids[0]) then [n.ident(kids[0].name)] else [];
      MembersConcat(own, LeafNames(kids[1..], n));
      assert Members(own) == Image(if IsLeaf(kids[0]) then {kids[0].name} else {}, n);
    }
  }

  /** Dropping repeated names drops no column. */
  lemma SameLeaves(kids: seq<Field>, n: Naming)
    ensures Members(Idents(DedupLeaves(kids, {}), n)) == Members(LeafNames(kids, n))
    ensures DedupLeaves(kids, {}) == [] <==> LeafNames(kids, n) == []
  {
    hide IsLeaf;
    DedupSpec(kids, {});
    IdentsSpec(DedupLeaves(kids, {}), n);
    LeafNamesSpec(kids, n);
    assert LeafNameSet(kids) - {} == LeafNameSet(kids);
  }

  lemma {:induction false} SameNested(kids: seq<Field>, n: Naming)
    ensures NestedLiterals(kids, n) == [] <==> NestedNames(kids, n) == []
  {
    if kids != [] {
      SameNested(kids[1..], n);
      SameLeaves(kids[0].children, n);
    }
  }

  lemma {:induction false} UnionNamesNeedUnion(kids: seq<Field>, n: Naming)
    ensures UnionNames(kids, n) != [] ==> HasUnion(kids)
  {
    if kids != [] {
      UnionNamesNeedUnion(kids[1..], n);
      if HasUnion(kids[1..]) {
        var k :| k in kids[1..] && k.fieldType.Union?;
        assert k in kids;
      }
      if kids[0].fieldType.Union? { assert kids[0] in kids; }
    }
  }

  /** The item literal fills in exactly the columns its struct has. */
  lemma SameColumns(f: Field, n: Naming)
    ensures Members(Filled(f, n)) == Members(Columns(f, n))
    ensures Builds(f, n) <==> Columns(f, n) != [] || HasUnion(f.children)
  {
    SameLeaves(f.children, n);
    SameNested(f.children, n);
    UnionNamesNeedUnion(f.children, n);
    var l, l1, u, m := LeafNames(f.children, n), Idents(DedupLeaves(f.children, {}), n), UnionNames(f.children, n), NestedNames(f.children, n);
    MembersConcat(l + u, m); MembersConcat(l, u);
    MembersConcat(l1 + u, m); MembersConcat(l1, u);
  }

  // ---------------------------------------------------------------- names

  lemma {:induction false} LeavesApart(fields: seq<Field>, n: Naming)
    requires UnionsAreBare(fields)
    ensures Members(Declared(fields, true, n)) == Members(Declared(fields, false, n)) + Members(LeafNames(fields, n))
  {
    if fields != [] {
      var f := fields[0];
      LeavesApart(fields[1..], n);
      MembersConcat(DeclaredBy(f, true, n), Declared(fields[1..], true, n));
      MembersConcat(DeclaredBy(f, false, n), Declared(fields[1..], false, n));
      var own := if IsLeaf(f) then [n.ident(f.name)] else [];
      MembersConcat(own, LeafNames(fields[1..], n));
      ChildIsNotLeaf(f);
      if f.fieldType.Union? { BareIsNotLeaf(f); }
      assert Members(DeclaredBy(f, true, n)) == Members(DeclaredBy(f, false, n)) + Members(own);
    }
  }

  lemma BareIsNotLeaf(f: Field)
    requires f.method_ == ""
    ensures !IsLeaf(f) && !IsChild(f)
  {}

  /** What the parser initialises is what is declared, plus the stray children. */
  lemma {:induction false} NamesAgree(fields: seq<Field>, n: Naming)
    requires UnionsAreBare(fields)
    ensures Members(NamesOf(Reads(fields, n))) == Members(Declared(fields, true, n)) + StrayTags(fields, n)
    decreases fields, 0
  {
    if fields != [] {
      NamesAgreeBy(fields[0], n);
      NamesAgree(fields[1..], n);
      NamesConcat(ReadsBy(fields[0], n), Reads(fields[1..], n));
      MembersConcat(NamesOf(ReadsBy(fields[0], n)), NamesOf(Reads(fields[1..], n)));
      MembersConcat(DeclaredBy(fields[0], true, n), Declared(fields[1..], true, n));
    }
  }

  lemma {:induction false} NamesAgreeBy(f: Field, n: Naming)
    requires UnionIsBare(f)
    ensures Members(NamesOf(ReadsBy(f, n))) == Members(DeclaredBy(f, true, n)) + StrayTagsBy(f, n)
    decreases f, 1
  {
    ChildIsNotLeaf(f);
    if !f.fieldType.Union? && IsChild(f) && !IsContentChild(f) && f.children != [] {
      if f.repeats {
        SameColumns(f, n);
        if Builds(f, n) { assert NamesOf(ReadsBy(f, n)) == [n.ident(TagOrName(f))]; }
      } else {
        NamesAgree(f.children, n);
        LeavesApart(f.children, n);
        MembersConcat(LeafNames(f.children, n), Declared(f.children, false, n));
      }
    } else if ReadsBy(f, n) != [] {
      assert NamesOf(ReadsBy(f, n)) == DeclaredBy(f, true, n);
    }
  }

  // ---------------------------------------------------------------- whole trees

  lemma {:induction false} BareConcat(a: seq<Field>, b: seq<Field>)
    ensures UnionsAreBare(a + b) <==> UnionsAreBare(a) && UnionsAreBare(b)
  {
    if a == [] {
      assert a + b == b;
    } else {
      BareConcat(a[1..], b);
      assert (a + b)[1..] == a[1..] + b && (a + b)[0] == a[0];
    }
  }

  lemma {:induction false} FlattenBare(fields: seq<Field>, optional: bool)
    requires UnionsAreBare(fields)
    ensures UnionsAreBare(Flatten(fields, optional))
    decreases fields, 0
  {
    if fields != [] {
      FlattenOneBare(fields[0], optional);
      FlattenBare(fields[1..], optional);
      BareConcat(FlattenOne(fields[0], optional), Flatten(fields[1..], optional));
    }
  }

  lemma {:induction false} FlattenOneBare(f: Field, optional: bool)
    requires UnionIsBare(f)
    ensures UnionsAreBare(FlattenOne(f, optional))
    decreases f, 1
  {
    match f case Field(_, _, _, _, required, sameNode, _, _, _, _, children) =>
    FlattenBare(children, optional || !required);
    FlattenBare(children, optional);
    if !sameNode {
      var out := FlattenOne(f, optional);
      assert UnionIsBare(out[0]) && out[1..] == [];
    }
  }

  /** The fields of the declared struct, in order. */
  function DeclaredFields(fields: seq<Field>, n: Naming): seq<string> {
    Fresh(Declared(Flatten(fields, false), true, n), {})
  }

  /** The initialisers of the struct literal, in order. */
  function Initialisers(fields: seq<Field>, n: Naming): seq<Read> {
    FreshReads(Reads(Flatten(fields, false), n), {})
  }

  /** No field declared or initialised twice; the two name the same fields exactly when
      every stray tag is declared by some other field; and then, repeats being ruled
      out, one is a reordering of the other. */
  lemma StructAgreesWithParser(fields: seq<Field>, n: Naming)
    requires UnionsAreBare(fields)
    ensures Distinct(DeclaredFields(fields, n)) && Distinct(NamesOf(Initialisers(fields, n)))
    ensures Members(DeclaredFields(fields, n)) <= Members(NamesOf(Initialisers(fields, n)))
    ensures var stray := StrayTags(Flatten(fields, false), n);
      Members(NamesOf(Initialisers(fields, n))) == Members(DeclaredFields(fields, n)) <==>
      stray <= Members(Declared(Flatten(fields, false), true, n))
    ensures StrayTags(Flatten(fields, false), n) == {} ==>
      multiset(NamesOf(Initialisers(fields, n))) == multiset(DeclaredFields(fields, n))
  {
    var flat := Flatten(fields, false);
    FlattenBare(fields, false);
    NamesAgree(flat, n);
    FreshNames(Reads(flat, n), {});
    FreshSpec(Declared(flat, true, n), {});
    FreshSpec(NamesOf(Reads(flat, n)), {});
    var a, b := DeclaredFields(fields, n), NamesOf(Initialisers(fields, n));
    assert Members(a) == Members(Declared(flat, true, n));
    assert Members(b) == Members(a) + StrayTags(flat, n);
    if StrayTags(flat, n) == {} { DistinctPermutation(a, b); }
  }

  lemma {:induction false} DistinctCount(a: seq<string>, x: string)
    requires Distinct(a)
    ensures multiset(a)[x] == if x in a then 1 else 0
  {
    if a != [] {
      DistinctCount(a[1..], x);
      assert a == [a[0]] + a[1..];
    }
  }

  lemma DistinctPermutation(a: seq<string>, b: seq<string>)
    requires Distinct(a) && Distinct(b) && Members(a) == Members(b)
    ensures multiset(a) == multiset(b)
  {
    forall x ensures multiset(a)[x] == multiset(b)[x] {
      DistinctCount(a, x);
      DistinctCount(b, x);
      assert x in a <==> x in Members(a);
      assert x in b <==> x in Members(b);
    }
  }

  lemma {:induction false} FreshIsMember(rs: seq<Read>, seen: set<string>)
    ensures forall r | r in FreshReads(rs, seen) :: r in rs
  {
    if rs != [] {
      FreshIsMember(rs[1..], seen);
      FreshIsMember(rs[1..], seen + {rs[0].name});
    }
  }

  // ---------------------------------------------------------------- where it fails

  /** One repeated `<item>` whose only kid is a union nobody can turn into an enum. */
  function StrayTree(): seq<Field> {
    var bare := Field("", "kind", Values.None, Union, true, false, false, false, Values.None, Values.None, []);
    [Field("mapChildrenWithTag", "items", Values.Some("item"), OtherType, true, false, true, false, Values.None, Values.None, [bare])]
  }

  /** What one kid without accessor amounts to. */
  lemma BareKid(kids: seq<Field>, n: Naming)
    requires |kids| == 1 && kids[0].method_ == "" && !n.supported(kids[0])
    ensures LeafNames(kids, n) == [] && DedupLeaves(kids, {}) == [] && UnionNames(kids, n) == []
    ensures NestedNames(kids, n) == [] && NestedLiterals(kids, n) == [] && NestedStructs(kids, n) == []
  {
    BareIsNotLeaf(kids[0]);
    assert kids[1..] == [];
    hide IsLeaf;
    assert !RepeatsWithin(kids[0]);
    hide RepeatsWithin;
  }

  lemma StrayChild(f: Field, n: Naming)
    requires f.fieldType.OtherType? && IsChild(f) && !IsContentChild(f) && f.repeats
    requires |f.children| == 1 && f.children[0].fieldType.Union? && f.children[0].method_ == "" && !n.supported(f.children[0])
    ensures DeclaredBy(f, true, n) == [] && StructsBy(f, n) == []
    ensures ReadsBy(f, n) == [Read(n.ident(TagOrName(f)), [Struct(StructName(f, n), [])])]
  {
    BareKid(f.children, n);
    ChildIsNotLeaf(f);
    assert f.children[0] in f.children;
    hide LeafNames, DedupLeaves, UnionNames, NestedNames, NestedLiterals, NestedStructs, IsLeaf, IsChild, IsContentChild, StructName;
    assert Filled(f, n) == [] && Columns(f, n) == [] && Builds(f, n);
    var literal := Struct(StructName(f, n), Filled(f, n));
    assert NestedLiterals(f.children, n) + [literal] == [literal];
  }

  /** The parser then initialises a field that was never declared, with a literal of a
      struct that was never declared either. */
  lemma StrayChildrenDisagree(n: Naming)
    requires !n.supported(StrayTree()[0].children[0])
    ensures UnionsAreBare(StrayTree()) && StrayTags(Flatten(StrayTree(), false), n) == {n.ident("item")}
    ensures !(StrayTags(Flatten(StrayTree(), false), n) <= Members(Declared(Flatten(StrayTree(), false), true, n)))
    ensures DeclaredFields(StrayTree(), n) == [] && Structs(Flatten(StrayTree(), false), n) == []
    ensures Initialisers(StrayTree(), n) == [Read(n.ident("item"), [Struct(n.prefix + n.pascal("item") + "Item", [])])]
  {
    var item := StrayTree()[0];
    assert item.children[1..] == [] && StrayTree()[1..] == [];
    assert Flat(item.children) && Flat(StrayTree());
    FlattenFixed(StrayTree());
    assert !IsContentChild(item) by { assert item.children[0] in item.children && !IsContent(item.children[0]); }
    assert IsChild(item);
    StrayChild(item, n);
    var read := Read(n.ident("item"), [Struct(StructName(item, n), [])]);
    assert Reads(StrayTree(), n) == [read] by { assert Reads(StrayTree()[1..], n) == []; }
    assert Declared(StrayTree(), true, n) == [] by { assert Declared(StrayTree()[1..], true, n) == []; }
    assert Structs(StrayTree(), n) == [] by { assert Structs(StrayTree()[1..], n) == []; }
    assert StrayTags(StrayTree(), n) == {n.ident("item")};
    assert n.ident("item") in StrayTags(StrayTree(), n);
    assert [read][1..] == [] && FreshReads([read], {}) == [read] + FreshReads([read][1..], {read.name});
  }
}
