/** What the declared and the initialised struct hold of the tree as it was extracted,
    wrappers and all: neither walk leaves out a field the other one leaves out too. */
module ResponseCoverage {
  import opened FieldTree
  import opened ResponseStruct
  import opened ResponseAgreement

  /** A field that is no wrapper, and whether a wrapper around it is optional. */
  datatype Kid = Kid(field: Field, optional: bool)

  /** The fields right below a node: wrappers are read off it, so what they hold is too. */
  function Kids(fields: seq<Field>, optional: bool): seq<Kid>
    decreases fields
  {
    if fields == [] then []
    else KidsOf(fields[0], optional) + Kids(fields[1..], optional)
  }

  function KidsOf(f: Field, optional: bool): seq<Kid>
    decreases f
  {
    match f case Field(_, _, _, _, required, sameNode, _, _, _, _, children) =>
    if sameNode then Kids(children, optional || !required) else [Kid(f, optional)]
  }

  /** The field as a walk meets it, which is what a union's support is judged on. */
  function Met(k: Kid): Field {
    (if k.optional then Weaken(k.field) else k.field).(children := Flatten(k.field.children, k.optional))
  }

  predicate Supported(k: Kid, n: Naming) {
    k.field.fieldType.Union? && n.supported(Met(k))
  }

  function LeafIdents(kids: seq<Kid>, n: Naming): set<string> {
    set k | k in kids && IsLeaf(k.field) :: n.ident(k.field.name)
  }

  /** Columns of an item: its leaves, its supported unions, and its repeated children with
      leaves of their own. */
  function ColumnIdents(kids: seq<Kid>, n: Naming): set<string> {
    LeafIdents(kids, n) +
    (set k | k in kids && Supported(k, n) :: n.ident(k.field.name)) +
    (set k | k in kids && IsChild(k.field) && k.field.repeats && LeafIdents(Kids(k.field.children, k.optional), n) != {} ::
       n.ident(TagOrName(k.field)))
  }

  /** A child with nothing but its content below it. */
  predicate ContentOnly(k: Kid) {
    k.field.hasContentType ||
    ((k.field.method_ == CHILD || k.field.method_ == MAYBE_CHILD) && Kids(k.field.children, k.optional) != [] &&
     forall below | below in Kids(k.field.children, k.optional) :: IsContent(below.field))
  }

  /** The fields the struct must have. */
  function Wanted(fields: seq<Field>, optional: bool, n: Naming): set<string>
    decreases fields, 0
  {
    if fields == [] then {} else WantedBy(fields[0], optional, n) + Wanted(fields[1..], optional, n)
  }

  function WantedBy(f: Field, optional: bool, n: Naming): set<string>
    decreases f, 1
  {
    match f case Field(_, name, _, fieldType, required, sameNode, repeats, _, _, _, children) =>
    if sameNode then Wanted(children, optional || !required, n)
    else if fieldType.Union? then (if Supported(Kid(f, optional), n) then {n.ident(name)} else {})
    else if IsLeaf(f) then {n.ident(name)}
    else if !IsChild(f) then {}
    else if ContentOnly(Kid(f, optional)) then {n.ident(TagOrName(f))}
    else if !repeats then Wanted(children, optional, n)
    else if ColumnIdents(Kids(children, optional), n) != {} then {n.ident(TagOrName(f))}
    else {}
  }

  // ---------------------------------------------------------------- kids as the walks meet them

  function AllMet(kids: seq<Kid>): (fields: seq<Field>)
    ensures |fields| == |kids| && forall i | 0 <= i < |kids| :: fields[i] == Met(kids[i])
  {
    seq(|kids|, i requires 0 <= i < |kids| => Met(kids[i]))
  }

  lemma {:induction false} FlattenMeets(fields: seq<Field>, optional: bool)
    ensures Flatten(fields, optional) == AllMet(Kids(fields, optional))
    decreases fields, 0
  {
    if fields != [] {
      FlattenOneMeets(fields[0], optional);
      FlattenMeets(fields[1..], optional);
      hide Met;
      assert AllMet(KidsOf(fields[0], optional) + Kids(fields[1..], optional)) ==
             AllMet(KidsOf(fields[0], optional)) + AllMet(Kids(fields[1..], optional));
    }
  }

  lemma {:induction false} FlattenOneMeets(f: Field, optional: bool)
    ensures FlattenOne(f, optional) == AllMet(KidsOf(f, optional))
    decreases f, 1
  {
    match f case Field(_, _, _, _, required, sameNode, _, _, _, _, children) =>
    if sameNode { FlattenMeets(children, optional || !required); }
  }

  lemma NoReference(m: string)
    requires |m| < 13 || m[|m| - 13] != 'F'
    ensures !EndsWith(m, "FromReference")
  {
    assert |m| >= 13 ==> m[|m| - 13..][0] == m[|m| - 13];
  }

  lemma PlainAttr(m: string)
    requires ("attr" <= m || "maybeAttr" <= m) && m != HAS_ATTR && (|m| < 13 || m[|m| - 13] != 'F')
    ensures IsAttrMethod(m)
  {
    NoReference(m);
    hide EndsWith, Contains;
  }

  lemma WeakenedAttrs()
    ensures IsAttrMethod("attrString") && IsAttrMethod("attrInt") && IsAttrMethod("attrEnum")
    ensures IsAttrMethod("maybeAttrString") && IsAttrMethod("maybeAttrInt") && IsAttrMethod("maybeAttrEnum")
  {
    hide IsAttrMethod;
    PlainAttr("attrString"); PlainAttr("attrInt"); PlainAttr("attrEnum");
    PlainAttr("maybeAttrString"); PlainAttr("maybeAttrInt"); PlainAttr("maybeAttrEnum");
  }

  lemma WeakenedLeaf(f: Field)
    ensures IsLeaf(Weaken(f)) == IsLeaf(f)
    ensures (Weaken(f).method_ == CHILD || Weaken(f).method_ == MAYBE_CHILD) <==> (f.method_ == CHILD || f.method_ == MAYBE_CHILD)
  {
    WeakenedAttrs();
    hide IsAttrMethod;
  }

  /** Weakening changes neither kind nor name. */
  lemma MetSame(k: Kid)
    ensures var g := Met(k);
      g.name == k.field.name && TagOrName(g) == TagOrName(k.field) && g.fieldType == k.field.fieldType &&
      g.repeats == k.field.repeats && g.hasContentType == k.field.hasContentType &&
      g.children == Flatten(k.field.children, k.optional)
    ensures IsChild(Met(k)) == IsChild(k.field) && IsContent(Met(k)) == IsContent(k.field) && IsLeaf(Met(k)) == IsLeaf(k.field)
    ensures (Met(k).method_ == CHILD || Met(k).method_ == MAYBE_CHILD) <==> (k.field.method_ == CHILD || k.field.method_ == MAYBE_CHILD)
  {
    WeakenedLeaf(k.field);
    hide IsAttrMethod, Flatten;
  }

  lemma AllMetHas(kids: seq<Kid>, g: Field)
    ensures g in AllMet(kids) <==> exists k :: k in kids && Met(k) == g
  {
    hide Met;
    if k :| k in kids && Met(k) == g {
      var i :| 0 <= i < |kids| && kids[i] == k;
      assert AllMet(kids)[i] == g;
    }
  }

  // ---------------------------------------------------------------- columns

  lemma {:induction false} LeavesMet(kids: seq<Kid>, n: Naming)
    ensures Members(LeafNames(AllMet(kids), n)) == LeafIdents(kids, n)
  {
    hide IsLeaf, Met;
    if kids != [] {
      LeavesMet(kids[1..], n);
      MetSame(kids[0]);
      assert AllMet(kids)[1..] == AllMet(kids[1..]);
      var own := if IsLeaf(kids[0].field) then [n.ident(kids[0].field.name)] else [];
      MembersConcat(own, LeafNames(AllMet(kids[1..]), n));
      assert LeafIdents(kids, n) == Members(own) + LeafIdents(kids[1..], n) by {
        assert forall k :: k in kids <==> k == kids[0] || k in kids[1..];
      }
    }
  }

  function UnionIdents(kids: seq<Kid>, n: Naming): set<string> {
    set k | k in kids && Supported(k, n) :: n.ident(k.field.name)
  }

  lemma {:induction false} UnionsMet(kids: seq<Kid>, n: Naming)
    ensures Members(UnionNames(AllMet(kids), n)) == UnionIdents(kids, n)
  {
    hide Met;
    if kids != [] {
      UnionsMet(kids[1..], n);
      MetSame(kids[0]);
      assert AllMet(kids)[1..] == AllMet(kids[1..]);
      var own := if Supported(kids[0], n) then [n.ident(kids[0].field.name)] else [];
      MembersConcat(own, UnionNames(AllMet(kids[1..]), n));
      hide Supported;
      assert UnionIdents(kids, n) == Members(own) + UnionIdents(kids[1..], n) by {
        assert forall k :: k in kids <==> k == kids[0] || k in kids[1..];
      }
    }
  }

  predicate Nests(k: Kid, n: Naming) {
    IsChild(k.field) && k.field.repeats && LeafIdents(Kids(k.field.children, k.optional), n) != {}
  }

  function NestedIdents(kids: seq<Kid>, n: Naming): set<string> {
    set k | k in kids && Nests(k, n) :: n.ident(TagOrName(k.field))
  }

  lemma NestsMet(k: Kid, n: Naming)
    ensures Nests(k, n) <==> RepeatsWithin(Met(k)) && LeafNames(Met(k).children, n) != []
  {
    MetSame(k);
    FlattenMeets(k.field.children, k.optional);
    LeavesMet(Kids(k.field.children, k.optional), n);
    hide IsLeaf, Met, LeafIdents, Kids, Flatten, IsChild;
    var names := LeafNames(Met(k).children, n);
    assert names != [] ==> names[0] in Members(names);
  }

  lemma {:induction false} NestedMet(kids: seq<Kid>, n: Naming)
    ensures Members(NestedNames(AllMet(kids), n)) == NestedIdents(kids, n)
  {
    hide Met, RepeatsWithin, LeafNames;
    if kids != [] {
      NestedMet(kids[1..], n);
      MetSame(kids[0]);
      NestsMet(kids[0], n);
      assert AllMet(kids)[1..] == AllMet(kids[1..]);
      var own := if Nests(kids[0], n) then [n.ident(TagOrName(kids[0].field))] else [];
      MembersConcat(own, NestedNames(AllMet(kids[1..]), n));
      hide Nests;
      assert NestedIdents(kids, n) == Members(own) + NestedIdents(kids[1..], n) by {
        assert forall k :: k in kids <==> k == kids[0] || k in kids[1..];
      }
    }
  }

  /** The columns declared for an item are those the tree has. */
  lemma ColumnsWanted(k: Kid, n: Naming)
    ensures Members(Columns(Met(k), n)) == ColumnIdents(Kids(k.field.children, k.optional), n)
  {
    var kids := Kids(k.field.children, k.optional);
    MetSame(k);
    FlattenMeets(k.field.children, k.optional);
    LeavesMet(kids, n);
    UnionsMet(kids, n);
    NestedMet(kids, n);
    hide Met, LeafNames, UnionNames, NestedNames, Kids, Flatten, Supported, LeafIdents;
    var g := Met(k);
    MembersConcat(LeafNames(g.children, n) + UnionNames(g.children, n), NestedNames(g.children, n));
    MembersConcat(LeafNames(g.children, n), UnionNames(g.children, n));
    assert NestedIdents(kids, n) == set j | j in kids && IsChild(j.field) && j.field.repeats && LeafIdents(Kids(j.field.children, j.optional), n) != {} :: n.ident(TagOrName(j.field));
  }

  lemma ContentMet(k: Kid)
    ensures IsContentChild(Met(k)) <==> ContentOnly(k)
  {
    MetSame(k);
    var kids := Kids(k.field.children, k.optional);
    FlattenMeets(k.field.children, k.optional);
    forall below | below in kids ensures IsContent(Met(below)) == IsContent(below.field) && Met(below) in AllMet(kids) {
      MetSame(below);
      AllMetHas(kids, Met(below));
    }
    hide Met, Kids, Flatten, IsContent;
    assert forall i | 0 <= i < |kids| :: AllMet(kids)[i] == Met(kids[i]) && kids[i] in kids;
  }

  // ---------------------------------------------------------------- fields

  lemma {:induction false} DeclaredConcat(a: seq<Field>, b: seq<Field>, leaves: bool, n: Naming)
    ensures Declared(a + b, leaves, n) == Declared(a, leaves, n) + Declared(b, leaves, n)
  {
    hide DeclaredBy;
    if a == [] {
      assert a + b == b;
    } else {
      assert (a + b)[1..] == a[1..] + b && (a + b)[0] == a[0];
      DeclaredConcat(a[1..], b, leaves, n);
    }
  }

  lemma {:induction false} DeclaredWanted(fields: seq<Field>, optional: bool, n: Naming)
    requires UnionsAreBare(fields)
    ensures Members(Declared(Flatten(fields, optional), true, n)) == Wanted(fields, optional, n)
    decreases fields, 0
  {
    if fields != [] {
      var a, b := FlattenOne(fields[0], optional), Flatten(fields[1..], optional);
      DeclaredOneWanted(fields[0], optional, n);
      DeclaredWanted(fields[1..], optional, n);
      hide FlattenOne, WantedBy, DeclaredBy;
      DeclaredConcat(a, b, true, n);
      MembersConcat(Declared(a, true, n), Declared(b, true, n));
    }
  }

  lemma {:induction false} DeclaredOneWanted(f: Field, optional: bool, n: Naming)
    requires UnionIsBare(f)
    ensures Members(Declared(FlattenOne(f, optional), true, n)) == WantedBy(f, optional, n)
    decreases f, 1
  {
    match f case Field(_, _, _, _, required, sameNode, repeats, _, _, _, children) =>
    if sameNode {
      DeclaredWanted(children, optional || !required, n);
    } else {
      var k := Kid(f, optional);
      var g := Met(k);
      assert FlattenOne(f, optional) == [g];
      assert Declared([g], true, n) == DeclaredBy(g, true, n) by { assert [g][1..] == []; hide DeclaredBy; }
      DeclaredWanted(children, optional, n);
      FlattenBare(children, optional);
      MetDeclares(k, n);
    }
  }

  /** One field that is no wrapper, once what is below it is known to agree. */
  lemma MetDeclares(k: Kid, n: Naming)
    requires !k.field.sameNode && UnionIsBare(k.field) && UnionsAreBare(Flatten(k.field.children, k.optional))
    requires Members(Declared(Flatten(k.field.children, k.optional), true, n)) == Wanted(k.field.children, k.optional, n)
    ensures Members(DeclaredBy(Met(k), true, n)) == WantedBy(k.field, k.optional, n)
  {
    var g, kids := Met(k), Kids(k.field.children, k.optional);
    MetSame(k);
    ContentMet(k);
    ColumnsWanted(k, n);
    ChildIsNotLeaf(k.field);
    LeavesApart(g.children, n);
    MembersConcat(LeafNames(g.children, n), Declared(g.children, false, n));
    assert k.field.fieldType.Union? ==> k.field.method_ == "";
    hide *;
    NoColumns(g, n);
    if g.children == [] { NothingWanted(k, n); }
    DeclaredForms(g, n);
    WantedForms(k.field, k.optional, n);
    OneMember(n.ident(g.name));
    OneMember(n.ident(TagOrName(g)));
  }

  lemma OneMember(x: string)
    ensures Members([x]) == {x} && Members([]) == {}
  {}

  lemma NoColumns(g: Field, n: Naming)
    ensures Columns(g, n) == [] <==> Members(Columns(g, n)) == {}
  {
    hide Columns;
    assert Columns(g, n) != [] ==> Columns(g, n)[0] in Members(Columns(g, n));
  }

  lemma DeclaredForms(g: Field, n: Naming)
    ensures DeclaredBy(g, true, n) ==
      if g.fieldType.Union? then (if n.supported(g) then [n.ident(g.name)] else [])
      else if IsChild(g) then
        if IsContentChild(g) then [n.ident(TagOrName(g))]
        else if g.children == [] then []
        else if g.repeats then (if Columns(g, n) != [] then [n.ident(TagOrName(g))] else [])
        else LeafNames(g.children, n) + Declared(g.children, false, n)
      else if IsLeaf(g) then [n.ident(g.name)]
      else []
  {
    hide IsChild, IsLeaf, IsContentChild, Columns, LeafNames, TagOrName;
  }

  lemma WantedForms(f: Field, optional: bool, n: Naming)
    requires !f.sameNode
    ensures WantedBy(f, optional, n) ==
      if f.fieldType.Union? then (if n.supported(Met(Kid(f, optional))) then {n.ident(f.name)} else {})
      else if IsLeaf(f) then {n.ident(f.name)}
      else if !IsChild(f) then {}
      else if ContentOnly(Kid(f, optional)) then {n.ident(TagOrName(f))}
      else if !f.repeats then Wanted(f.children, optional, n)
      else if ColumnIdents(Kids(f.children, optional), n) != {} then {n.ident(TagOrName(f))}
      else {}
  {
    hide Met, IsChild, IsLeaf, ContentOnly, ColumnIdents, Kids, TagOrName;
  }

  lemma NothingWanted(k: Kid, n: Naming)
    requires Members(Declared(Flatten(k.field.children, k.optional), true, n)) == Wanted(k.field.children, k.optional, n)
    requires Met(k).children == []
    ensures Wanted(k.field.children, k.optional, n) == {} && ColumnIdents(Kids(k.field.children, k.optional), n) == {}
  {
    MetSame(k);
    ColumnsWanted(k, n);
    hide Met, Wanted, ColumnIdents, Kids, Flatten;
    assert Declared([], true, n) == [] && Columns(Met(k), n) == [];
  }

  /** The declared struct has exactly the fields the extracted tree asks for, and the parser
      fills in each of them, and no others where no child is stray. */
  lemma StructHoldsTree(fields: seq<Field>, n: Naming)
    requires UnionsAreBare(fields)
    ensures Members(DeclaredFields(fields, n)) == Wanted(fields, false, n)
    ensures Wanted(fields, false, n) <= Members(NamesOf(Initialisers(fields, n)))
    ensures StrayTags(Flatten(fields, false), n) == {} ==> Members(NamesOf(Initialisers(fields, n))) == Wanted(fields, false, n)
  {
    StructAgreesWithParser(fields, n);
    DeclaredWanted(fields, false, n);
    FreshSpec(Declared(Flatten(fields, false), true, n), {});
    hide Flatten, Declared, Wanted, Reads, StrayTags;
  }

  /** Each repeated child with a column is read into literals of its own struct, which fill
      in exactly the columns the tree has. */
  lemma LiteralHoldsItem(k: Kid, n: Naming)
    requires IsChild(k.field) && !k.field.fieldType.Union? && k.field.repeats && !ContentOnly(k)
    requires ColumnIdents(Kids(k.field.children, k.optional), n) != {}
    ensures var literal := Struct(StructName(k.field, n), Filled(Met(k), n));
      |ReadsBy(Met(k), n)| == 1 && literal in ReadsBy(Met(k), n)[0].builds &&
      Members(literal.columns) == ColumnIdents(Kids(k.field.children, k.optional), n)
  {
    var g := Met(k);
    MetSame(k);
    ContentMet(k);
    ColumnsWanted(k, n);
    ChildIsNotLeaf(k.field);
    SameColumns(g, n);
    NoColumns(g, n);
    assert g.children == [] ==> Columns(g, n) == [];
    hide Met, IsChild, IsLeaf, IsContentChild, ContentOnly, Columns, ColumnIdents, Kids, Filled, Builds, NestedLiterals, TagOrName;
    var literal := Struct(StructName(g, n), Filled(g, n));
    assert (NestedLiterals(g.children, n) + [literal])[|NestedLiterals(g.children, n)|] == literal;
  }

  // ---------------------------------------------------------------- leaves

  /** Names of the leaves reached through wrappers and single children. */
  function Leaves(fields: seq<Field>, optional: bool): set<string>
    decreases fields, 0
  {
    if fields == [] then {} else LeavesOf(fields[0], optional) + Leaves(fields[1..], optional)
  }

  function LeavesOf(f: Field, optional: bool): set<string>
    decreases f, 1
  {
    match f case Field(_, name, _, fieldType, required, sameNode, repeats, _, _, _, children) =>
    if sameNode then Leaves(children, optional || !required)
    else if IsLeaf(f) && !fieldType.Union? then {name}
    else if IsChild(f) && !repeats && !fieldType.Union? && !ContentOnly(Kid(f, optional)) then Leaves(children, optional)
    else {}
  }

  lemma {:induction false} LeavesAreWanted(fields: seq<Field>, optional: bool, n: Naming)
    ensures forall x | x in Leaves(fields, optional) :: n.ident(x) in Wanted(fields, optional, n)
    decreases fields, 0
  {
    if fields != [] {
      LeavesOfAreWanted(fields[0], optional, n);
      LeavesAreWanted(fields[1..], optional, n);
    }
  }

  lemma {:induction false} LeavesOfAreWanted(f: Field, optional: bool, n: Naming)
    ensures forall x | x in LeavesOf(f, optional) :: n.ident(x) in WantedBy(f, optional, n)
    decreases f, 1
  {
    match f case Field(_, _, _, _, required, _, _, _, _, _, children) =>
    LeavesAreWanted(children, optional || !required, n);
    LeavesAreWanted(children, optional, n);
    ChildIsNotLeaf(f);
    hide IsLeaf, IsChild, ContentOnly, ColumnIdents, Supported;
  }

  /** Every such leaf is a field of the struct and is filled in. */
  lemma LeavesKept(fields: seq<Field>, n: Naming)
    requires UnionsAreBare(fields)
    ensures forall x | x in Leaves(fields, false) ::
      n.ident(x) in DeclaredFields(fields, n) && n.ident(x) in NamesOf(Initialisers(fields, n))
  {
    LeavesAreWanted(fields, false, n);
    StructHoldsTree(fields, n);
    hide Leaves, Wanted, DeclaredFields, Initialisers;
    forall x | x in Leaves(fields, false)
      ensures n.ident(x) in DeclaredFields(fields, n) && n.ident(x) in NamesOf(Initialisers(fields, n))
    {
      assert n.ident(x) in Members(DeclaredFields(fields, n));
      assert n.ident(x) in Members(NamesOf(Initialisers(fields, n)));
    }
  }
}
