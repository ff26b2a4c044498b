/** The two walks as they run: one pushes declarations past a `seen` set of its own at
    every level, the other threads one `seen` set through the whole tree and tries each
    single child on a scratch copy first. */
module ResponseWalks {
  import opened FieldTree
  import opened ResponseStruct
  import opened ResponseAgreement

  // ---------------------------------------------------------------- the declaration

  /** A list of names without repeats, with the set that guards it. */
  class FieldList {
    var names: seq<string>
    var seen: set<string>

    constructor ()
      ensures names == [] && seen == {}
    {
      names, seen := [], {};
    }

    method Add(name: string)
      modifies this
      ensures names == old(names) + Fresh([name], old(seen))
      ensures seen == old(seen) + {name}
    {
      assert [name][1..] == [];
      if name !in seen {
        names := names + [name];
      }
      seen := seen + {name};
    }

    method AddAll(more: seq<string>)
      modifies this
      ensures names == old(names) + Fresh(more, old(seen))
      ensures seen == old(seen) + Members(more)
    {
      for i := 0 to |more|
        invariant names + Fresh(more[i..], seen) == old(names) + Fresh(more, old(seen))
        invariant seen == old(seen) + Members(more[..i])
      {
        assert more[i..][0] == more[i] && more[i..][1..] == more[i + 1..];
        assert more[..i + 1] == more[..i] + [more[i]];
        Add(more[i]);
        if more[i] in old(seen) + Members(more[..i]) { assert old(seen) + Members(more[..i]) + {more[i]} == old(seen) + Members(more[..i]); }
      }
      assert more[..|more|] == more;
    }
  }

  method LeafColumns(kids: seq<Field>, n: Naming) returns (columns: seq<string>)
    ensures columns == LeafNames(kids, n)
  {
    hide IsLeaf;
    columns := [];
    for i := 0 to |kids|
      invariant LeafNames(kids, n) == columns + LeafNames(kids[i..], n)
    {
      assert kids[i..][0] == kids[i] && kids[i..][1..] == kids[i + 1..];
      if IsLeaf(kids[i]) { columns := columns + [n.ident(kids[i].name)]; }
    }
  }

  lemma UnionStep(kids: seq<Field>, n: Naming)
    ensures UnionNames([], n) == []
    ensures kids != [] ==>
      var own := if kids[0].fieldType.Union? && n.supported(kids[0]) then [n.ident(kids[0].name)] else [];
      UnionNames(kids, n) == own + UnionNames(kids[1..], n)
  {}

  method UnionColumns(kids: seq<Field>, n: Naming) returns (columns: seq<string>)
    ensures columns == UnionNames(kids, n)
  {
    hide *;
    columns := [];
    UnionStep([], n);
    assert kids[0..] == kids;
    for i := 0 to |kids|
      invariant UnionNames(kids, n) == columns + UnionNames(kids[i..], n)
    {
      assert kids[i..][0] == kids[i] && kids[i..][1..] == kids[i + 1..];
      UnionStep(kids[i..], n);
      if kids[i].fieldType.Union? && n.supported(kids[i]) { columns := columns + [n.ident(kids[i].name)]; }
    }
    assert kids[|kids|..] == [];
  }

  lemma NestedStep(kids: seq<Field>, n: Naming)
    ensures NestedNames([], n) == [] && NestedStructs([], n) == []
    ensures kids != [] ==>
      var fields := LeafNames(kids[0].children, n);
      var own := RepeatsWithin(kids[0]) && fields != [];
      NestedNames(kids, n) == (if own then [n.ident(TagOrName(kids[0]))] else []) + NestedNames(kids[1..], n) &&
      NestedStructs(kids, n) == (if own then [Struct(StructName(kids[0], n), fields)] else []) + NestedStructs(kids[1..], n)
  {
    hide LeafNames, RepeatsWithin, StructName;
  }

  method NestedColumns(kids: seq<Field>, n: Naming) returns (columns: seq<string>, structs: seq<Struct>)
    ensures columns == NestedNames(kids, n) && structs == NestedStructs(kids, n)
  {
    hide *;
    columns, structs := [], [];
    NestedStep([], n);
    assert kids[0..] == kids;
    for i := 0 to |kids|
      invariant NestedNames(kids, n) == columns + NestedNames(kids[i..], n)
      invariant NestedStructs(kids, n) == structs + NestedStructs(kids[i..], n)
    {
      assert kids[i..][0] == kids[i] && kids[i..][1..] == kids[i + 1..];
      NestedStep(kids[i..], n);
      if RepeatsWithin(kids[i]) {
        var fields := LeafColumns(kids[i].children, n);
        if fields != [] {
          structs := structs + [Struct(StructName(kids[i], n), fields)];
          columns := columns + [n.ident(TagOrName(kids[i]))];
        }
      }
    }
    assert kids[|kids|..] == [];
  }

  /** The columns and structs of one repeated child. */
  method ItemStruct(f: Field, n: Naming) returns (columns: seq<string>, structs: seq<Struct>)
    ensures columns == Columns(f, n)
    ensures structs == NestedStructs(f.children, n) + (if Columns(f, n) != [] then [Struct(StructName(f, n), Columns(f, n))] else [])
  {
    hide LeafNames, UnionNames, NestedNames, NestedStructs, StructName;
    var leaves := LeafColumns(f.children, n);
    var unions := UnionColumns(f.children, n);
    var nested, below := NestedColumns(f.children, n);
    columns, structs := leaves + unions + nested, below;
    if columns != [] {
      structs := structs + [Struct(StructName(f, n), columns)];
    }
  }

  /** Kids a single child hands down: children and unions. */
  function Inner(kids: seq<Field>): seq<Field> {
    if kids == [] then []
    else (if IsChild(kids[0]) || kids[0].fieldType.Union? then [kids[0]] else []) + Inner(kids[1..])
  }

  lemma {:induction false} InnerSpec(kids: seq<Field>, n: Naming)
    requires Flat(kids)
    ensures Flat(Inner(kids)) && Size(Inner(kids)) <= Size(kids)
    ensures Declared(Inner(kids), true, n) == Declared(kids, false, n)
    ensures Structs(Inner(kids), n) == Structs(kids, n)
  {
    if kids != [] {
      var k := kids[0];
      InnerSpec(kids[1..], n);
      ChildIsNotLeaf(k);
      assert FlatField(k) && Flat(kids[1..]);
      hide IsLeaf, IsChild, IsContentChild, Columns, StructName, FlatField;
      assert DeclaredBy(k, false, n) == if IsChild(k) || k.fieldType.Union? then DeclaredBy(k, true, n) else [];
      assert StructsBy(k, n) == if IsChild(k) || k.fieldType.Union? then StructsBy(k, n) else [];
      if IsChild(k) || k.fieldType.Union? {
        assert Inner(kids) == [k] + Inner(kids[1..]) && Inner(kids)[1..] == Inner(kids[1..]);
      } else {
        assert Inner(kids) == Inner(kids[1..]);
      }
    }
  }

  method KeptKids(kids: seq<Field>) returns (kept: seq<Field>)
    ensures kept == Inner(kids)
  {
    kept := [];
    for i := 0 to |kids|
      invariant Inner(kids) == kept + Inner(kids[i..])
    {
      assert kids[i..][0] == kids[i] && kids[i..][1..] == kids[i + 1..];
      if IsChild(kids[i]) || kids[i].fieldType.Union? { kept := kept + [kids[i]]; }
    }
  }

  lemma WalkStep(seen: set<string>, rest: seq<Field>, n: Naming)
    requires rest != []
    ensures Structs(rest, n) == StructsBy(rest[0], n) + Structs(rest[1..], n)
    ensures Fresh(Declared(rest, true, n), seen) ==
            Fresh(DeclaredBy(rest[0], true, n), seen) + Fresh(Declared(rest[1..], true, n), seen + Members(DeclaredBy(rest[0], true, n)))
  {
    FreshConcat(DeclaredBy(rest[0], true, n), Declared(rest[1..], true, n), seen);
  }

  /** The declaring walk. */
  method CollectResponseFields(fields: seq<Field>, n: Naming) returns (names: seq<string>, structs: seq<Struct>)
    ensures names == DeclaredFields(fields, n)
    ensures structs == Structs(Flatten(fields, false), n)
    decreases Size(fields), 0
  {
    hide *;
    var flattened := FlattenSameNode(fields, false);
    FlattenFlat(fields, false);
    FlattenSize(fields, false);
    var top := new FieldList();
    structs := [];
    for i := 0 to |flattened|
      invariant Fresh(Declared(flattened, true, n), {}) == top.names + Fresh(Declared(flattened[i..], true, n), top.seen)
      invariant Structs(flattened, n) == structs + Structs(flattened[i..], n)
    {
      assert flattened[i..][0] == flattened[i] && flattened[i..][1..] == flattened[i + 1..];
      WalkStep(top.seen, flattened[i..], n);
      SizeAt(flattened, i);
      FlatAt(flattened, i);
      var more := CollectOne(flattened[i], top, n);
      structs := structs + more;
    }
    assert flattened[|flattened|..] == [];
    WalkDone(fields, top.seen, n);
    names := top.names;
  }

  lemma WalkDone(fields: seq<Field>, seen: set<string>, n: Naming)
    ensures Fresh(Declared([], true, n), seen) == [] && Structs([], n) == []
    ensures DeclaredFields(fields, n) == Fresh(Declared(Flatten(fields, false), true, n), {})
  {}

  lemma {:induction false} FlatAt(fields: seq<Field>, i: nat)
    requires Flat(fields) && i < |fields|
    ensures FlatField(fields[i]) && Flat(fields[i].children)
  {
    if i > 0 { FlatAt(fields[1..], i - 1); }
  }

  /** One field of the declaring walk. */
  method CollectOne(f: Field, top: FieldList, n: Naming) returns (structs: seq<Struct>)
    requires FlatField(f)
    modifies top
    ensures top.names == old(top.names) + Fresh(DeclaredBy(f, true, n), old(top.seen))
    ensures top.seen == old(top.seen) + Members(DeclaredBy(f, true, n))
    ensures structs == StructsBy(f, n)
    decreases Size(f.children), 2
  {
    hide IsChild, IsLeaf, IsContentChild, Columns, StructName, NestedStructs, LeafNames, Flat;
    structs := [];
    if f.fieldType.Union? {
      if n.supported(f) { top.Add(n.ident(f.name)); }
    } else if IsChild(f) {
      if IsContentChild(f) {
        top.Add(n.ident(TagOrName(f)));
      } else if f.children == [] {
      } else if f.repeats {
        var columns, more := ItemStruct(f, n);
        if columns != [] { top.Add(n.ident(TagOrName(f))); }
        structs := more;
      } else {
        structs := CollectSingle(f, top, n);
      }
    } else if IsLeaf(f) {
      top.Add(n.ident(f.name));
    }
  }

  lemma SingleParts(f: Field, n: Naming)
    requires FlatField(f) && !f.fieldType.Union? && IsChild(f) && !IsContentChild(f) && f.children != [] && !f.repeats
    ensures DeclaredBy(f, true, n) == LeafNames(f.children, n) + Declared(f.children, false, n)
    ensures StructsBy(f, n) == Structs(f.children, n) && Flat(f.children)
  {
    hide IsChild, IsContentChild, IsLeaf, LeafNames, Declared, Structs;
  }

  /** Merging two lists, the second deduplicated on its own first. */
  lemma MergeSpec(a: seq<string>, b: seq<string>, seen: set<string>)
    ensures Fresh(a + b, seen) == Fresh(a, seen) + Fresh(Fresh(b, {}), seen + Members(a))
    ensures seen + Members(a + b) == seen + Members(a) + Members(Fresh(b, {}))
  {
    FreshTwice(b, {}, seen + Members(a));
    FreshSpec(b, {});
    FreshConcat(a, b, seen);
    MembersConcat(a, b);
  }

  /** A single child: its leaves first, then everything below it, merged. */
  method CollectSingle(f: Field, top: FieldList, n: Naming) returns (structs: seq<Struct>)
    requires FlatField(f) && !f.fieldType.Union? && IsChild(f) && !IsContentChild(f) && f.children != [] && !f.repeats
    modifies top
    ensures top.names == old(top.names) + Fresh(DeclaredBy(f, true, n), old(top.seen))
    ensures top.seen == old(top.seen) + Members(DeclaredBy(f, true, n))
    ensures structs == StructsBy(f, n)
    decreases Size(f.children), 1
  {
    hide *;
    SingleParts(f, n);
    var leaves := LeafColumns(f.children, n);
    top.AddAll(leaves);
    var kept := KeptKids(f.children);
    InnerSpec(f.children, n);
    FlattenFixed(kept);
    WalkDone(kept, {}, n);
    var below, more := CollectResponseFields(kept, n);
    MergeSpec(leaves, Declared(f.children, false, n), old(top.seen));
    top.AddAll(below);
    structs := more;
  }

  // ---------------------------------------------------------------- the parser

  method DedupAttrs(kids: seq<Field>) returns (leaves: seq<Field>)
    ensures leaves == DedupLeaves(kids, {})
  {
    hide IsLeaf;
    leaves := [];
    var seen: set<string> := {};
    for i := 0 to |kids|
      invariant DedupLeaves(kids, {}) == leaves + DedupLeaves(kids[i..], seen)
    {
      assert kids[i..][0] == kids[i] && kids[i..][1..] == kids[i + 1..];
      if IsLeaf(kids[i]) && kids[i].name !in seen {
        leaves := leaves + [kids[i]];
        seen := seen + {kids[i].name};
      }
    }
  }

  lemma LiteralsStep(kids: seq<Field>, n: Naming)
    ensures NestedLiterals([], n) == []
    ensures kids != [] ==> var leaves := DedupLeaves(kids[0].children, {});
      NestedLiterals(kids, n) ==
      (if RepeatsWithin(kids[0]) && leaves != [] then [Struct(StructName(kids[0], n), Idents(leaves, n))] else []) + NestedLiterals(kids[1..], n)
  {
    hide DedupLeaves, RepeatsWithin, StructName, Idents;
  }

  method NestedReads(kids: seq<Field>, n: Naming) returns (literals: seq<Struct>)
    ensures literals == NestedLiterals(kids, n)
  {
    hide *;
    literals := [];
    LiteralsStep([], n);
    for i := 0 to |kids|
      invariant NestedLiterals(kids, n) == literals + NestedLiterals(kids[i..], n)
    {
      assert kids[i..][0] == kids[i] && kids[i..][1..] == kids[i + 1..];
      LiteralsStep(kids[i..], n);
      if RepeatsWithin(kids[i]) {
        var leaves := DedupAttrs(kids[i].children);
        if leaves != [] { literals := literals + [Struct(StructName(kids[i], n), Idents(leaves, n))]; }
      }
    }
  }

  /** The parser's initialisers, and the names it has taken. */
  class Reader {
    var inits: seq<Read>
    var seen: set<string>

    constructor (seen: set<string>)
      ensures inits == [] && this.seen == seen
    {
      inits := [];
      this.seen := seen;
    }

    /** Pushed exactly the fresh ones of these reads, and took all their names. */
    twostate predicate Took(more: seq<Read>)
      reads this
    {
      inits == old(inits) + FreshReads(more, old(seen)) && seen == old(seen) + Members(NamesOf(more))
    }

    method TakeOne(name: string, builds: seq<Struct>)
      modifies this
      ensures Took([Read(name, builds)])
    {
      assert NamesOf([Read(name, builds)]) == [name];
      assert [Read(name, builds)][1..] == [];
      if name !in seen {
        inits := inits + [Read(name, builds)];
        seen := seen + {name};
      } else {
        assert seen + {name} == seen;
      }
    }

    method EmitStructReads(fields: seq<Field>, n: Naming)
      modifies this
      ensures Took(Reads(Flatten(fields, false), n))
      decreases Size(fields), 0
    {
      hide *;
      var flattened := FlattenSameNode(fields, false);
      FlattenFlat(fields, false);
      FlattenSize(fields, false);
      ReadDone(seen, n);
      assert flattened[0..] == flattened && flattened[..0] == [];
      for i := 0 to |flattened|
        invariant inits + FreshReads(Reads(flattened[i..], n), seen) == old(inits) + FreshReads(Reads(flattened, n), old(seen))
        invariant seen + Members(NamesOf(Reads(flattened[i..], n))) == old(seen) + Members(NamesOf(Reads(flattened, n)))
      {
        assert flattened[i..][0] == flattened[i] && flattened[i..][1..] == flattened[i + 1..];
        ReadStep(seen, flattened[i..], n);
        SizeAt(flattened, i);
        FlatAt(flattened, i);
        label before:
        EmitOne(flattened[i], n);
        TookSpec@before(ReadsBy(flattened[i], n));
      }
      assert flattened[|flattened|..] == [];
      ReadDone(seen, n);
      MakeTook(Reads(flattened, n));
    }

    twostate lemma TookSpec(more: seq<Read>)
      requires Took(more)
      ensures inits == old(inits) + FreshReads(more, old(seen)) && seen == old(seen) + Members(NamesOf(more))
    {}

    twostate lemma MakeTook(more: seq<Read>)
      requires inits == old(inits) + FreshReads(more, old(seen)) && seen == old(seen) + Members(NamesOf(more))
      ensures Took(more)
    {}

    method EmitOne(f: Field, n: Naming)
      requires FlatField(f) && Flat(f.children)
      modifies this
      ensures Took(ReadsBy(f, n))
      decreases Size(f.children), 2
    {
      hide IsChild, IsLeaf, IsContentChild, StructName, Filled, NestedLiterals, DedupLeaves, FreshReads, Reads, Builds, Flat, FlatField, TagOrName, Took;
      NoneTaken(inits, seen);
      if f.fieldType.Union? {
        if n.supported(f) { TakeOne(n.ident(f.name), []); } else { TakeNone(); }
      } else if IsLeaf(f) {
        TakeOne(n.ident(f.name), []);
      } else if !IsChild(f) {
        TakeNone();
      } else if IsContentChild(f) {
        TakeOne(n.ident(TagOrName(f)), []);
      } else if f.children == [] {
        TakeNone();
      } else if f.repeats {
        EmitItems(f, n);
      } else {
        EmitSingle(f, n);
      }
    }

    method TakeNone()
      modifies this
      ensures Took([])
    {
      NoneTaken(inits, seen);
    }

    /** A repeated child: one list of item literals, if there is anything to read. */
    method EmitItems(f: Field, n: Naming)
      requires !f.fieldType.Union? && !IsLeaf(f) && IsChild(f) && !IsContentChild(f) && f.children != [] && f.repeats
      modifies this
      ensures Took(ReadsBy(f, n))
    {
      assert ReadsBy(f, n) == if Builds(f, n)
        then [Read(n.ident(TagOrName(f)), NestedLiterals(f.children, n) + [Struct(StructName(f, n), Filled(f, n))])] else [];
      assert Builds(f, n) <==> DedupLeaves(f.children, {}) != [] || NestedLiterals(f.children, n) != [] || HasUnion(f.children);
      ghost var columns := Idents(DedupLeaves(f.children, {}), n) + UnionNames(f.children, n) + NestedNames(f.children, n);
      assert Filled(f, n) == columns;
      hide *;
      var leaves := DedupAttrs(f.children);
      var literals := NestedReads(f.children, n);
      var hasUnion := HasUnion(f.children);
      if leaves == [] && literals == [] && !hasUnion {
        TakeNone();
      } else {
        var unions := UnionColumns(f.children, n);
        var nested, _ := NestedColumns(f.children, n);
        var item := Struct(StructName(f, n), Idents(leaves, n) + unions + nested);
        TakeOne(n.ident(TagOrName(f)), literals + [item]);
      }
    }

    /** A single child: tried on a scratch copy first, then committed. A subtree that
        would read nothing leaves no trace, and skipping it loses nothing. */
    method EmitSingle(f: Field, n: Naming)
      requires !f.fieldType.Union? && !IsLeaf(f) && IsChild(f) && !IsContentChild(f) && f.children != [] && !f.repeats
      requires Flat(f.children)
      modifies this
      ensures Took(ReadsBy(f, n))
      decreases Size(f.children), 1
    {
      assert ReadsBy(f, n) == Reads(f.children, n);
      FlattenFixed(f.children);
      hide *;
      var scratch := new Reader(seen);
      label before:
      scratch.EmitStructReads(f.children, n);
      scratch.TookSpec@before(Reads(f.children, n));
      if scratch.inits == [] {
        NothingFresh(Reads(f.children, n), seen);
        MakeTook(ReadsBy(f, n));
      } else if f.required {
        EmitStructReads(f.children, n);
      } else {
        // An optional child is read into buffers of its own, which share `seen`.
        var branch := new Reader(seen);
        label reading:
        branch.EmitStructReads(f.children, n);
        branch.TookSpec@reading(Reads(f.children, n));
        inits := inits + branch.inits;
        seen := branch.seen;
        MakeTook(ReadsBy(f, n));
      }
    }
  }

  lemma NoneTaken(inits: seq<Read>, seen: set<string>)
    ensures inits + FreshReads([], seen) == inits && seen + Members(NamesOf([])) == seen
  {
    assert NamesOf([]) == [];
  }

  lemma ReadDone(seen: set<string>, n: Naming)
    ensures FreshReads(Reads([], n), seen) == [] && Members(NamesOf(Reads([], n))) == {}
  {
    assert NamesOf([]) == [];
  }

  lemma ReadStep(seen: set<string>, rest: seq<Field>, n: Naming)
    requires rest != []
    ensures FreshReads(Reads(rest, n), seen) ==
            FreshReads(ReadsBy(rest[0], n), seen) + FreshReads(Reads(rest[1..], n), seen + Members(NamesOf(ReadsBy(rest[0], n))))
    ensures Members(NamesOf(Reads(rest, n))) == Members(NamesOf(ReadsBy(rest[0], n))) + Members(NamesOf(Reads(rest[1..], n)))
  {
    FreshReadsConcat(ReadsBy(rest[0], n), Reads(rest[1..], n), seen);
    NamesConcat(ReadsBy(rest[0], n), Reads(rest[1..], n));
    MembersConcat(NamesOf(ReadsBy(rest[0], n)), NamesOf(Reads(rest[1..], n)));
  }

  /** Reads that add no initialiser have all their names taken already. */
  lemma NothingFresh(more: seq<Read>, seen: set<string>)
    requires FreshReads(more, seen) == []
    ensures seen + Members(NamesOf(more)) == seen
  {
    FreshNames(more, seen);
    FreshSpec(NamesOf(more), seen);
    assert NamesOf([]) == [];
  }

  /** The struct literal of one parser. */
  method EmitResponseParser(fields: seq<Field>, n: Naming) returns (inits: seq<Read>)
    ensures inits == Initialisers(fields, n)
  {
    var reader := new Reader({});
    reader.EmitStructReads(fields, n);
    inits := reader.inits;
  }
}
