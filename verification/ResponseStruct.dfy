/** Two walks over one field tree: the struct that is declared and the struct that is
    initialised. They share nothing but the tree, and must name the same fields. */
module ResponseStruct {
  import opened FieldTree
  import opened Sequences

  /** What both walks ask from outside: identifier and type spelling, the owning
      spec's base name, and whether a union can be turned into an enum. */
  datatype Naming = Naming(ident: string -> string, pascal: string -> string, prefix: string, supported: Field -> bool)

  /** A declared item struct, or a struct literal: its type and its columns. */
  datatype Struct = Struct(name: string, columns: seq<string>)

  /** One initialised field and the item literals its reading builds. */
  datatype Read = Read(name: string, builds: seq<Struct>)

  // ---------------------------------------------------------------- first occurrences

  function Members(names: seq<string>): set<string> {
    set n | n in names
  }

  function NamesOf(rs: seq<Read>): (names: seq<string>)
    ensures |names| == |rs| && forall i | 0 <= i < |rs| :: names[i] == rs[i].name
  {
    seq(|rs|, i requires 0 <= i < |rs| => rs[i].name)
  }

  /** The names not seen before, each once, in order. */
  function Fresh(names: seq<string>, seen: set<string>): seq<string> {
    if names == [] then []
    else if names[0] in seen then Fresh(names[1..], seen)
    else [names[0]] + Fresh(names[1..], seen + {names[0]})
  }

  function FreshReads(rs: seq<Read>, seen: set<string>): seq<Read> {
    if rs == [] then []
    else if rs[0].name in seen then FreshReads(rs[1..], seen)
    else [rs[0]] + FreshReads(rs[1..], seen + {rs[0].name})
  }

  lemma {:induction false} FreshSpec(names: seq<string>, seen: set<string>)
    ensures Distinct(Fresh(names, seen))
    ensures Members(Fresh(names, seen)) == Members(names) - seen
  {
    if names != [] {
      FreshSpec(names[1..], seen);
      FreshSpec(names[1..], seen + {names[0]});
      assert Members(names) == {names[0]} + Members(names[1..]);
      if names[0] !in seen {
        var rest := Fresh(names[1..], seen + {names[0]});
        assert forall n | n in rest :: n in Members(rest);
        assert Members([names[0]] + rest) == {names[0]} + Members(rest);
      }
    }
  }

  lemma {:induction false} FreshNames(rs: seq<Read>, seen: set<string>)
    ensures NamesOf(FreshReads(rs, seen)) == Fresh(NamesOf(rs), seen)
  {
    if rs != [] {
      FreshNames(rs[1..], seen);
      FreshNames(rs[1..], seen + {rs[0].name});
      assert NamesOf(rs)[1..] == NamesOf(rs[1..]);
      assert NamesOf(rs)[0] == rs[0].name;
    } else {
      assert NamesOf(rs) == [];
    }
  }

  lemma {:induction false} FreshConcat(a: seq<string>, b: seq<string>, seen: set<string>)
    ensures Fresh(a + b, seen) == Fresh(a, seen) + Fresh(b, seen + Members(a))
  {
    if a == [] {
      assert a + b == b && seen + Members(a) == seen;
    } else {
      assert (a + b)[1..] == a[1..] + b && (a + b)[0] == a[0];
      assert Members(a) == {a[0]} + Members(a[1..]);
      FreshConcat(a[1..], b, seen);
      FreshConcat(a[1..], b, seen + {a[0]});
      if a[0] in seen {
        assert seen + Members(a) == seen + Members(a[1..]);
      } else {
        assert seen + Members(a) == seen + {a[0]} + Members(a[1..]);
      }
    }
  }

  lemma {:induction false} FreshReadsConcat(a: seq<Read>, b: seq<Read>, seen: set<string>)
    ensures FreshReads(a + b, seen) == FreshReads(a, seen) + FreshReads(b, seen + Members(NamesOf(a)))
  {
    if a == [] {
      assert a + b == b && seen + Members(NamesOf(a)) == seen;
    } else {
      assert (a + b)[1..] == a[1..] + b && (a + b)[0] == a[0];
      assert NamesOf(a)[0] == a[0].name && NamesOf(a)[1..] == NamesOf(a[1..]);
      assert Members(NamesOf(a)) == {a[0].name} + Members(NamesOf(a[1..]));
      FreshReadsConcat(a[1..], b, seen);
      FreshReadsConcat(a[1..], b, seen + {a[0].name});
      if a[0].name in seen {
        assert seen + Members(NamesOf(a)) == seen + Members(NamesOf(a[1..]));
      } else {
        assert seen + Members(NamesOf(a)) == seen + {a[0].name} + Members(NamesOf(a[1..]));
      }
    }
  }

  /** Deduplicating a list before merging it into a larger one changes nothing. */
  lemma {:induction false} FreshTwice(names: seq<string>, inner: set<string>, seen: set<string>)
    requires inner <= seen
    ensures Fresh(Fresh(names, inner), seen) == Fresh(names, seen)
  {
    if names != [] {
      var n, rest := names[0], names[1..];
      if n in inner {
        FreshTwice(rest, inner, seen);
      } else {
        assert Fresh(names, inner)[0] == n && Fresh(names, inner)[1..] == Fresh(rest, inner + {n});
        if n in seen {
          FreshTwice(rest, inner + {n}, seen);
        } else {
          FreshTwice(rest, inner + {n}, seen + {n});
        }
      }
    }
  }

  lemma MembersConcat(a: seq<string>, b: seq<string>)
    ensures Members(a + b) == Members(a) + Members(b)
  {}

  lemma NamesConcat(a: seq<Read>, b: seq<Read>)
    ensures NamesOf(a + b) == NamesOf(a) + NamesOf(b)
  {}

  // ---------------------------------------------------------------- columns of one item

  /** Identifiers of the leaves among `kids`, repeats included. */
  function LeafNames(kids: seq<Field>, n: Naming): seq<string> {
    if kids == [] then []
    else (if IsLeaf(kids[0]) then [n.ident(kids[0].name)] else []) + LeafNames(kids[1..], n)
  }

  /** The leaves among `kids`, the first of each name. */
  function DedupLeaves(kids: seq<Field>, seen: set<string>): seq<Field> {
    if kids == [] then []
    else if IsLeaf(kids[0]) && kids[0].name !in seen then [kids[0]] + DedupLeaves(kids[1..], seen + {kids[0].name})
    else DedupLeaves(kids[1..], seen)
  }

  function Idents(fields: seq<Field>, n: Naming): (names: seq<string>)
    ensures |names| == |fields| && forall i | 0 <= i < |fields| :: names[i] == n.ident(fields[i].name)
  {
    seq(|fields|, i requires 0 <= i < |fields| => n.ident(fields[i].name))
  }

  function UnionNames(kids: seq<Field>, n: Naming): seq<string> {
    if kids == [] then []
    else (if kids[0].fieldType.Union? && n.supported(kids[0]) then [n.ident(kids[0].name)] else []) + UnionNames(kids[1..], n)
  }

  predicate HasUnion(kids: seq<Field>) {
    exists k | k in kids :: k.fieldType.Union?
  }

  predicate RepeatsWithin(f: Field) {
    IsChild(f) && f.repeats && f.children != []
  }

  function NestedNames(kids: seq<Field>, n: Naming): seq<string> {
    if kids == [] then []
    else (if RepeatsWithin(kids[0]) && LeafNames(kids[0].children, n) != [] then [n.ident(TagOrName(kids[0]))] else [])
         + NestedNames(kids[1..], n)
  }

  function StructName(f: Field, n: Naming): string {
    n.prefix + n.pascal(TagOrName(f)) + "Item"
  }

  /** The columns an item struct is declared with. */
  function Columns(f: Field, n: Naming): seq<string> {
    LeafNames(f.children, n) + UnionNames(f.children, n) + NestedNames(f.children, n)
  }

  /** The columns an item literal fills in. */
  function Filled(f: Field, n: Naming): seq<string> {
    Idents(DedupLeaves(f.children, {}), n) + UnionNames(f.children, n) + NestedNames(f.children, n)
  }

  /** Structs declared for the repeated grandchildren of an item. */
  function NestedStructs(kids: seq<Field>, n: Naming): seq<Struct> {
    if kids == [] then []
    else (if RepeatsWithin(kids[0]) && LeafNames(kids[0].children, n) != []
          then [Struct(StructName(kids[0], n), LeafNames(kids[0].children, n))] else [])
         + NestedStructs(kids[1..], n)
  }

  /** Literals built for the repeated grandchildren of an item. */
  function NestedLiterals(kids: seq<Field>, n: Naming): seq<Struct> {
    if kids == [] then []
    else (if RepeatsWithin(kids[0]) && DedupLeaves(kids[0].children, {}) != []
          then [Struct(StructName(kids[0], n), Idents(DedupLeaves(kids[0].children, {}), n))] else [])
         + NestedLiterals(kids[1..], n)
  }

  // ---------------------------------------------------------------- what is declared

  /** Names contributed to the declaration, in order, repeats included. Inside a single
      child its leaves have been taken already and only the rest contributes. */
  function Declared(fields: seq<Field>, leaves: bool, n: Naming): seq<string>
    decreases fields, 0
  {
    if fields == [] then [] else DeclaredBy(fields[0], leaves, n) + Declared(fields[1..], leaves, n)
  }

  function DeclaredBy(f: Field, leaves: bool, n: Naming): seq<string>
    decreases f, 1
  {
    if f.fieldType.Union? then (if n.supported(f) then [n.ident(f.name)] else [])
    else if IsChild(f) then
      if IsContentChild(f) then [n.ident(TagOrName(f))]
      else if f.children == [] then []
      else if f.repeats then (if Columns(f, n) != [] then [n.ident(TagOrName(f))] else [])
      else LeafNames(f.children, n) + Declared(f.children, false, n)
    else if leaves && IsLeaf(f) then [n.ident(f.name)]
    else []
  }

  /** Item structs declared beside it. */
  function Structs(fields: seq<Field>, n: Naming): seq<Struct>
    decreases fields, 0
  {
    if fields == [] then [] else StructsBy(fields[0], n) + Structs(fields[1..], n)
  }

  function StructsBy(f: Field, n: Naming): seq<Struct>
    decreases f, 1
  {
    if f.fieldType.Union? || !IsChild(f) || IsContentChild(f) || f.children == [] then []
    else if f.repeats then
      NestedStructs(f.children, n) + (if Columns(f, n) != [] then [Struct(StructName(f, n), Columns(f, n))] else [])
    else Structs(f.children, n)
  }

  // ---------------------------------------------------------------- what is initialised

  /** Reads of the parser, in order, repeats included. */
  function Reads(fields: seq<Field>, n: Naming): seq<Read>
    decreases fields, 0
  {
    if fields == [] then [] else ReadsBy(fields[0], n) + Reads(fields[1..], n)
  }

  /** The reader builds something for a repeated child with leaves, repeated
      grandchildren, or any union at all, supported or not. */
  predicate Builds(f: Field, n: Naming) {
    DedupLeaves(f.children, {}) != [] || NestedLiterals(f.children, n) != [] || HasUnion(f.children)
  }

  function ReadsBy(f: Field, n: Naming): seq<Read>
    decreases f, 1
  {
    if f.fieldType.Union? then (if n.supported(f) then [Read(n.ident(f.name), [])] else [])
    else if IsLeaf(f) then [Read(n.ident(f.name), [])]
    else if !IsChild(f) then []
    else if IsContentChild(f) then [Read(n.ident(TagOrName(f)), [])]
    else if f.children == [] then []
    else if f.repeats then
      (if Builds(f, n) then [Read(n.ident(TagOrName(f)), NestedLiterals(f.children, n) + [Struct(StructName(f, n), Filled(f, n))])]
       else [])
    else Reads(f.children, n)
  }

  // ---------------------------------------------------------------- where they part

  /** A repeated child that has a union to read and no column to declare. */
  predicate Stray(f: Field, n: Naming) {
    f.repeats && HasUnion(f.children) && Columns(f, n) == []
  }

  /** Tags of the stray children the reader reaches. */
  function StrayTags(fields: seq<Field>, n: Naming): set<string>
    decreases fields, 0
  {
    if fields == [] then {} else StrayTagsBy(fields[0], n) + StrayTags(fields[1..], n)
  }

  function StrayTagsBy(f: Field, n: Naming): set<string>
    decreases f, 1
  {
    if f.fieldType.Union? || !IsChild(f) || IsContentChild(f) || f.children == [] then {}
    else if f.repeats then (if Stray(f, n) then {n.ident(TagOrName(f))} else {})
    else StrayTags(f.children, n)
  }

  /** A union carries no accessor, so it is neither leaf nor child. */
  predicate UnionsAreBare(fields: seq<Field>)
    decreases fields, 0
  {
    fields == [] || (UnionIsBare(fields[0]) && UnionsAreBare(fields[1..]))
  }

  predicate UnionIsBare(f: Field)
    decreases f, 1
  {
    (f.fieldType.Union? ==> f.method_ == "") && UnionsAreBare(f.children)
  }
}
