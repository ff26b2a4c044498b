/** The item structs of the emitted file: of several structs with one name only one is
    kept, and the literals must fit the kept one. */
module ItemStructs {
  import Values
  import opened FieldTree
  import opened Sequences
  import FiniteSets
  import opened ResponseStruct
  import opened ResponseAgreement

  // ---------------------------------------------------------------- one struct of each name

  /** One declared struct of each declared name. */
  predicate Keeps(kept: seq<Struct>, structs: seq<Struct>) {
    (forall k | k in kept :: k in structs) &&
    (forall s | s in structs :: HasName(kept, s.name)) &&
    forall i, j | 0 <= i < j < |kept| :: kept[i].name != kept[j].name
  }

  predicate HasName(kept: seq<Struct>, name: string) {
    exists k :: k in kept && k.name == name
  }

  /** The structs of an outcome variant: the first of each name is emitted. */
  function KeepFirst(kept: seq<Struct>, structs: seq<Struct>): seq<Struct>
    decreases |structs|
  {
    if structs == [] then kept
    else KeepFirst(if HasName(kept, structs[0].name) then kept else kept + [structs[0]], structs[1..])
  }

  /** The structs shared by a module: a later one of the same name with more columns
      takes the place of the earlier one. */
  function KeepWidest(kept: seq<Struct>, structs: seq<Struct>): seq<Struct>
    decreases |structs|
  {
    if structs == [] then kept
    else KeepWidest(if HasName(kept, structs[0].name) then Widen(kept, structs[0]) else kept + [structs[0]], structs[1..])
  }

  function Widen(kept: seq<Struct>, s: Struct): seq<Struct> {
    if kept == [] then []
    else if kept[0].name != s.name then [kept[0]] + Widen(kept[1..], s)
    else [if |Fresh(s.columns, {})| > |Fresh(kept[0].columns, {})| then s else kept[0]] + kept[1..]
  }

  lemma KeepSteps(kept: seq<Struct>, structs: seq<Struct>)
    ensures KeepFirst(kept, []) == kept && KeepWidest(kept, []) == kept
    ensures structs != [] ==>
      var s := structs[0];
      KeepFirst(kept, structs) == KeepFirst(if HasName(kept, s.name) then kept else kept + [s], structs[1..]) &&
      KeepWidest(kept, structs) == KeepWidest(if HasName(kept, s.name) then Widen(kept, s) else kept + [s], structs[1..])
  {
    hide HasName, Widen;
  }

  lemma {:induction false} KeepFirstKeeps(kept: seq<Struct>, done: seq<Struct>, structs: seq<Struct>)
    requires Keeps(kept, done)
    ensures Keeps(KeepFirst(kept, structs), done + structs)
    decreases |structs|
  {
    hide *;
    KeepSteps(kept, structs);
    if structs == [] {
      assert done + structs == done;
    } else {
      var s := structs[0];
      var next := if HasName(kept, s.name) then kept else kept + [s];
      KeepsOneMore(kept, done, s, next);
      KeepFirstKeeps(next, done + [s], structs[1..]);
      assert done + [s] + structs[1..] == done + structs;
    }
  }

  lemma {:induction false} KeepWidestKeeps(kept: seq<Struct>, done: seq<Struct>, structs: seq<Struct>)
    requires Keeps(kept, done)
    ensures Keeps(KeepWidest(kept, structs), done + structs)
    decreases |structs|
  {
    hide *;
    KeepSteps(kept, structs);
    if structs == [] {
      assert done + structs == done;
    } else {
      var s := structs[0];
      var next := if HasName(kept, s.name) then Widen(kept, s) else kept + [s];
      WidenSpec(kept, s);
      KeepsOneMore(kept, done, s, next);
      KeepWidestKeeps(next, done + [s], structs[1..]);
      assert done + [s] + structs[1..] == done + structs;
    }
  }

  /** Widening keeps every name, and touches only this one. */
  lemma {:induction false} WidenSpec(kept: seq<Struct>, s: Struct)
    ensures var w := Widen(kept, s);
      |w| == |kept| && forall i | 0 <= i < |kept| :: w[i].name == kept[i].name && (w[i] == kept[i] || w[i] == s)
  {
    if kept != [] { WidenSpec(kept[1..], s); }
  }

  lemma KeepsOneMore(kept: seq<Struct>, done: seq<Struct>, s: Struct, next: seq<Struct>)
    requires Keeps(kept, done)
    requires if HasName(kept, s.name)
             then |next| == |kept| && forall i | 0 <= i < |kept| :: next[i].name == kept[i].name && (next[i] == kept[i] || next[i] == s)
             else next == kept + [s]
    ensures Keeps(next, done + [s])
  {
    forall x | x in done + [s] ensures HasName(next, x.name) {
      if x in done || HasName(kept, s.name) {
        assert HasName(kept, x.name);
        var i :| 0 <= i < |kept| && kept[i].name == x.name;
        assert next[i] in next;
      } else {
        assert s in next;
      }
    }
    if !HasName(kept, s.name) {
      forall i | 0 <= i < |kept| ensures kept[i].name != s.name { assert kept[i] in kept; }
    }
  }

  // ---------------------------------------------------------------- the struct of each literal

  /** The bare types of stray children, which are not declared. */
  function StrayStructs(fields: seq<Field>, n: Naming): seq<Struct>
    decreases fields, 0
  {
    if fields == [] then [] else StrayStructsBy(fields[0], n) + StrayStructs(fields[1..], n)
  }

  function StrayStructsBy(f: Field, n: Naming): seq<Struct>
    decreases f, 1
  {
    if f.fieldType.Union? || !IsChild(f) || IsContentChild(f) || f.children == [] then []
    else if f.repeats then (if Stray(f, n) then [Struct(StructName(f, n), [])] else [])
    else StrayStructs(f.children, n)
  }

  /** The reads of the parser with the item structs behind them in place of the literals. */
  function Types(fields: seq<Field>, n: Naming): seq<Read>
    decreases fields, 0
  {
    if fields == [] then [] else TypesBy(fields[0], n) + Types(fields[1..], n)
  }

  function TypesBy(f: Field, n: Naming): seq<Read>
    decreases f, 1
  {
    if f.fieldType.Union? || !IsChild(f) || IsContentChild(f) || f.children == [] then ReadsBy(f, n)
    else if f.repeats then
      (if Builds(f, n) then [Read(n.ident(TagOrName(f)), StructsBy(f, n) + StrayStructsBy(f, n))] else [])
    else Types(f.children, n)
  }

  predicate Alike(l: Struct, s: Struct) {
    l.name == s.name && Members(l.columns) == Members(s.columns)
  }

  predicate AllAlike(ls: seq<Struct>, ss: seq<Struct>) {
    |ls| == |ss| && forall j | 0 <= j < |ls| :: Alike(ls[j], ss[j])
  }

  /** Read by read, literal by literal. */
  predicate Paired(rs: seq<Read>, ts: seq<Read>) {
    |rs| == |ts| && forall i | 0 <= i < |rs| :: rs[i].name == ts[i].name && AllAlike(rs[i].builds, ts[i].builds)
  }

  lemma PairedConcat(a: seq<Read>, b: seq<Read>, x: seq<Read>, y: seq<Read>)
    requires Paired(a, x) && Paired(b, y)
    ensures Paired(a + b, x + y)
  {
    hide AllAlike;
  }

  lemma {:induction false} TypesPaired(fields: seq<Field>, n: Naming)
    ensures Paired(Reads(fields, n), Types(fields, n))
    decreases fields, 0
  {
    if fields != [] {
      TypesPairedBy(fields[0], n);
      TypesPaired(fields[1..], n);
      PairedConcat(ReadsBy(fields[0], n), Reads(fields[1..], n), TypesBy(fields[0], n), Types(fields[1..], n));
    }
  }

  lemma {:induction false} TypesPairedBy(f: Field, n: Naming)
    ensures Paired(ReadsBy(f, n), TypesBy(f, n))
    decreases f, 1
  {
    ChildIsNotLeaf(f);
    assert IsLeaf(f) ==> IsAttr(f);
    hide IsLeaf, IsChild, IsContentChild, HasUnion, Paired, IsAttr;
    if !f.fieldType.Union? && IsChild(f) && !IsContentChild(f) && f.children != [] {
      if f.repeats {
        ItemPaired(f, n);
      } else {
        TypesPaired(f.children, n);
      }
    } else {
      SamePaired(ReadsBy(f, n));
    }
  }

  lemma SamePaired(rs: seq<Read>)
    ensures Paired(rs, rs)
  {}

  /** What one repeated child builds, and the structs it declares or leaves undeclared. */
  lemma ItemPaired(f: Field, n: Naming)
    requires !f.fieldType.Union? && IsChild(f) && !IsContentChild(f) && !IsLeaf(f) && f.children != [] && f.repeats
    ensures Paired(ReadsBy(f, n), TypesBy(f, n))
  {
    SameColumns(f, n);
    NestedNeedColumns(f.children, n);
    NestedAlike(f.children, n);
    hide IsLeaf, IsChild, IsContentChild, HasUnion, NestedStructs, NestedLiterals, LeafNames, UnionNames, NestedNames, DedupLeaves, Filled, StructName;
    var literals, structs := NestedLiterals(f.children, n), NestedStructs(f.children, n);
    var item := Struct(StructName(f, n), Filled(f, n));
    if Stray(f, n) {
      assert StructsBy(f, n) + StrayStructsBy(f, n) == structs + [Struct(StructName(f, n), [])];
    } else if Builds(f, n) {
      assert StructsBy(f, n) + StrayStructsBy(f, n) == structs + [Struct(StructName(f, n), Columns(f, n))];
    }
    assert Builds(f, n) ==> ReadsBy(f, n)[0].builds == literals + [item];
  }

  lemma {:induction false} NestedNeedColumns(kids: seq<Field>, n: Naming)
    ensures NestedStructs(kids, n) == [] <==> NestedNames(kids, n) == []
  {
    if kids != [] { NestedNeedColumns(kids[1..], n); }
  }

  lemma {:induction false} NestedAlike(kids: seq<Field>, n: Naming)
    ensures AllAlike(NestedLiterals(kids, n), NestedStructs(kids, n))
  {
    if kids != [] {
      NestedAlike(kids[1..], n);
      SameLeaves(kids[0].children, n);
    }
  }

  /** Dropping repeated reads drops the same ones on both sides. */
  lemma {:induction false} FreshPaired(rs: seq<Read>, ts: seq<Read>, seen: set<string>)
    requires Paired(rs, ts)
    ensures Paired(FreshReads(rs, seen), FreshReads(ts, seen))
    decreases |rs|
  {
    hide AllAlike;
    if rs != [] {
      var r, t := rs[0], ts[0];
      assert Paired(rs[1..], ts[1..]);
      FreshPaired(rs[1..], ts[1..], if r.name in seen then seen else seen + {r.name});
      if r.name !in seen {
        PairedConcat([r], FreshReads(rs[1..], seen + {r.name}), [t], FreshReads(ts[1..], seen + {t.name}));
      }
    }
  }

  /** A literal, or its type, behind one of these reads. */
  ghost predicate Built(l: Struct, rs: seq<Read>) {
    exists r :: r in rs && l in r.builds
  }

  lemma BuiltConcat(l: Struct, a: seq<Read>, b: seq<Read>)
    ensures Built(l, a + b) <==> Built(l, a) || Built(l, b)
  {
    if Built(l, a) || Built(l, b) {
      var r :| (r in a || r in b) && l in r.builds;
      assert r in a + b;
    }
  }

  /** Behind all reads stand exactly the declared structs and the stray ones. */
  lemma {:induction false} TypesDeclared(fields: seq<Field>, n: Naming, s: Struct)
    ensures Built(s, Types(fields, n)) <==> s in Structs(fields, n) || s in StrayStructs(fields, n)
    decreases fields, 0
  {
    if fields != [] {
      TypesDeclaredBy(fields[0], n, s);
      TypesDeclared(fields[1..], n, s);
      BuiltConcat(s, TypesBy(fields[0], n), Types(fields[1..], n));
    }
  }

  lemma {:induction false} TypesDeclaredBy(f: Field, n: Naming, s: Struct)
    ensures Built(s, TypesBy(f, n)) <==> s in StructsBy(f, n) || s in StrayStructsBy(f, n)
    decreases f, 1
  {
    ChildIsNotLeaf(f);
    if f.fieldType.Union? || !IsChild(f) || IsContentChild(f) || f.children == [] {
      assert forall r | r in TypesBy(f, n) :: r.builds == [];
    } else if f.repeats {
      SameColumns(f, n);
      NestedNeedColumns(f.children, n);
      hide IsLeaf, IsChild, IsContentChild, HasUnion, NestedStructs, NestedLiterals, LeafNames, UnionNames, NestedNames, DedupLeaves, StructName;
      var all := StructsBy(f, n) + StrayStructsBy(f, n);
      if Builds(f, n) {
        assert TypesBy(f, n) == [Read(n.ident(TagOrName(f)), all)];
        assert s in all ==> TypesBy(f, n)[0] in TypesBy(f, n) && s in TypesBy(f, n)[0].builds;
      }
    } else {
      TypesDeclared(f.children, n, s);
    }
  }

  // ---------------------------------------------------------------- literals against declared structs

  lemma {:induction false} DeclaredHaveColumns(fields: seq<Field>, n: Naming)
    ensures forall s | s in Structs(fields, n) :: s.columns != []
    decreases fields, 0
  {
    if fields != [] {
      DeclaredHaveColumnsBy(fields[0], n);
      DeclaredHaveColumns(fields[1..], n);
    }
  }

  lemma {:induction false} DeclaredHaveColumnsBy(f: Field, n: Naming)
    ensures forall s | s in StructsBy(f, n) :: s.columns != []
    decreases f, 1
  {
    if !f.fieldType.Union? && IsChild(f) && !IsContentChild(f) && f.children != [] {
      if f.repeats { NestedHaveColumns(f.children, n); } else { DeclaredHaveColumns(f.children, n); }
    }
  }

  lemma {:induction false} NestedHaveColumns(kids: seq<Field>, n: Naming)
    ensures forall s | s in NestedStructs(kids, n) :: s.columns != []
  {
    if kids != [] { NestedHaveColumns(kids[1..], n); }
  }

  lemma {:induction false} StraySpec(fields: seq<Field>, n: Naming)
    ensures StrayStructs(fields, n) == [] <==> StrayTags(fields, n) == {}
    ensures forall s | s in StrayStructs(fields, n) :: s.columns == []
    decreases fields, 0
  {
    if fields != [] {
      StraySpecBy(fields[0], n);
      StraySpec(fields[1..], n);
    }
  }

  lemma {:induction false} StraySpecBy(f: Field, n: Naming)
    ensures StrayStructsBy(f, n) == [] <==> StrayTagsBy(f, n) == {}
    ensures forall s | s in StrayStructsBy(f, n) :: s.columns == []
    decreases f, 1
  {
    hide IsChild, IsContentChild, Stray;
    if !f.fieldType.Union? && IsChild(f) && !IsContentChild(f) && f.children != [] && !f.repeats { StraySpec(f.children, n); }
  }

  /** Some declared struct is the literal's type and has its columns. */
  predicate HasStruct(l: Struct, declared: seq<Struct>) {
    exists s :: s in declared && Alike(l, s)
  }

  ghost predicate AllTyped(rs: seq<Read>, declared: seq<Struct>) {
    forall l | Built(l, rs) :: HasStruct(l, declared)
  }

  /** Literals and the structs in their places, from either side. */
  lemma BuiltPair(rs: seq<Read>, ts: seq<Read>, l: Struct) returns (s: Struct)
    requires Paired(rs, ts) && Built(l, rs)
    ensures Built(s, ts) && Alike(l, s)
  {
    var r :| r in rs && l in r.builds;
    var i :| 0 <= i < |rs| && rs[i] == r;
    var j :| 0 <= j < |r.builds| && r.builds[j] == l;
    s := ts[i].builds[j];
    assert AllAlike(rs[i].builds, ts[i].builds) && ts[i] in ts;
  }

  lemma PairedBack(rs: seq<Read>, ts: seq<Read>)
    requires Paired(rs, ts)
    ensures Paired(ts, rs)
  {
    forall i | 0 <= i < |rs| ensures AllAlike(ts[i].builds, rs[i].builds) { assert AllAlike(rs[i].builds, ts[i].builds); }
  }

  /** Every item literal has a declared struct of its name with exactly its columns if and
      only if no child is stray; and then so has every one the parser emits. */
  lemma ItemsAgreeWithParser(fields: seq<Field>, n: Naming)
    ensures var flat := Flatten(fields, false);
      (StrayTags(flat, n) == {} <==> AllTyped(Reads(flat, n), Structs(flat, n))) &&
      (StrayTags(flat, n) == {} ==> AllTyped(Initialisers(fields, n), Structs(flat, n)))
  {
    var flat := Flatten(fields, false);
    var rs, ts, structs := Reads(flat, n), Types(flat, n), Structs(flat, n);
    hide Flatten, Reads, Types, Structs, StrayStructs, StrayTags, Paired, Built, Alike;
    StraySpec(flat, n);
    TypesPaired(flat, n);
    if StrayTags(flat, n) == {} {
      forall l | Built(l, rs) ensures HasStruct(l, structs) {
        var s := BuiltPair(rs, ts, l);
        TypesDeclared(flat, n, s);
      }
      forall l | Built(l, Initialisers(fields, n)) ensures Built(l, rs) { BuiltBefore(l, rs, {}); }
    } else {
      var stray := StrayStructs(flat, n)[0];
      TypesDeclared(flat, n, stray);
      PairedBack(rs, ts);
      var l := BuiltPair(ts, rs, stray);
      DeclaredHaveColumns(flat, n);
      NoColumns(stray, l, structs);
      assert Built(l, rs) && !HasStruct(l, structs);
    }
  }

  lemma BuiltBefore(l: Struct, rs: seq<Read>, seen: set<string>)
    requires Built(l, FreshReads(rs, seen))
    ensures Built(l, rs)
  {
    FreshIsMember(rs, seen);
  }

  lemma NoColumns(stray: Struct, l: Struct, structs: seq<Struct>)
    requires stray.columns == [] && Alike(stray, l) && forall s | s in structs :: s.columns != []
    ensures !HasStruct(l, structs)
  {
    assert Members(l.columns) == {};
    forall s | s in structs ensures !Alike(l, s) { assert s.columns[0] in Members(s.columns); }
  }

  // ---------------------------------------------------------------- literals against kept structs

  /** A kept struct of its name has all its columns; those it leaves out are defaulted. */
  predicate Within(l: Struct, kept: seq<Struct>) {
    exists k :: k in kept && k.name == l.name && Members(l.columns) <= Members(k.columns)
  }

  predicate Covers(kept: seq<Struct>, structs: seq<Struct>) {
    forall s | s in structs :: Within(s, kept)
  }

  ghost predicate AllWithin(rs: seq<Read>, kept: seq<Struct>) {
    forall l | Built(l, rs) :: Within(l, kept)
  }

  lemma PairedWithin(rs: seq<Read>, ts: seq<Read>, kept: seq<Struct>)
    requires Paired(rs, ts) && AllWithin(ts, kept)
    ensures AllWithin(rs, kept)
  {
    hide Built, Paired;
    forall l | Built(l, rs) ensures Within(l, kept) {
      var s := BuiltPair(rs, ts, l);
      var k :| k in kept && k.name == s.name && Members(s.columns) <= Members(k.columns);
    }
  }

  /** Whatever structs are kept: the literals the parser emits fit them exactly when these
      structs cover those behind its reads; and all literals do exactly when they cover
      every declared struct and hold the name of every stray one. */
  lemma LiteralsFitKept(fields: seq<Field>, n: Naming, kept: seq<Struct>)
    ensures var flat := Flatten(fields, false);
      AllWithin(Initialisers(fields, n), kept) <==> AllWithin(FreshReads(Types(flat, n), {}), kept)
    ensures var flat := Flatten(fields, false);
      AllWithin(Reads(flat, n), kept) <==>
      Covers(kept, Structs(flat, n)) && forall s | s in StrayStructs(flat, n) :: HasName(kept, s.name)
  {
    var flat := Flatten(fields, false);
    var rs, ts := Reads(flat, n), Types(flat, n);
    hide Flatten, Reads, Types, Structs, StrayStructs, StrayTags, FreshReads, Paired, Built, Within;
    TypesPaired(flat, n);
    PairedBack(rs, ts);
    FreshPaired(rs, ts, {});
    FreshPaired(ts, rs, {});
    var a, b := FreshReads(rs, {}), FreshReads(ts, {});
    if AllWithin(a, kept) { PairedWithin(b, a, kept); }
    if AllWithin(b, kept) { PairedWithin(a, b, kept); }
    if AllWithin(rs, kept) { PairedWithin(ts, rs, kept); }
    if AllWithin(ts, kept) { PairedWithin(rs, ts, kept); }
    StraySpec(flat, n);
    forall s ensures Built(s, ts) <==> s in Structs(flat, n) || s in StrayStructs(flat, n) { TypesDeclared(flat, n, s); }
    forall s | s in StrayStructs(flat, n) ensures Within(s, kept) <==> HasName(kept, s.name) { BareWithin(s, kept); }
  }

  lemma BareWithin(s: Struct, kept: seq<Struct>)
    requires s.columns == []
    ensures Within(s, kept) <==> HasName(kept, s.name)
  {
    assert Members(s.columns) == {};
  }

  // ---------------------------------------------------------------- the two rules of keeping

  /** The first struct of a name. */
  function Named(structs: seq<Struct>, name: string): Values.Option<Struct> {
    if structs == [] then Values.None
    else if structs[0].name == name then Values.Some(structs[0])
    else Named(structs[1..], name)
  }

  lemma {:induction false} NamedSpec(structs: seq<Struct>, name: string)
    ensures HasName(structs, name) <==> Named(structs, name).Some?
    ensures Named(structs, name).Some? ==> Named(structs, name).value in structs && Named(structs, name).value.name == name
  {
    if structs != [] {
      NamedSpec(structs[1..], name);
      if HasName(structs[1..], name) {
        var k :| k in structs[1..] && k.name == name;
        assert k in structs;
      }
    }
  }

  lemma {:induction false} NamedConcat(a: seq<Struct>, b: seq<Struct>, name: string)
    ensures Named(a + b, name) == if Named(a, name).Some? then Named(a, name) else Named(b, name)
  {
    if a == [] {
      assert a + b == b;
    } else {
      assert (a + b)[1..] == a[1..] + b;
      NamedConcat(a[1..], b, name);
    }
  }

  lemma {:induction false} KeepFirstNamed(kept: seq<Struct>, structs: seq<Struct>, name: string)
    ensures Named(KeepFirst(kept, structs), name) == Named(kept + structs, name)
    decreases |structs|
  {
    hide *;
    KeepSteps(kept, structs);
    if structs == [] {
      assert kept + structs == kept;
    } else {
      var s, rest := structs[0], structs[1..];
      KeepFirstNamed(if HasName(kept, s.name) then kept else kept + [s], rest, name);
      assert kept + [s] + rest == kept + structs && [s] + rest == structs;
      NamedConcat(kept, structs, name);
      NamedConcat([s], rest, name);
      NamedConcat(kept, rest, name);
      NamedSpec(kept, s.name);
      NamedOne(s, name);
    }
  }

  lemma NamedOne(s: Struct, name: string)
    ensures Named([s], name) == if s.name == name then Values.Some(s) else Values.None
  {
    assert [s][1..] == [];
  }

  /** Keeping the first of each name covers all exactly when the first one of each name has
      the columns of all of that name. */
  lemma FirstCovers(structs: seq<Struct>)
    ensures Covers(KeepFirst([], structs), structs) <==>
      forall s | s in structs :: Named(structs, s.name).Some? && Members(s.columns) <= Members(Named(structs, s.name).value.columns)
  {
    var kept := KeepFirst([], structs);
    assert [] + structs == structs && Keeps([], []);
    hide KeepFirst, Named;
    KeepFirstKeeps([], [], structs);
    forall s | s in structs
      ensures Within(s, kept) <==> Named(structs, s.name).Some? && Members(s.columns) <= Members(Named(structs, s.name).value.columns)
    {
      KeepFirstNamed([], structs, s.name);
      NamedSpec(kept, s.name);
      if Within(s, kept) {
        var k :| k in kept && k.name == s.name && Members(s.columns) <= Members(k.columns);
        OnlyOne(kept, structs, k, Named(kept, s.name).value);
      }
    }
  }

  lemma OnlyOne(kept: seq<Struct>, structs: seq<Struct>, k: Struct, l: Struct)
    requires Keeps(kept, structs) && k in kept && l in kept && k.name == l.name
    ensures k == l
  {
    var i :| 0 <= i < |kept| && kept[i] == k;
    var j :| 0 <= j < |kept| && kept[j] == l;
    assert i == j;
  }

  /** No struct has more columns than the kept one of its name. */
  predicate Widest(kept: seq<Struct>, done: seq<Struct>) {
    forall k, s | k in kept && s in done && k.name == s.name :: |Fresh(s.columns, {})| <= |Fresh(k.columns, {})|
  }

  lemma {:induction false} KeepWidestWidest(kept: seq<Struct>, done: seq<Struct>, structs: seq<Struct>)
    requires Keeps(kept, done) && Widest(kept, done)
    ensures Widest(KeepWidest(kept, structs), done + structs)
    decreases |structs|
  {
    hide *;
    KeepSteps(kept, structs);
    if structs == [] {
      assert done + structs == done;
    } else {
      var s := structs[0];
      var next := if HasName(kept, s.name) then Widen(kept, s) else kept + [s];
      WidenSpec(kept, s);
      KeepsOneMore(kept, done, s, next);
      WidestOneMore(kept, done, s, next);
      KeepWidestWidest(next, done + [s], structs[1..]);
      assert done + [s] + structs[1..] == done + structs;
    }
  }

  lemma {:induction false} WidenWider(kept: seq<Struct>, s: Struct)
    requires forall i, j | 0 <= i < j < |kept| :: kept[i].name != kept[j].name
    ensures |Widen(kept, s)| == |kept|
    ensures forall i | 0 <= i < |kept| ::
      Widen(kept, s)[i].name == kept[i].name && |Fresh(kept[i].columns, {})| <= |Fresh(Widen(kept, s)[i].columns, {})| &&
      (kept[i].name == s.name ==> |Fresh(s.columns, {})| <= |Fresh(Widen(kept, s)[i].columns, {})|)
  {
    hide Fresh;
    if kept != [] { WidenWider(kept[1..], s); }
  }

  lemma SameName(kept: seq<Struct>, x: Struct, s: Struct)
    requires HasName(kept, x.name)
    ensures x.name == s.name ==> HasName(kept, s.name)
  {}

  lemma WidestOneMore(kept: seq<Struct>, done: seq<Struct>, s: Struct, next: seq<Struct>)
    requires Keeps(kept, done) && Widest(kept, done)
    requires next == if HasName(kept, s.name) then Widen(kept, s) else kept + [s]
    ensures Widest(next, done + [s])
  {
    hide Fresh, Widen;
    WidenWider(kept, s);
    forall k, x | k in next && x in done + [s] && k.name == x.name ensures |Fresh(x.columns, {})| <= |Fresh(k.columns, {})| {
      var i :| 0 <= i < |next| && next[i] == k;
      if HasName(kept, s.name) {
        assert kept[i] in kept;
      } else if i < |kept| {
        assert kept[i] in kept && kept[i].name != s.name;
      } else if x in done {
        SameName(kept, x, s);
      }
    }
  }

  lemma {:induction false} DistinctSize(names: seq<string>)
    requires Distinct(names)
    ensures |Members(names)| == |names|
  {
    if names != [] {
      DistinctSize(names[1..]);
      assert Members(names) == {names[0]} + Members(names[1..]) && names[0] !in names[1..];
    }
  }

  lemma FreshSize(names: seq<string>)
    ensures |Fresh(names, {})| == |Members(names)|
  {
    FreshSpec(names, {});
    DistinctSize(Fresh(names, {}));
  }

  /** Counting columns is enough: if any choice of one struct of each name covers all, the
      widest one does. */
  lemma WidestCovers(structs: seq<Struct>)
    ensures Covers(KeepWidest([], structs), structs) <==> exists kept :: Keeps(kept, structs) && Covers(kept, structs)
  {
    var widest := KeepWidest([], structs);
    assert [] + structs == structs && Keeps([], []) && Widest([], []);
    hide KeepWidest;
    KeepWidestKeeps([], [], structs);
    KeepWidestWidest([], [], structs);
    if kept: seq<Struct> :| Keeps(kept, structs) && Covers(kept, structs) {
      forall s | s in structs ensures Within(s, widest) {
        assert HasName(widest, s.name) && Within(s, kept);
        var w :| w in widest && w.name == s.name;
        assert Within(w, kept);
        var k: Struct :| k in kept && k.name == s.name && Members(s.columns) <= Members(k.columns);
        var k1: Struct :| k1 in kept && k1.name == w.name && Members(w.columns) <= Members(k1.columns);
        OnlyOne(kept, structs, k, k1);
        FreshSize(k.columns);
        FreshSize(w.columns);
        SameSize(Members(w.columns), Members(k.columns));
      }
    }
  }

  lemma SameSize(a: set<string>, b: set<string>)
    requires a <= b && |b| <= |a|
    ensures a == b
  {
    if x :| x in b && x !in a { FiniteSets.SubsetSize(a + {x}, b); }
  }

  /** Structs of one name have one set of columns. */
  predicate OneShape(structs: seq<Struct>) {
    forall s, t | s in structs && t in structs && s.name == t.name :: Members(s.columns) == Members(t.columns)
  }

  lemma OneShapeCovered(kept: seq<Struct>, structs: seq<Struct>)
    requires OneShape(structs) && Keeps(kept, structs)
    ensures Covers(kept, structs)
  {
    forall s | s in structs ensures Within(s, kept) { var k :| k in kept && k.name == s.name; }
  }

  /** So what the parser emits fits whenever no two declared structs of one name differ,
      under either rule of keeping. */
  lemma KeptItemsAgree(fields: seq<Field>, n: Naming)
    requires StrayTags(Flatten(fields, false), n) == {} && OneShape(Structs(Flatten(fields, false), n))
    ensures AllWithin(Initialisers(fields, n), KeepFirst([], Structs(Flatten(fields, false), n)))
    ensures AllWithin(Initialisers(fields, n), KeepWidest([], Structs(Flatten(fields, false), n)))
  {
    hide KeepFirst, KeepWidest, Reads, Structs, Flatten, StrayTags, OneShape, Covers;
    var flat := Flatten(fields, false);
    var structs := Structs(flat, n);
    assert [] + structs == structs && Keeps([], []);
    KeepFirstKeeps([], [], structs);
    KeepWidestKeeps([], [], structs);
    StraySpec(flat, n);
    forall kept | Keeps(kept, structs) ensures AllWithin(Initialisers(fields, n), kept) {
      OneShapeCovered(kept, structs);
      LiteralsFitKept(fields, n, kept);
      forall l | Built(l, Initialisers(fields, n)) ensures Within(l, kept) { BuiltBefore(l, Reads(flat, n), {}); }
    }
  }

  // ---------------------------------------------------------------- two structs of one name

  function Leaf(name: string): Field {
    Field("attrString", name, Values.None, OtherType, true, false, false, false, Values.None, Values.None, [])
  }

  function Repeated(tag: string, kids: seq<Field>): Field {
    Field("mapChildrenWithTag", tag, Values.Some(tag), OtherType, true, false, true, false, Values.None, Values.None, kids)
  }

  function Leaves(names: seq<string>): seq<Field> {
    if names == [] then [] else [Leaf(names[0])] + Leaves(names[1..])
  }

  function Spelled(names: seq<string>, n: Naming): seq<string> {
    if names == [] then [] else [n.ident(names[0])] + Spelled(names[1..], n)
  }

  /** A repeated item with a repeated `<user>` in it. */
  function Party(tag: string, names: seq<string>): Field {
    Repeated(tag, [Repeated("user", Leaves(names))])
  }

  function ItemType(tag: string, columns: seq<string>, n: Naming): Struct {
    Struct(n.prefix + n.pascal(tag) + "Item", columns)
  }

  function PartyTypes(tag: string, names: seq<string>, n: Naming): seq<Struct> {
    [ItemType("user", Spelled(names, n), n), ItemType(tag, [n.ident("user")], n)]
  }

  lemma {:induction false} LeavesFacts(names: seq<string>, n: Naming)
    ensures LeafNames(Leaves(names), n) == Spelled(names, n) && Flat(Leaves(names)) && (names != [] ==> Leaves(names) != [])
  {
    if names != [] {
      var rest := Leaves(names[1..]);
      LeavesFacts(names[1..], n);
      assert IsAttrMethod("attrString") by { assert "attr" <= "attrString"; assert |"FromReference"| == 13; }
      assert IsLeaf(Leaf(names[0]));
      hide IsLeaf;
      assert Leaves(names)[0] == Leaf(names[0]) && Leaves(names)[1..] == rest;
    }
  }

  /** What such an item declares. */
  lemma PartyFacts(tag: string, names: seq<string>, n: Naming)
    requires names != []
    ensures var f := Party(tag, names);
      FlatField(f) && StrayStructsBy(f, n) == [] && StructsBy(f, n) == PartyTypes(tag, names, n) &&
      TypesBy(f, n) == [Read(n.ident(tag), PartyTypes(tag, names, n))]
  {
    var k := Repeated("user", Leaves(names));
    var f := Party(tag, names);
    LeavesFacts(names, n);
    ChildIsNotLeaf(k);
    assert !IsLeaf(k);
    hide IsLeaf, Leaves, LeafNames, DedupLeaves;
    assert FlatField(k) && [k][1..] == [] && Flat([k][1..]);
    assert RepeatsWithin(k);
    assert !IsContentChild(f) by { assert [k][0] == k && !IsContent(k); }
    assert NestedStructs([k], n) == [ItemType("user", Spelled(names, n), n)] + NestedStructs([k][1..], n);
    assert NestedNames([k], n) == [n.ident("user")] + NestedNames([k][1..], n);
    assert LeafNames([k], n) == [] by { NoLeaf(k, n); }
    assert UnionNames([k], n) == [] + UnionNames([k][1..], n);
    SameColumns(f, n);
    hide HasUnion, NestedStructs, NestedNames, UnionNames, IsContentChild, Builds;
    assert Columns(f, n) == [n.ident("user")];
    assert StructsBy(f, n) + StrayStructsBy(f, n) == PartyTypes(tag, names, n);
  }

  lemma SpelledOne(name: string, n: Naming)
    ensures Spelled([name], n) == [n.ident(name)]
  {
    assert [name][1..] == [];
  }

  lemma NoLeaf(k: Field, n: Naming)
    requires !IsLeaf(k)
    ensures LeafNames([k], n) == []
  {
    hide IsLeaf;
    assert [k][1..] == [];
  }

  /** Two repeated items, each with a repeated `<user>` of its own shape. */
  function Parties(a: seq<string>, b: seq<string>): seq<Field> {
    [Party("added", a), Party("removed", b)]
  }

  lemma PartiesFacts(a: seq<string>, b: seq<string>, n: Naming)
    requires a != [] && b != [] && n.ident("added") != n.ident("removed")
    ensures Flatten(Parties(a, b), false) == Parties(a, b) && StrayTags(Parties(a, b), n) == {}
    ensures Structs(Parties(a, b), n) == PartyTypes("added", a, n) + PartyTypes("removed", b, n)
    ensures forall s :: Built(s, FreshReads(Types(Parties(a, b), n), {})) <==> s in Structs(Parties(a, b), n)
  {
    var f, g, tree := Party("added", a), Party("removed", b), Parties(a, b);
    PartyFacts("added", a, n);
    PartyFacts("removed", b, n);
    assert tree[1..] == [g] && [g][1..] == [];
    hide StructsBy, StrayStructsBy, TypesBy, FlatField, PartyTypes, Party;
    assert Flat([g]) && Flat(tree);
    FlattenFixed(tree);
    assert Structs([g], n) == StructsBy(g, n) + Structs([g][1..], n);
    assert StrayStructs([g], n) == StrayStructsBy(g, n) + StrayStructs([g][1..], n);
    assert StrayStructs(tree, n) == [];
    StraySpec(tree, n);
    var x, y := Read(n.ident("added"), PartyTypes("added", a, n)), Read(n.ident("removed"), PartyTypes("removed", b, n));
    assert Types([g], n) == TypesBy(g, n) + Types([g][1..], n);
    assert Types(tree, n) == [x, y];
    NothingDropped(x, y);
    forall s ensures Built(s, [x, y]) <==> s in Structs(tree, n) {
      if s in x.builds { assert x in [x, y]; }
      if s in y.builds { assert y in [x, y]; }
    }
  }

  lemma NothingDropped(x: Read, y: Read)
    requires x.name != y.name
    ensures FreshReads([x, y], {}) == [x, y]
  {
    assert [x, y][1..] == [y] && [y][1..] == [];
    assert FreshReads([y], {x.name}) == [y] + FreshReads([y][1..], {x.name} + {y.name});
    assert FreshReads([x, y], {}) == [x] + FreshReads([x, y][1..], {} + {x.name});
    assert {} + {x.name} == {x.name};
  }

  /** With `jid` below one item and `lid` below the other, some emitted literal does not
      fit, whichever `<user>` struct the file keeps. */
  lemma TwinsDiffer(n: Naming)
    requires n.ident("jid") != n.ident("lid") && n.ident("added") != n.ident("removed")
    ensures var tree := Parties(["jid"], ["lid"]);
      var structs := Structs(Flatten(tree, false), n);
      StrayTags(Flatten(tree, false), n) == {} && !OneShape(structs) &&
      forall kept | Keeps(kept, structs) :: !AllWithin(Initialisers(tree, n), kept)
  {
    hide *;
    var tree := Parties(["jid"], ["lid"]);
    PartiesFacts(["jid"], ["lid"], n);
    TwinTypes(n);
    var structs := Structs(tree, n);
    var s, t := structs[0], structs[2];
    forall kept | Keeps(kept, structs) ensures !AllWithin(Initialisers(tree, n), kept) {
      LiteralsFitKept(tree, n, kept);
      if AllWithin(FreshReads(Types(tree, n), {}), kept) {
        AllWithinOne(s, FreshReads(Types(tree, n), {}), kept);
        AllWithinOne(t, FreshReads(Types(tree, n), {}), kept);
        NotBoth(s, t, kept, structs);
      }
    }
    if OneShape(structs) { ShapesEqual(s, t, structs); }
  }

  lemma TwinTypes(n: Naming)
    ensures var structs := PartyTypes("added", ["jid"], n) + PartyTypes("removed", ["lid"], n);
      |structs| == 4 && structs[0].name == structs[2].name &&
      structs[0].columns == [n.ident("jid")] && structs[2].columns == [n.ident("lid")] && forall x | x in structs :: |x.columns| == 1
  {
    SpelledOne("jid", n);
    SpelledOne("lid", n);
  }

  lemma AllWithinOne(s: Struct, rs: seq<Read>, kept: seq<Struct>)
    requires AllWithin(rs, kept) && Built(s, rs)
    ensures Within(s, kept)
  {
    hide Built, Within;
  }

  lemma NotBoth(s: Struct, t: Struct, kept: seq<Struct>, structs: seq<Struct>)
    requires Keeps(kept, structs) && Within(s, kept) && Within(t, kept) && s.name == t.name
    requires |s.columns| == |t.columns| == 1 && forall x | x in structs :: |x.columns| == 1
    ensures s.columns == t.columns
  {
    var k :| k in kept && k.name == s.name && Members(s.columns) <= Members(k.columns);
    var k1 :| k1 in kept && k1.name == t.name && Members(t.columns) <= Members(k1.columns);
    OnlyOne(kept, structs, k, k1);
    assert s.columns[0] in Members(s.columns) && t.columns[0] in Members(t.columns);
    assert k.columns == [k.columns[0]] && s.columns == [s.columns[0]] && t.columns == [t.columns[0]];
  }

  lemma ShapesEqual(s: Struct, t: Struct, structs: seq<Struct>)
    requires s in structs && t in structs && s.name == t.name && |s.columns| == |t.columns| == 1 && OneShape(structs)
    ensures s.columns == t.columns
  {
    assert s.columns[0] in Members(s.columns);
    assert s.columns == [s.columns[0]] && t.columns == [t.columns[0]];
  }

  /** With `jid` below one item and both below the other, the widest struct fits all that is
      emitted and the first one does not. */
  lemma FirstIsTooNarrow(n: Naming)
    requires n.ident("jid") != n.ident("lid") && n.ident("added") != n.ident("removed")
    requires Distinct([n.pascal("user"), n.pascal("added"), n.pascal("removed")])
    ensures var tree := Parties(["jid"], ["jid", "lid"]);
      var structs := Structs(Flatten(tree, false), n);
      AllWithin(Initialisers(tree, n), KeepWidest([], structs)) && !AllWithin(Initialisers(tree, n), KeepFirst([], structs))
  {
    hide *;
    var tree := Parties(["jid"], ["jid", "lid"]);
    PartiesFacts(["jid"], ["jid", "lid"], n);
    WideTypes(n);
    var structs := Structs(tree, n);
    WideKept(structs[0], structs[1], structs[2], structs[3]);
    assert structs == [structs[0], structs[1], structs[2], structs[3]];
    WidestCovers(structs);
    FirstCovers(structs);
    FitStructs(tree, n, KeepWidest([], structs));
    FitStructs(tree, n, KeepFirst([], structs));
  }

  lemma FitStructs(tree: seq<Field>, n: Naming, kept: seq<Struct>)
    requires Flatten(tree, false) == tree
    requires forall s :: Built(s, FreshReads(Types(tree, n), {})) <==> s in Structs(tree, n)
    ensures AllWithin(Initialisers(tree, n), kept) <==> Covers(kept, Structs(tree, n))
  {
    LiteralsFitKept(tree, n, kept);
    hide Built, Types, Structs, Initialisers, FreshReads, Within;
  }

  lemma WideTypes(n: Naming)
    requires n.ident("jid") != n.ident("lid") && Distinct([n.pascal("user"), n.pascal("added"), n.pascal("removed")])
    ensures var structs := PartyTypes("added", ["jid"], n) + PartyTypes("removed", ["jid", "lid"], n);
      |structs| == 4 && structs[0].name == structs[2].name && Members(structs[0].columns) < Members(structs[2].columns) &&
      Distinct([structs[2].name, structs[1].name, structs[3].name])
  {
    SpelledOne("jid", n);
    SpelledOne("lid", n);
    NamesDiffer(n);
    assert ["jid", "lid"][1..] == ["lid"];
    assert Spelled(["jid", "lid"], n) == [n.ident("jid")] + Spelled(["jid", "lid"][1..], n);
    var i, j := n.ident("jid"), n.ident("lid");
    assert [i, j][0] == i && [i, j][1] == j;
    assert PartyTypes("added", ["jid"], n)[0].columns == [i] && PartyTypes("removed", ["jid", "lid"], n)[0].columns == [i, j];
    assert Members([i]) == {i} && Members([i, j]) == {i, j};
    assert j !in {i} && j in {i, j};
  }

  lemma NamesDiffer(n: Naming)
    requires Distinct([n.pascal("user"), n.pascal("added"), n.pascal("removed")])
    ensures Distinct([ItemType("user", [], n).name, ItemType("added", [], n).name, ItemType("removed", [], n).name])
  {
    var all := [n.pascal("user"), n.pascal("added"), n.pascal("removed")];
    assert all[0] != all[1] && all[0] != all[2] && all[1] != all[2];
    NameOf("user", n);
    NameOf("added", n);
    NameOf("removed", n);
  }

  lemma NameOf(tag: string, n: Naming)
    ensures var name := ItemType(tag, [], n).name;
      |name| >= |n.prefix| + 4 && name[|n.prefix|..|name| - 4] == n.pascal(tag)
  {}

  lemma WideKept(s: Struct, x: Struct, t: Struct, y: Struct)
    requires s.name == t.name && Distinct([t.name, x.name, y.name]) && Members(s.columns) < Members(t.columns)
    ensures exists kept :: Keeps(kept, [s, x, t, y]) && Covers(kept, [s, x, t, y])
    ensures !forall z | z in [s, x, t, y] ::
      Named([s, x, t, y], z.name).Some? && Members(z.columns) <= Members(Named([s, x, t, y], z.name).value.columns)
  {
    var all, kept := [s, x, t, y], [x, t, y];
    assert [t.name, x.name, y.name][0] == t.name && [t.name, x.name, y.name][1] == x.name && [t.name, x.name, y.name][2] == y.name;
    assert x in kept && t in kept && y in kept;
    assert Keeps(kept, all) && Covers(kept, all);
    assert Named(all, t.name) == Values.Some(s) && t in all;
  }
}
