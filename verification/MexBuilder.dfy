/** The struct interner as it runs: a table and an index of signatures, both updated in
    place. Every method computes what `MexTable` says, whatever the keys. */
module MexBuilder {
  import opened Values
  import opened Decimals
  import opened Suffixes
  import opened MexTypes
  import opened MexUnfold
  import opened MexTable
  import MexMeaning

  class Builder {
    var structs: seq<StructDef>
    var byName: map<string, string>

    /** The index holds the signature of every struct, and nothing else. */
    ghost predicate Valid()
      reads this
    {
      (forall s | s in structs :: s.name in byName && byName[s.name] == Signature(s.fields)) &&
      forall name | name in byName :: Find(structs, name).Some?
    }

    constructor ()
      ensures Valid() && structs == []
    {
      structs, byName := [], map[];
    }

    lemma Looked(name: string, sig: string)
      requires Valid()
      ensures name in byName <==> Find(structs, name).Some?
      ensures Taken(structs, name, sig) <==> name in byName && byName[name] != sig
    {
      hide Signature;
      FindSpec(structs, name);
    }

    lemma Steps(base: string, sig: string, n: nat)
      requires Valid() && n >= 1 && forall m | 1 <= m < n :: Taken(structs, Numbered(base, "", m), sig)
      ensures n - 1 <= |byName.Keys| && Numbered(base, "", n + 1) == base + Decimal(n + 1) && Numbered(base, "", 1) == base
    {
      hide Taken, Signature, Decimal;
      forall m | 1 <= m < n ensures Numbered(base, "", m) in byName.Keys {
        Looked(Numbered(base, "", m), sig);
      }
      TakenBound(base, "", n, byName.Keys);
    }

    /** Try the base name, then its numbered variants; the index is finite, so one is
        free or has this signature. */
    method FreeName(base: string, fields: seq<StructField>) returns (name: string)
      requires Valid()
      ensures name == NameFor(structs, base, Signature(fields))
    {
      hide *;
      var sig := Signature(fields);
      name := base;
      var n := 2;
      Steps(base, sig, 1);
      Looked(name, sig);
      while name in byName && byName[name] != sig
        invariant n >= 2 && name == Numbered(base, "", n - 1)
        invariant forall m | 1 <= m < n - 1 :: Taken(structs, Numbered(base, "", m), sig)
        invariant Taken(structs, name, sig) <==> name in byName && byName[name] != sig
        decreases |byName.Keys| + 2 - n
      {
        Steps(base, sig, n - 1);
        Steps(base, sig, n);
        name := base + Decimal(n);
        n := n + 1;
        Looked(name, sig);
      }
      NameForIs(structs, base, sig, n - 1);
    }

    /** Share a struct of the wanted name and signature, or add one under the first free name. */
    method Intern(def: StructDef) returns (name: string)
      requires Valid()
      modifies this
      ensures Valid()
      ensures name == Interned(old(structs), def).value && structs == Interned(old(structs), def).structs
    {
      name := FreeName(BaseName(def), def.fields);
      Looked(name, Signature(def.fields));
      if name !in byName {
        Entered(name, def.fields);
        byName := byName[name := Signature(def.fields)];
        structs := structs + [StructDef(name, def.fields)];
      }
    }

    lemma Entered(name: string, fields: seq<StructField>)
      requires Valid() && name !in byName
      ensures forall x | x == name || x in byName :: Find(structs + [StructDef(name, fields)], x).Some?
    {
      hide Signature;
      var more := structs + [StructDef(name, fields)];
      forall x | x == name || x in byName ensures Find(more, x).Some? {
        FindSpec(more, x);
        FindSpec(structs, x);
        if x == name {
          assert more[|structs|].name == x && more[|structs|] in more;
        } else {
          assert structs[Find(structs, x).value] in more;
        }
      }
    }

    /** The Rust type for one node, registering every struct below it. */
    method FieldType(node: TypeNode, hint: string, presence: Option<Presence>, sp: Spelling) returns (ty: Ty)
      requires Valid()
      modifies this
      ensures Valid()
      ensures ty == TypeMade(node, hint, presence, sp, old(structs)).value
      ensures structs == TypeMade(node, hint, presence, sp, old(structs)).structs
      decreases node, 1
    {
      hide Valid, Interned, FieldsMade;
      match node
      case Leaf(tag) =>
        ty := ScalarRust(tag);
      case Array(items) =>
        var inner := Str;
        if items != [] {
          inner := FieldType(items[0], hint, ItemsOf(presence), sp);
        }
        ty := Vec(inner);
      case Object(members) =>
        var fields := MemberFields(members, FieldsOf(presence), sp);
        var name := Intern(StructDef(hint, fields));
        ty := Ty.Named(name);
    }

    /** Fields of a struct, key by key; the table grows meanwhile. */
    method MemberFields(members: seq<Member>, verdicts: seq<PresenceField>, sp: Spelling) returns (fields: seq<StructField>)
      requires Valid()
      modifies this
      ensures Valid()
      ensures fields == FieldsMade(members, verdicts, sp, old(structs)).value
      ensures structs == FieldsMade(members, verdicts, sp, old(structs)).structs
      decreases members, 0
    {
      hide *;
      fields := [];
      ghost var all := FieldsMade(members, verdicts, sp, structs);
      assert members[0..] == members;
      for i := 0 to |members|
        invariant Valid()
        invariant fields + FieldsMade(members[i..], verdicts, sp, structs).value == all.value
        invariant FieldsMade(members[i..], verdicts, sp, structs).structs == all.structs
      {
        var m := members[i];
        MemberStep(members, i, verdicts, sp, structs);
        var verdict := Lookup(verdicts, m.key);
        var ty := FieldType(m.node, sp.pascal(m.key), verdict, sp);
        fields := fields + [FieldFor(m.key, ty, verdict, sp)];
      }
      NoMembers(members, verdicts, sp, structs);
    }

    /** A top-level struct; its name is the one asked for unless that is taken. */
    method Register(name: string, members: seq<Member>, presence: Option<seq<PresenceField>>, sp: Spelling) returns (registered: string)
      requires Valid()
      modifies this
      ensures Valid()
      ensures Ty.Named(registered) == Registered(name, members, presence, sp, old(structs)).value
      ensures structs == Registered(name, members, presence, sp, old(structs)).structs
    {
      hide Valid, Interned, FieldsMade;
      var fields := MemberFields(members, match presence case Some(p) => p case None => [], sp);
      registered := Intern(StructDef(name, fields));
    }
  }

  lemma MemberStep(members: seq<Member>, i: nat, verdicts: seq<PresenceField>, sp: Spelling, structs: seq<StructDef>)
    requires i < |members|
    ensures var m := members[i];
      var verdict := Lookup(verdicts, m.key);
      var t := TypeMade(m.node, sp.pascal(m.key), verdict, sp, structs);
      var rest := FieldsMade(members[i + 1..], verdicts, sp, t.structs);
      var all := FieldsMade(members[i..], verdicts, sp, structs);
      all.value == [FieldFor(m.key, t.value, verdict, sp)] + rest.value && all.structs == rest.structs
  {
    assert members[i..][0] == members[i] && members[i..][1..] == members[i + 1..];
    MexMeaning.FieldsStep(members[i..], verdicts, sp, structs);
    hide FieldsMade, TypeMade;
  }

  lemma NoMembers(members: seq<Member>, verdicts: seq<PresenceField>, sp: Spelling, structs: seq<StructDef>)
    ensures FieldsMade(members[|members|..], verdicts, sp, structs) == Made([], structs, false)
  {}

  /** One operation's module: its request and its response, in one table. */
  method GenerateOperation(variables: seq<Member>, presence: seq<PresenceField>, response: seq<Member>, sp: Spelling)
    returns (structs: seq<StructDef>, request: string, answer: string)
    ensures var first := Registered("Variables", variables, Some(presence), sp, []);
      var second := Registered("Response", response, None, sp, first.structs);
      Ty.Named(request) == first.value && Ty.Named(answer) == second.value && structs == second.structs
  {
    hide *;
    var b := new Builder();
    request := b.Register("Variables", variables, Some(presence), sp);
    answer := b.Register("Response", response, None, sp);
    structs := b.structs;
  }
}
