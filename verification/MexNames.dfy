/** Names in the struct table: what each Rust field is called for its key, and what each
    struct is called for the key it was made for. */
module MexNames {
  import opened Values
  import opened Suffixes
  import opened MexTypes
  import opened MexUnfold
  import opened MexTable

  /** The wanted name, `Item` where the key spells none, or one of its numbered variants. */
  function Variant(wanted: string, k: nat): string {
    Numbered(if wanted == "" then "Item" else wanted, "", k)
  }

  ghost predicate VariantOf(name: string, wanted: string) {
    exists k :: k >= 1 && name == Variant(wanted, k)
  }

  /** Lists and options carry the name of what they hold; scalars carry none. */
  ghost predicate NamedFor(ty: Ty, wanted: string) {
    match ty
    case Vec(t) => NamedFor(t, wanted)
    case Opt(t) => NamedFor(t, wanted)
    case Named(name) => VariantOf(name, wanted)
    case _ => true
  }

  /** A field is called by its key, and so is the struct behind it. */
  ghost predicate FieldNamed(f: StructField, sp: Spelling) {
    f.rustField == sp.ident(f.jsonKey) && NamedFor(f.ty, sp.pascal(f.jsonKey))
  }

  ghost predicate FieldsNamed(fields: seq<StructField>, sp: Spelling) {
    forall f | f in fields :: FieldNamed(f, sp)
  }

  ghost predicate TableNamed(structs: seq<StructDef>, sp: Spelling) {
    forall s | s in structs :: FieldsNamed(s.fields, sp)
  }

  /** One field per key, in order, required where the client always writes it. */
  ghost predicate FieldsFor(fields: seq<StructField>, members: seq<Member>, verdicts: seq<PresenceField>) {
    |fields| == |members| &&
    forall i | 0 <= i < |fields| ::
      fields[i].jsonKey == members[i].key && fields[i].required == Always(Lookup(verdicts, members[i].key))
  }

  /** The names structs may be wanted under. */
  function WantedNames(node: TypeNode, hint: string, sp: Spelling): set<string>
    decreases node, 1
  {
    match node
    case Leaf(_) => {}
    case Array(items) => if items == [] then {} else WantedNames(items[0], hint, sp)
    case Object(members) => {hint} + WantedBelow(members, sp)
  }

  function WantedBelow(members: seq<Member>, sp: Spelling): set<string>
    decreases members, 0
  {
    if members == [] then {} else WantedByMember(members[0], sp) + WantedBelow(members[1..], sp)
  }

  function WantedByMember(m: Member, sp: Spelling): set<string>
    decreases m, 2
  {
    WantedNames(m.node, sp.pascal(m.key), sp)
  }

  /** The table grew at its end, by structs named for some of these. */
  ghost predicate GrewBy(structs: seq<StructDef>, after: seq<StructDef>, wanted: set<string>) {
    structs <= after && forall i | |structs| <= i < |after| :: exists w :: w in wanted && VariantOf(after[i].name, w)
  }

  lemma GrewTwice(a: seq<StructDef>, b: seq<StructDef>, c: seq<StructDef>, first: set<string>, second: set<string>)
    requires GrewBy(a, b, first) && GrewBy(b, c, second)
    ensures GrewBy(a, c, first + second)
  {
    hide VariantOf;
    forall i | |a| <= i < |c| ensures exists w :: w in first + second && VariantOf(c[i].name, w) {
      if i < |b| {
        assert c[i] == b[i];
        var w :| w in first && VariantOf(b[i].name, w);
      } else {
        var w :| w in second && VariantOf(c[i].name, w);
      }
    }
  }

  lemma InternedNamed(structs: seq<StructDef>, def: StructDef, sp: Spelling)
    requires TableNamed(structs, sp) && FieldsNamed(def.fields, sp)
    ensures var out := Interned(structs, def);
      TableNamed(out.structs, sp) && VariantOf(out.value, def.name) && GrewBy(structs, out.structs, {def.name})
  {
    FreeFromSpec(structs, BaseName(def), Signature(def.fields), 1);
    var k := FreeFrom(structs, BaseName(def), Signature(def.fields), 1);
    assert NameFor(structs, BaseName(def), Signature(def.fields)) == Variant(def.name, k);
    hide FieldsNamed, NameFor, VariantOf;
  }

  /** Every field of every struct made for a shape is called as its key is spelled, every
      struct as the key it stands behind, list elements taking the key of their list. */
  lemma {:induction false} TypeNamed(node: TypeNode, hint: string, presence: Option<Presence>, sp: Spelling, structs: seq<StructDef>)
    requires TableNamed(structs, sp)
    ensures var out := TypeMade(node, hint, presence, sp, structs);
      TableNamed(out.structs, sp) && NamedFor(out.value, hint) && GrewBy(structs, out.structs, WantedNames(node, hint, sp))
    decreases node, 1
  {
    hide TableNamed, VariantOf, FieldsMade, Interned, WantedBelow;
    match node
    case Leaf(_) =>
    case Array(items) => if items != [] { TypeNamed(items[0], hint, ItemsOf(presence), sp, structs); }
    case Object(members) =>
      MembersNamed(members, FieldsOf(presence), sp, structs);
      var fields := FieldsMade(members, FieldsOf(presence), sp, structs);
      InternedNamed(fields.structs, StructDef(hint, fields.value), sp);
      GrewTwice(structs, fields.structs, Interned(fields.structs, StructDef(hint, fields.value)).structs, WantedBelow(members, sp), {hint});
      assert WantedBelow(members, sp) + {hint} == {hint} + WantedBelow(members, sp);
  }

  lemma {:induction false} MembersNamed(members: seq<Member>, verdicts: seq<PresenceField>, sp: Spelling, structs: seq<StructDef>)
    requires TableNamed(structs, sp)
    ensures var out := FieldsMade(members, verdicts, sp, structs);
      TableNamed(out.structs, sp) && FieldsNamed(out.value, sp) && FieldsFor(out.value, members, verdicts) &&
      GrewBy(structs, out.structs, WantedBelow(members, sp))
    decreases members, 0
  {
    if members != [] {
      MemberNamed(members[0], verdicts, sp, structs);
      var f := FieldMade(members[0], verdicts, sp, structs);
      MembersNamed(members[1..], verdicts, sp, f.structs);
      var rest := FieldsMade(members[1..], verdicts, sp, f.structs);
      hide TableNamed, FieldNamed, FieldMade, WantedByMember, VariantOf;
      GrewTwice(structs, f.structs, rest.structs, WantedByMember(members[0], sp), WantedBelow(members[1..], sp));
    }
  }

  lemma {:induction false} MemberNamed(m: Member, verdicts: seq<PresenceField>, sp: Spelling, structs: seq<StructDef>)
    requires TableNamed(structs, sp)
    ensures var out := FieldMade(m, verdicts, sp, structs);
      TableNamed(out.structs, sp) && FieldNamed(out.value, sp) && GrewBy(structs, out.structs, WantedByMember(m, sp)) &&
      out.value.jsonKey == m.key && out.value.required == Always(Lookup(verdicts, m.key))
    decreases m, 2
  {
    TypeNamed(m.node, sp.pascal(m.key), Lookup(verdicts, m.key), sp, structs);
    hide TableNamed, GrewBy, VariantOf, TypeMade;
  }

  /** A top-level struct: it carries the wanted name or a variant of it. */
  lemma RegisteredNamed(name: string, members: seq<Member>, presence: Option<seq<PresenceField>>, sp: Spelling, structs: seq<StructDef>)
    requires TableNamed(structs, sp)
    ensures var out := Registered(name, members, presence, sp, structs);
      TableNamed(out.structs, sp) && NamedFor(out.value, name) && GrewBy(structs, out.structs, {name} + WantedBelow(members, sp))
  {
    var verdicts := match presence case Some(p) => p case None => [];
    MembersNamed(members, verdicts, sp, structs);
    var fields := FieldsMade(members, verdicts, sp, structs);
    hide TableNamed, VariantOf, FieldsMade, Interned, WantedBelow, FieldsNamed;
    InternedNamed(fields.structs, StructDef(name, fields.value), sp);
    GrewTwice(structs, fields.structs, Interned(fields.structs, StructDef(name, fields.value)).structs, WantedBelow(members, sp), {name});
    assert WantedBelow(members, sp) + {name} == {name} + WantedBelow(members, sp);
  }

  /** One operation: every field by its key, every struct by `Variables`, `Response` or the
      key it was made for. */
  lemma OperationNamed(variables: seq<Member>, presence: seq<PresenceField>, response: seq<Member>, sp: Spelling)
    ensures var first := Registered("Variables", variables, Some(presence), sp, []);
      var second := Registered("Response", response, None, sp, first.structs);
      TableNamed(second.structs, sp) && NamedFor(first.value, "Variables") && NamedFor(second.value, "Response") &&
      GrewBy([], second.structs, {"Variables", "Response"} + WantedBelow(variables, sp) + WantedBelow(response, sp))
  {
    RegisteredNamed("Variables", variables, Some(presence), sp, []);
    var first := Registered("Variables", variables, Some(presence), sp, []);
    RegisteredNamed("Response", response, None, sp, first.structs);
    var second := Registered("Response", response, None, sp, first.structs);
    hide TableNamed, VariantOf, Registered, NamedFor, WantedBelow;
    GrewTwice([], first.structs, second.structs, {"Variables"} + WantedBelow(variables, sp), {"Response"} + WantedBelow(response, sp));
    assert ({"Variables"} + WantedBelow(variables, sp)) + ({"Response"} + WantedBelow(response, sp)) ==
           {"Variables", "Response"} + WantedBelow(variables, sp) + WantedBelow(response, sp);
  }
}
