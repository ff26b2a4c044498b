/** Building the struct table, as functions of the table before: what name a shape gets, and
    whether the struct behind that name is the one that was asked for. */
module MexTable {
  import opened Values
  import opened Suffixes
  import opened MexTypes
  import opened MexUnfold

  /** A result, the table after it, and whether some call on the way returned the name of a
      struct with other fields: the guard compares signature texts, not fields. */
  datatype Made<T> = Made(value: T, structs: seq<StructDef>, mixed: bool)

  function ScalarRust(tag: string): Ty {
    if tag == "number" then I64 else if tag == "boolean" then Boolean else Str
  }

  /** One field, optional unless the client always writes the key. */
  function FieldFor(key: string, ty: Ty, verdict: Option<Presence>, sp: Spelling): StructField {
    if Always(verdict) then StructField(sp.ident(key), key, ty, true)
    else StructField(sp.ident(key), key, Opt(ty), false)
  }

  function BaseName(def: StructDef): string {
    if def.name == "" then "Item" else def.name
  }

  // ---------------------------------------------------------------- the name of a struct

  /** The name belongs to a struct of another signature. */
  predicate Taken(structs: seq<StructDef>, name: string, sig: string) {
    exists s | s in structs :: s.name == name && Signature(s.fields) != sig
  }

  lemma TakenNames(structs: seq<StructDef>, base: string, sig: string, n: nat)
    requires n >= 1 && forall m | 1 <= m < n :: Taken(structs, Numbered(base, "", m), sig)
    ensures n - 1 <= |structs|
  {
    hide Numbered;
    var names := set i | 0 <= i < |structs| :: structs[i].name;
    NamesBound(structs, |structs|);
    TakenBound(base, "", n, names);
  }

  lemma {:induction false} NamesBound(structs: seq<StructDef>, k: nat)
    requires k <= |structs|
    ensures |set i | 0 <= i < k :: structs[i].name| <= k
  {
    if k > 0 {
      NamesBound(structs, k - 1);
      var before := set i | 0 <= i < k - 1 :: structs[i].name;
      assert (set i | 0 <= i < k :: structs[i].name) == before + {structs[k - 1].name};
    }
  }

  /** The first candidate from the n-th on that no struct of another signature has. */
  function FreeFrom(structs: seq<StructDef>, base: string, sig: string, n: nat): nat
    requires n >= 1 && forall m | 1 <= m < n :: Taken(structs, Numbered(base, "", m), sig)
    decreases |structs| + 1 - n
  {
    if Taken(structs, Numbered(base, "", n), sig) then
      TakenNames(structs, base, sig, n + 1);
      FreeFrom(structs, base, sig, n + 1)
    else n
  }

  function NameFor(structs: seq<StructDef>, base: string, sig: string): string {
    Numbered(base, "", FreeFrom(structs, base, sig, 1))
  }

  lemma {:induction false} FreeFromSpec(structs: seq<StructDef>, base: string, sig: string, n: nat)
    requires n >= 1 && forall m | 1 <= m < n :: Taken(structs, Numbered(base, "", m), sig)
    ensures var k := FreeFrom(structs, base, sig, n);
      k >= n && !Taken(structs, Numbered(base, "", k), sig) && forall m | 1 <= m < k :: Taken(structs, Numbered(base, "", m), sig)
    decreases |structs| + 1 - n
  {
    hide Numbered, Taken;
    if Taken(structs, Numbered(base, "", n), sig) {
      TakenNames(structs, base, sig, n + 1);
      FreeFromSpec(structs, base, sig, n + 1);
    }
  }

  /** It is the only such candidate. */
  lemma NameForIs(structs: seq<StructDef>, base: string, sig: string, k: nat)
    requires k >= 1 && !Taken(structs, Numbered(base, "", k), sig)
    requires forall m | 1 <= m < k :: Taken(structs, Numbered(base, "", m), sig)
    ensures NameFor(structs, base, sig) == Numbered(base, "", k)
  {
    hide Numbered, Taken, FreeFrom;
    FreeFromSpec(structs, base, sig, 1);
  }

  // ---------------------------------------------------------------- building

  /** Reuse the struct of that name, or add one. */
  function Interned(structs: seq<StructDef>, def: StructDef): Made<string> {
    var name := NameFor(structs, BaseName(def), Signature(def.fields));
    match Find(structs, name)
    case Some(i) => Made(name, structs, i < |structs| && structs[i].fields != def.fields)
    case None => Made(name, structs + [StructDef(name, def.fields)], false)
  }

  function TypeMade(node: TypeNode, hint: string, presence: Option<Presence>, sp: Spelling, structs: seq<StructDef>): Made<Ty>
    decreases node, 1
  {
    match node
    case Leaf(tag) => Made(ScalarRust(tag), structs, false)
    case Array(items) =>
      if items == [] then Made(Vec(Str), structs, false)
      else
        var inner := TypeMade(items[0], hint, ItemsOf(presence), sp, structs);
        Made(Vec(inner.value), inner.structs, inner.mixed)
    case Object(members) => Wrapped(hint, FieldsMade(members, FieldsOf(presence), sp, structs))
  }

  /** The struct of some fields just made. */
  function Wrapped(name: string, fields: Made<seq<StructField>>): Made<Ty> {
    var s := Interned(fields.structs, StructDef(name, fields.value));
    Made(Named(s.value), s.structs, fields.mixed || s.mixed)
  }

  function FieldsMade(members: seq<Member>, verdicts: seq<PresenceField>, sp: Spelling, structs: seq<StructDef>): Made<seq<StructField>>
    decreases members, 0
  {
    if members == [] then Made([], structs, false)
    else
      var f := FieldMade(members[0], verdicts, sp, structs);
      var rest := FieldsMade(members[1..], verdicts, sp, f.structs);
      Made([f.value] + rest.value, rest.structs, f.mixed || rest.mixed)
  }

  function FieldMade(m: Member, verdicts: seq<PresenceField>, sp: Spelling, structs: seq<StructDef>): Made<StructField>
    decreases m, 2
  {
    var verdict := Lookup(verdicts, m.key);
    var t := TypeMade(m.node, sp.pascal(m.key), verdict, sp, structs);
    Made(FieldFor(m.key, t.value, verdict, sp), t.structs, t.mixed)
  }

  /** A top-level struct. */
  function Registered(name: string, members: seq<Member>, presence: Option<seq<PresenceField>>, sp: Spelling, structs: seq<StructDef>): Made<Ty> {
    Wrapped(name, FieldsMade(members, match presence case Some(p) => p case None => [], sp, structs))
  }
}
