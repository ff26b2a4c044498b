/** What a struct table means: a type unfolded through it is a plain tree again, and
    that tree is the shape it was made from. */
module MexUnfold {
  import opened Values
  import opened MexTypes

  /** A shape with scalars collapsed to three and each key marked always or optional. */
  datatype Norm = NInt | NBool | NText | NList(item: Norm) | NStruct(fields: seq<NField>)

  datatype NField = NField(key: string, always: bool, norm: Norm)

  // ---------------------------------------------------------------- shapes

  function Scalar(tag: string): Norm {
    if tag == "number" then NInt else if tag == "boolean" then NBool else NText
  }

  function Normalise(node: TypeNode, presence: Option<Presence>): Norm
    decreases node, 1
  {
    match node
    case Leaf(tag) => Scalar(tag)
    case Array(items) => NList(if items == [] then NText else Normalise(items[0], ItemsOf(presence)))
    case Object(members) => NStruct(NormaliseMembers(members, FieldsOf(presence)))
  }

  function NormaliseMember(m: Member, verdicts: seq<PresenceField>): NField
    decreases m, 2
  {
    var verdict := Lookup(verdicts, m.key);
    NField(m.key, Always(verdict), Normalise(m.node, verdict))
  }

  function NormaliseMembers(members: seq<Member>, verdicts: seq<PresenceField>): seq<NField>
    decreases members, 0
  {
    if members == [] then [] else [NormaliseMember(members[0], verdicts)] + NormaliseMembers(members[1..], verdicts)
  }

  // ---------------------------------------------------------------- unfolding

  /** Position of the struct called `name`. */
  function Find(structs: seq<StructDef>, name: string): Option<nat> {
    if structs == [] then None
    else if structs[0].name == name then Some(0)
    else match Find(structs[1..], name)
      case Some(i) => Some(i + 1)
      case None => None
  }

  /** The tree a type stands for. A struct may mention only structs before it, and
      `Option` only marks a field. */
  function Unfold(ty: Ty, structs: seq<StructDef>): Option<Norm>
    decreases |structs|, 0, ty
  {
    match ty
    case I64 => Some(NInt)
    case Boolean => Some(NBool)
    case Str => Some(NText)
    case Opt(_) => None
    case Vec(t) => (match Unfold(t, structs) case Some(n) => Some(NList(n)) case None => None)
    case Named(name) =>
      (match Find(structs, name)
       case None => None
       case Some(i) =>
         if i >= |structs| then None
         else match UnfoldFields(structs[i].fields, structs[..i])
           case Some(fields) => Some(NStruct(fields))
           case None => None)
  }

  function UnfoldField(f: StructField, structs: seq<StructDef>): Option<NField>
    decreases |structs|, 1
  {
    if f.required == f.ty.Opt? then None
    else match Unfold(if f.required then f.ty else f.ty.inner, structs)
      case Some(n) => Some(NField(f.jsonKey, f.required, n))
      case None => None
  }

  function UnfoldFields(fields: seq<StructField>, structs: seq<StructDef>): Option<seq<NField>>
    decreases |structs|, 2, |fields|
  {
    if fields == [] then Some([])
    else match (UnfoldField(fields[0], structs), UnfoldFields(fields[1..], structs))
      case (Some(f), Some(rest)) => Some([f] + rest)
      case _ => None
  }

  lemma {:induction false} FindSpec(structs: seq<StructDef>, name: string)
    ensures match Find(structs, name)
      case Some(i) => i < |structs| && structs[i].name == name && forall j | 0 <= j < i :: structs[j].name != name
      case None => forall s | s in structs :: s.name != name
  {
    if structs != [] { FindSpec(structs[1..], name); }
  }

  lemma {:induction false} FindExtends(structs: seq<StructDef>, more: seq<StructDef>, name: string)
    requires Find(structs, name).Some?
    ensures Find(structs + more, name) == Find(structs, name)
  {
    assert (structs + more)[0] == structs[0];
    if structs[0].name != name {
      FindExtends(structs[1..], more, name);
      assert (structs + more)[1..] == structs[1..] + more;
    }
  }

  lemma {:induction false} FindFirst(structs: seq<StructDef>, i: nat)
    requires i < |structs| && forall j | 0 <= j < i :: structs[j].name != structs[i].name
    ensures Find(structs, structs[i].name) == Some(i)
  {
    if i > 0 { FindFirst(structs[1..], i - 1); }
  }

  /** The table only grows at its end, so what a type unfolds to never changes. */
  lemma {:induction false} UnfoldExtends(ty: Ty, structs: seq<StructDef>, more: seq<StructDef>)
    requires Unfold(ty, structs).Some?
    ensures Unfold(ty, structs + more) == Unfold(ty, structs)
    decreases ty
  {
    match ty
    case Vec(t) => UnfoldExtends(t, structs, more);
    case Named(name) =>
      var i := Find(structs, name).value;
      FindSpec(structs, name);
      FindExtends(structs, more, name);
      assert (structs + more)[i] == structs[i];
      assert (structs + more)[..i] == structs[..i];
    case _ =>
  }

  lemma UnfoldFieldExtends(f: StructField, structs: seq<StructDef>, more: seq<StructDef>)
    requires UnfoldField(f, structs).Some?
    ensures UnfoldField(f, structs + more) == UnfoldField(f, structs)
  {
    UnfoldExtends(if f.required then f.ty else f.ty.inner, structs, more);
  }

  lemma {:induction false} UnfoldFieldsExtends(fields: seq<StructField>, structs: seq<StructDef>, more: seq<StructDef>)
    requires UnfoldFields(fields, structs).Some?
    ensures UnfoldFields(fields, structs + more) == UnfoldFields(fields, structs)
    decreases |fields|
  {
    if fields != [] {
      UnfoldFieldExtends(fields[0], structs, more);
      UnfoldFieldsExtends(fields[1..], structs, more);
    }
  }

  // ---------------------------------------------------------------- sound tables

  /** No two structs share a name, and every struct's fields unfold through the structs
      before it. */
  ghost predicate Sound(structs: seq<StructDef>) {
    && (forall i, j | 0 <= i < j < |structs| :: structs[i].name != structs[j].name)
    && (forall s | s in structs :: Bare(s.name) && AllFormed(s.fields))
    && (forall i | 0 <= i < |structs| :: UnfoldFields(structs[i].fields, structs[..i]).Some?)
  }

  lemma SoundGrows(structs: seq<StructDef>, def: StructDef)
    requires Sound(structs) && UnfoldFields(def.fields, structs).Some?
    requires Bare(def.name) && AllFormed(def.fields) && forall s | s in structs :: s.name != def.name
    ensures Sound(structs + [def])
    ensures Unfold(Named(def.name), structs + [def]) == Some(NStruct(UnfoldFields(def.fields, structs).value))
  {
    var more := structs + [def];
    assert more[..|structs|] == structs;
    GrownParts(structs, def);
    hide *;
    FindFirst(more, |structs|);
    UnfoldNamed(def.name, more, |structs|);
  }

  lemma GrownParts(structs: seq<StructDef>, def: StructDef)
    requires Sound(structs) && UnfoldFields(def.fields, structs).Some?
    requires Bare(def.name) && AllFormed(def.fields) && forall s | s in structs :: s.name != def.name
    ensures Sound(structs + [def]) && forall j | 0 <= j < |structs| :: (structs + [def])[j].name != def.name
  {
    hide UnfoldFields, AllFormed, Bare;
    var more := structs + [def];
    forall i | 0 <= i < |more| ensures UnfoldFields(more[i].fields, more[..i]).Some? {
      if i < |structs| { assert more[..i] == structs[..i]; } else { assert more[..i] == structs; }
    }
    forall j | 0 <= j < |structs| ensures more[j].name != def.name { assert structs[j] in structs; }
  }

  lemma UnfoldNamed(name: string, structs: seq<StructDef>, i: nat)
    requires i < |structs| && Find(structs, name) == Some(i) && UnfoldFields(structs[i].fields, structs[..i]).Some?
    ensures Unfold(Named(name), structs) == Some(NStruct(UnfoldFields(structs[i].fields, structs[..i]).value))
  {
    hide UnfoldFields, Find;
  }

  /** A struct already in the table with the same fields means the same. */
  lemma SoundReuse(structs: seq<StructDef>, i: nat, fields: seq<StructField>)
    requires Sound(structs) && i < |structs| && structs[i].fields == fields && UnfoldFields(fields, structs).Some?
    ensures Unfold(Named(structs[i].name), structs) == Some(NStruct(UnfoldFields(fields, structs).value))
  {
    FindFirst(structs, i);
    assert structs[..i] + structs[i..] == structs;
    hide Sound, Unfold, UnfoldFields, Find;
    SoundAt(structs, i);
    UnfoldFieldsExtends(fields, structs[..i], structs[i..]);
    UnfoldNamed(structs[i].name, structs, i);
  }

  lemma SoundAt(structs: seq<StructDef>, i: nat)
    requires Sound(structs) && i < |structs|
    ensures UnfoldFields(structs[i].fields, structs[..i]).Some?
  {}

  /** Nothing dangles: a type of a sound table's struct unfolds in the whole table. */
  lemma NothingDangles(structs: seq<StructDef>, i: nat)
    requires Sound(structs) && i < |structs|
    ensures UnfoldFields(structs[i].fields, structs).Some? && Unfold(Named(structs[i].name), structs).Some?
  {
    hide *;
    assert structs[..i] + structs[i..] == structs;
    SoundAt(structs, i);
    UnfoldFieldsExtends(structs[i].fields, structs[..i], structs[i..]);
    SoundReuse(structs, i, structs[i].fields);
  }
}
