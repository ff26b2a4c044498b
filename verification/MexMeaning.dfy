/** What the table says of a registered shape: the shape itself, exactly when no call on the
    way returned a struct with other fields than those asked for. */
module MexMeaning {
  import opened Values
  import opened Suffixes
  import opened Decimals
  import opened MexTypes
  import opened Sequences
  import opened MexUnfold
  import opened MexTable

  // ---------------------------------------------------------------- a type of the same text

  /** The look of the type made for a shape. */
  predicate Shaped(node: TypeNode, ty: Ty) {
    match node
    case Leaf(tag) => ty == ScalarRust(tag)
    case Array(items) => ty.Vec? && (if items == [] then ty.inner == Str else Shaped(items[0], ty.inner))
    case Object(_) => ty.Named?
  }

  lemma SpelledString(ty: Ty, structs: seq<StructDef>)
    requires MexTypes.Text(ty) == "String" && ty != Str
    ensures Unfold(ty, structs) != Some(NText)
  {
    match ty
    case Vec(_) => Brackets(ty);
    case Opt(_) => Brackets(ty);
    case _ =>
  }

  /** Spelled alike but different, a type does not mean the shape. */
  lemma {:induction false} OtherTypeIsWrong(node: TypeNode, presence: Option<Presence>, made: Ty, other: Ty, structs: seq<StructDef>)
    requires Shaped(node, made) && MexTypes.Text(other) == MexTypes.Text(made) && other != made
    ensures Unfold(other, structs) != Some(Normalise(node, presence))
    decreases node
  {
    hide UnfoldFields, NormaliseMembers;
    if made.Vec? { Brackets(made); }
    match other
    case Vec(t) =>
      Brackets(other);
      if node.Array? {
        if node.items == [] {
          SpelledString(t, structs);
        } else {
          OtherTypeIsWrong(node.items[0], ItemsOf(presence), made.inner, t, structs);
        }
      }
    case _ =>
  }

  // ---------------------------------------------------------------- fields of the same signature

  function Stored(f: StructField): Ty
    requires f.required <==> !f.ty.Opt?
  {
    if f.required then f.ty else f.ty.inner
  }

  /** A field made for a key. */
  predicate MadeFor(f: StructField, m: Member, verdicts: seq<PresenceField>) {
    f.jsonKey == m.key && Formed(f) && f.required == Always(Lookup(verdicts, m.key)) && Shaped(m.node, Stored(f))
  }

  predicate MadeForAll(fields: seq<StructField>, members: seq<Member>, verdicts: seq<PresenceField>) {
    |fields| == |members| && forall i | 0 <= i < |fields| :: MadeFor(fields[i], members[i], verdicts)
  }

  lemma {:induction false} UnfoldLength(fields: seq<StructField>, structs: seq<StructDef>)
    ensures UnfoldFields(fields, structs).Some? ==> |UnfoldFields(fields, structs).value| == |fields|
    decreases |fields|
  {
    hide UnfoldField;
    if fields != [] { UnfoldLength(fields[1..], structs); }
  }

  lemma {:induction false} NormaliseLength(members: seq<Member>, verdicts: seq<PresenceField>)
    ensures |NormaliseMembers(members, verdicts)| == |members|
  {
    hide NormaliseMember;
    if members != [] { NormaliseLength(members[1..], verdicts); }
  }

  /** What follows the key in the text of a field. */
  function AfterKey(f: StructField): string {
    f.rustField + [':'] + MexTypes.Text(f.ty)
  }

  lemma PieceOf(f: StructField)
    ensures Piece(f) == f.jsonKey + ['='] + AfterKey(f)
  {}

  lemma AfterKeyFree(f: StructField)
    requires Formed(f)
    ensures Free(AfterKey(f), ',')
  {
    TextFree(f.ty);
  }

  lemma SignatureOf(fields: seq<StructField>)
    requires fields != []
    ensures var head, tail := fields[0].jsonKey + ['='], AfterKey(fields[0]);
      Signature(fields) == if |fields| == 1 then head + tail else head + (tail + [','] + Signature(fields[1..]))
  {
    PieceOf(fields[0]);
    hide Piece, AfterKey;
    var head, tail := fields[0].jsonKey + ['='], AfterKey(fields[0]);
    if |fields| > 1 {
      Regroup(head, tail, Signature(fields[1..]));
    }
  }

  lemma Regroup(a: string, b: string, c: string)
    ensures a + b + "," + c == a + (b + [','] + c)
  {}

  lemma SameTail(head: string, a: string, b: string)
    requires head + a == head + b
    ensures a == b
  {
    assert (head + a)[|head|..] == a && (head + b)[|head|..] == b;
  }

  /** Where the first keys agree, the texts of two field lists split alike. */
  lemma SameHead(es: seq<StructField>, fs: seq<StructField>)
    requires es != [] && |es| == |fs| && Signature(es) == Signature(fs) && es[0].jsonKey == fs[0].jsonKey && Formed(es[0]) && Formed(fs[0])
    ensures AfterKey(es[0]) == AfterKey(fs[0]) && Signature(es[1..]) == Signature(fs[1..])
  {
    hide *;
    SignatureOf(es);
    SignatureOf(fs);
    AfterKeyFree(es[0]);
    AfterKeyFree(fs[0]);
    var head := es[0].jsonKey + ['='];
    var a, b := AfterKey(es[0]), AfterKey(fs[0]);
    if |es| == 1 {
      SameTail(head, a, b);
      assert es[1..] == fs[1..];
    } else {
      var x, y := Signature(es[1..]), Signature(fs[1..]);
      SameTail(head, a + [','] + x, b + [','] + y);
      SplitAt(a, x, b, y, ',');
    }
  }

  lemma SameAfterKey(e: StructField, f: StructField)
    requires Formed(e) && Formed(f) && AfterKey(e) == AfterKey(f)
    ensures e.rustField == f.rustField && MexTypes.Text(e.ty) == MexTypes.Text(f.ty)
    ensures e.required == f.required ==> MexTypes.Text(Stored(e)) == MexTypes.Text(Stored(f))
  {
    SplitAt(e.rustField, MexTypes.Text(e.ty), f.rustField, MexTypes.Text(f.ty), ':');
    if e.ty.Opt? { Brackets(e.ty); }
    if f.ty.Opt? { Brackets(f.ty); }
  }

  /** A field of the same text as the one made, but not that one, means something else. */
  lemma OtherFieldIsWrong(m: Member, verdicts: seq<PresenceField>, f: StructField, e: StructField, structs: seq<StructDef>)
    requires MadeFor(f, m, verdicts) && Formed(e) && AfterKey(e) == AfterKey(f) && e.jsonKey == f.jsonKey && e != f
    ensures UnfoldField(e, structs) != Some(NormaliseMember(m, verdicts))
  {
    SameAfterKey(e, f);
    hide Unfold, Normalise, Shaped, PlainTy;
    if e.required == f.required {
      assert Stored(e) != Stored(f);
      OtherTypeIsWrong(m.node, Lookup(verdicts, m.key), Stored(f), Stored(e), structs);
    }
  }

  /** Other fields with the signature of those made do not mean the shape. */
  lemma {:induction false} OtherFieldsAreWrong(members: seq<Member>, verdicts: seq<PresenceField>, fs: seq<StructField>, es: seq<StructField>, structs: seq<StructDef>)
    requires MadeForAll(fs, members, verdicts) && AllFormed(es) && Signature(es) == Signature(fs) && es != fs
    ensures UnfoldFields(es, structs) != Some(NormaliseMembers(members, verdicts))
    decreases |fs|
  {
    if UnfoldFields(es, structs) == Some(NormaliseMembers(members, verdicts)) {
      UnfoldLength(es, structs);
      NormaliseLength(members, verdicts);
      assert es != [] && MadeFor(fs[0], members[0], verdicts) && Formed(es[0]);
      HeadUnfolds(es, members, verdicts, structs);
      SameHead(es, fs);
      hide *;
      if es[0] != fs[0] {
        OtherFieldIsWrong(members[0], verdicts, fs[0], es[0], structs);
      } else {
        assert es == [es[0]] + es[1..] && fs == [fs[0]] + fs[1..];
        TailMade(members, verdicts, fs, es);
        OtherFieldsAreWrong(members[1..], verdicts, fs[1..], es[1..], structs);
      }
    }
  }

  lemma TailMade(members: seq<Member>, verdicts: seq<PresenceField>, fs: seq<StructField>, es: seq<StructField>)
    requires MadeForAll(fs, members, verdicts) && AllFormed(es) && fs != [] && es != []
    ensures MadeForAll(fs[1..], members[1..], verdicts) && AllFormed(es[1..])
  {
    hide MadeFor, Formed;
  }

  lemma HeadUnfolds(es: seq<StructField>, members: seq<Member>, verdicts: seq<PresenceField>, structs: seq<StructDef>)
    requires es != [] && members != [] && UnfoldFields(es, structs) == Some(NormaliseMembers(members, verdicts))
    ensures UnfoldField(es[0], structs) == Some(NormaliseMember(members[0], verdicts)) && es[0].jsonKey == members[0].key
    ensures UnfoldFields(es[1..], structs) == Some(NormaliseMembers(members[1..], verdicts))
  {
    hide Unfold, Normalise;
    var n, rest := NormaliseMember(members[0], verdicts), NormaliseMembers(members[1..], verdicts);
    assert ([n] + rest)[0] == n && ([n] + rest)[1..] == rest;
    match (UnfoldField(es[0], structs), UnfoldFields(es[1..], structs))
    case (Some(f), Some(more)) => assert ([f] + more)[0] == f && ([f] + more)[1..] == more;
    case _ =>
  }

  // ---------------------------------------------------------------- one struct

  lemma {:induction false} DecimalBare(n: nat)
    ensures Bare(Decimal(n)) && forall c | c in Decimal(n) :: '0' <= c <= '9'
    decreases n
  {
    if n >= 10 { DecimalBare(n / 10); }
  }

  lemma NumberedBare(base: string, n: nat)
    requires Bare(base)
    ensures Bare(Numbered(base, "", n))
  {
    DecimalBare(n);
  }

  /** The table means of this type what the fields mean. */
  ghost predicate Means(ty: Ty, fields: seq<StructField>, structs: seq<StructDef>, before: seq<StructDef>) {
    UnfoldFields(fields, before).Some? && Unfold(ty, structs) == Some(NStruct(UnfoldFields(fields, before).value))
  }

  /** The name stands for a struct of other fields whose signature is the same text. */
  ghost predicate StandsForOther(name: string, def: StructDef, structs: seq<StructDef>, other: seq<StructField>) {
    other != def.fields && Signature(other) == Signature(def.fields) && AllFormed(other) && Means(Ty.Named(name), other, structs, structs)
  }

  /** The name stands for the fields asked for, or else for other fields of the same text. */
  lemma InternedMeans(structs: seq<StructDef>, def: StructDef)
    requires Sound(structs) && Bare(BaseName(def)) && AllFormed(def.fields) && UnfoldFields(def.fields, structs).Some?
    ensures var s := Interned(structs, def);
      Sound(s.structs) && structs <= s.structs && Bare(s.value) &&
      (!s.mixed ==> Means(Ty.Named(s.value), def.fields, s.structs, structs)) &&
      (s.mixed ==> s.structs == structs && exists other :: StandsForOther(s.value, def, structs, other))
  {
    var sig := Signature(def.fields);
    var name := NameFor(structs, BaseName(def), sig);
    FreeFromSpec(structs, BaseName(def), sig, 1);
    NumberedBare(BaseName(def), FreeFrom(structs, BaseName(def), sig, 1));
    FindSpec(structs, name);
    hide Sound, Bare, UnfoldFields, Unfold, Numbered, FreeFrom, Signature, AllFormed;
    match Find(structs, name)
    case None => SoundGrows(structs, StructDef(name, def.fields));
    case Some(i) =>
      assert structs[i] in structs;
      FormedAt(structs, i);
      NothingDangles(structs, i);
      SoundReuse(structs, i, structs[i].fields);
      if structs[i].fields != def.fields { assert StandsForOther(name, def, structs, structs[i].fields); }
  }

  lemma FormedAt(structs: seq<StructDef>, i: nat)
    requires Sound(structs) && i < |structs|
    ensures AllFormed(structs[i].fields)
  {
    assert structs[i] in structs;
  }

  // ---------------------------------------------------------------- whole shapes

  /** What making the fields of a shape comes to. */
  ghost predicate FieldsMean(fields: Made<seq<StructField>>, members: seq<Member>, verdicts: seq<PresenceField>, before: seq<StructDef>) {
    Sound(fields.structs) && before <= fields.structs && MadeForAll(fields.value, members, verdicts) && AllFormed(fields.value) &&
    UnfoldFields(fields.value, fields.structs).Some? &&
    (UnfoldFields(fields.value, fields.structs) == Some(NormaliseMembers(members, verdicts)) <==> !fields.mixed)
  }

  /** What making a type for a shape comes to. */
  ghost predicate TypeMeans(ty: Made<Ty>, node: TypeNode, presence: Option<Presence>, before: seq<StructDef>) {
    Sound(ty.structs) && before <= ty.structs && PlainTy(ty.value) && Shaped(node, ty.value) && Unfold(ty.value, ty.structs).Some? &&
    (Unfold(ty.value, ty.structs) == Some(Normalise(node, presence)) <==> !ty.mixed)
  }

  lemma WrappedMeans(name: string, fields: Made<seq<StructField>>, members: seq<Member>, verdicts: seq<PresenceField>, before: seq<StructDef>)
    requires FieldsMean(fields, members, verdicts, before) && Bare(name)
    ensures var w := Wrapped(name, fields);
      w.value.Named? && Sound(w.structs) && before <= w.structs && PlainTy(w.value) && Unfold(w.value, w.structs).Some? &&
      (Unfold(w.value, w.structs) == Some(NStruct(NormaliseMembers(members, verdicts))) <==> !w.mixed)
  {
    var def := StructDef(name, fields.value);
    assert Bare(BaseName(def));
    hide Sound, Bare, UnfoldFields, Unfold, NormaliseMembers, MadeForAll, Interned, AllFormed;
    InternedMeans(fields.structs, def);
    var s := Interned(fields.structs, def);
    if s.mixed {
      var other :| StandsForOther(s.value, def, fields.structs, other);
      OtherFieldsAreWrong(members, verdicts, fields.value, other, fields.structs);
    }
  }

  /** For every shape, whatever its keys: the type made unfolds to the normalised shape
      exactly when no struct was returned for other fields. */
  lemma {:induction false} TypeMadeMeans(node: TypeNode, hint: string, presence: Option<Presence>, sp: Spelling, structs: seq<StructDef>)
    requires Proper(sp) && Sound(structs) && Bare(hint)
    ensures TypeMeans(TypeMade(node, hint, presence, sp, structs), node, presence, structs)
    decreases node, 1
  {
    hide Sound, Proper, Bare, UnfoldFields, NormaliseMembers, Wrapped, FieldsMade;
    match node
    case Leaf(tag) =>
    case Array(items) =>
      if items == [] {
        assert Unfold(Str, structs) == Some(NText);
      } else {
        TypeMadeMeans(items[0], hint, ItemsOf(presence), sp, structs);
      }
    case Object(members) =>
      FieldsMadeMean(members, FieldsOf(presence), sp, structs);
      WrappedMeans(hint, FieldsMade(members, FieldsOf(presence), sp, structs), members, FieldsOf(presence), structs);
  }

  lemma {:induction false} FieldsMadeMean(members: seq<Member>, verdicts: seq<PresenceField>, sp: Spelling, structs: seq<StructDef>)
    requires Proper(sp) && Sound(structs)
    ensures FieldsMean(FieldsMade(members, verdicts, sp, structs), members, verdicts, structs)
    decreases members, 0
  {
    if members == [] {
      hide Sound;
    } else {
      hide *;
      FieldMadeMeans(members[0], verdicts, sp, structs);
      FieldSound(members[0], verdicts, FieldMade(members[0], verdicts, sp, structs), structs);
      var f := FieldMade(members[0], verdicts, sp, structs);
      FieldsMadeMean(members[1..], verdicts, sp, f.structs);
      FieldsStep(members, verdicts, sp, structs);
      FieldThenFields(members, verdicts, f, FieldsMade(members[1..], verdicts, sp, f.structs), structs);
    }
  }

  ghost predicate FieldMeans(f: Made<StructField>, m: Member, verdicts: seq<PresenceField>, before: seq<StructDef>) {
    Sound(f.structs) && before <= f.structs && MadeFor(f.value, m, verdicts) && UnfoldField(f.value, f.structs).Some? &&
    (UnfoldField(f.value, f.structs) == Some(NormaliseMember(m, verdicts)) <==> !f.mixed)
  }

  lemma FieldSound(m: Member, verdicts: seq<PresenceField>, f: Made<StructField>, before: seq<StructDef>)
    requires FieldMeans(f, m, verdicts, before)
    ensures Sound(f.structs)
  {}

  lemma {:induction false} FieldMadeMeans(m: Member, verdicts: seq<PresenceField>, sp: Spelling, structs: seq<StructDef>)
    requires Proper(sp) && Sound(structs)
    ensures FieldMeans(FieldMade(m, verdicts, sp, structs), m, verdicts, structs)
    decreases m, 2
  {
    var verdict := Lookup(verdicts, m.key);
    assert Bare(sp.pascal(m.key)) && Bare(sp.ident(m.key));
    hide Sound, Proper, Bare, TypeMade, Unfold, Normalise, PlainTy, Lookup;
    TypeMadeMeans(m.node, sp.pascal(m.key), verdict, sp, structs);
    NotOpt(m.node, TypeMade(m.node, sp.pascal(m.key), verdict, sp, structs).value);
  }

  lemma NotOpt(node: TypeNode, ty: Ty)
    requires Shaped(node, ty)
    ensures !ty.Opt?
  {}

  lemma FieldsStep(members: seq<Member>, verdicts: seq<PresenceField>, sp: Spelling, structs: seq<StructDef>)
    requires members != []
    ensures var f := FieldMade(members[0], verdicts, sp, structs);
      var rest := FieldsMade(members[1..], verdicts, sp, f.structs);
      FieldsMade(members, verdicts, sp, structs) == Made([f.value] + rest.value, rest.structs, f.mixed || rest.mixed)
  {
    hide FieldMade;
  }

  lemma FieldThenFields(members: seq<Member>, verdicts: seq<PresenceField>, f: Made<StructField>, rest: Made<seq<StructField>>, before: seq<StructDef>)
    requires members != [] && FieldMeans(f, members[0], verdicts, before) && FieldsMean(rest, members[1..], verdicts, f.structs)
    ensures FieldsMean(Made([f.value] + rest.value, rest.structs, f.mixed || rest.mixed), members, verdicts, before)
  {
    assert f.structs + rest.structs[|f.structs|..] == rest.structs;
    hide *;
    FieldParts(f, members[0], verdicts, before);
    UnfoldFieldExtends(f.value, f.structs, rest.structs[|f.structs|..]);
    FieldsParts(members, verdicts, f, rest, before);
  }

  lemma FieldParts(f: Made<StructField>, m: Member, verdicts: seq<PresenceField>, before: seq<StructDef>)
    requires FieldMeans(f, m, verdicts, before)
    ensures Formed(f.value) && UnfoldField(f.value, f.structs).Some?
  {}

  lemma FieldsParts(members: seq<Member>, verdicts: seq<PresenceField>, f: Made<StructField>, rest: Made<seq<StructField>>, before: seq<StructDef>)
    requires members != [] && FieldMeans(f, members[0], verdicts, before) && FieldsMean(rest, members[1..], verdicts, f.structs)
    requires Formed(f.value) && UnfoldField(f.value, rest.structs) == UnfoldField(f.value, f.structs)
    ensures FieldsMean(Made([f.value] + rest.value, rest.structs, f.mixed || rest.mixed), members, verdicts, before)
  {
    hide Sound, UnfoldField, NormaliseMember, MadeFor, Formed, UnfoldFields, NormaliseMembers;
    var all := [f.value] + rest.value;
    assert all[0] == f.value && all[1..] == rest.value;
    ListUnfolds(f.value, rest.value, rest.structs, members, verdicts);
  }

  lemma ListUnfolds(f: StructField, rest: seq<StructField>, structs: seq<StructDef>, members: seq<Member>, verdicts: seq<PresenceField>)
    requires members != [] && UnfoldField(f, structs).Some? && UnfoldFields(rest, structs).Some?
    ensures var all := UnfoldFields([f] + rest, structs);
      all.Some? && (all == Some(NormaliseMembers(members, verdicts)) <==>
        UnfoldField(f, structs) == Some(NormaliseMember(members[0], verdicts)) &&
        UnfoldFields(rest, structs) == Some(NormaliseMembers(members[1..], verdicts)))
  {
    hide UnfoldField, NormaliseMember;
    assert ([f] + rest)[0] == f && ([f] + rest)[1..] == rest;
    var n, more := NormaliseMember(members[0], verdicts), NormaliseMembers(members[1..], verdicts);
    assert ([n] + more)[0] == n && ([n] + more)[1..] == more;
    var x, xs := UnfoldField(f, structs).value, UnfoldFields(rest, structs).value;
    assert ([x] + xs)[0] == x && ([x] + xs)[1..] == xs;
  }

  /** A registered top-level struct, for every shape: its name stands for the shape exactly
      when no struct was returned for other fields. */
  lemma RegisteredMeans(name: string, members: seq<Member>, presence: Option<seq<PresenceField>>, sp: Spelling, structs: seq<StructDef>)
    requires Proper(sp) && Sound(structs) && Bare(name)
    ensures var r := Registered(name, members, presence, sp, structs);
      r.value.Named? && Sound(r.structs) && structs <= r.structs && Unfold(r.value, r.structs).Some? &&
      (Unfold(r.value, r.structs) == Some(NStruct(NormaliseMembers(members, match presence case Some(p) => p case None => []))) <==> !r.mixed)
  {
    var verdicts := match presence case Some(p) => p case None => [];
    hide *;
    FieldsMadeMean(members, verdicts, sp, structs);
    WrappedMeans(name, FieldsMade(members, verdicts, sp, structs), members, verdicts, structs);
    RegisteredIs(name, members, presence, sp, structs);
  }

  lemma RegisteredIs(name: string, members: seq<Member>, presence: Option<seq<PresenceField>>, sp: Spelling, structs: seq<StructDef>)
    ensures Registered(name, members, presence, sp, structs) ==
      Wrapped(name, FieldsMade(members, match presence case Some(p) => p case None => [], sp, structs))
  {
    hide Wrapped, FieldsMade;
  }

  lemma TopNames()
    ensures Sound([]) && Bare("Variables") && Bare("Response")
  {}

  /** Request and response of one operation share a table, which still says of the first what
      it said before the second was made. */
  lemma OperationMeans(variables: seq<Member>, presence: seq<PresenceField>, response: seq<Member>, sp: Spelling)
    requires Proper(sp)
    ensures var request := Registered("Variables", variables, Some(presence), sp, []);
      var answer := Registered("Response", response, None, sp, request.structs);
      Sound(answer.structs) &&
      (Unfold(request.value, answer.structs) == Some(NStruct(NormaliseMembers(variables, presence))) <==> !request.mixed) &&
      (Unfold(answer.value, answer.structs) == Some(NStruct(NormaliseMembers(response, []))) <==> !answer.mixed)
  {
    hide *;
    TopNames();
    var request := Registered("Variables", variables, Some(presence), sp, []);
    RegisteredMeans("Variables", variables, Some(presence), sp, []);
    RegisteredMeans("Response", response, None, sp, request.structs);
    var answer := Registered("Response", response, None, sp, request.structs);
    assert request.structs + answer.structs[|request.structs|..] == answer.structs;
    UnfoldExtends(request.value, request.structs, answer.structs[|request.structs|..]);
  }

  // ---------------------------------------------------------------- clean keys

  ghost predicate CleanTable(structs: seq<StructDef>) {
    forall s | s in structs :: StructName(s.name) && CleanFields(s.fields)
  }

  /** A suffix never turns a struct name into a scalar's. */
  lemma NumberedIsName(base: string, n: nat)
    requires StructName(base)
    ensures StructName(Numbered(base, "", n))
  {
    if n >= 2 {
      DecimalBare(n);
      DecimalNotEmpty(n);
      var name := Numbered(base, "", n);
      assert name[0] == base[0];
      assert name[|name| - 1] == Decimal(n)[|Decimal(n)| - 1];
    }
  }

  lemma InternedClean(structs: seq<StructDef>, def: StructDef)
    requires CleanTable(structs) && CleanFields(def.fields) && StructName(BaseName(def))
    ensures var s := Interned(structs, def); !s.mixed && CleanTable(s.structs) && StructName(s.value)
  {
    var sig := Signature(def.fields);
    var name := NameFor(structs, BaseName(def), sig);
    FreeFromSpec(structs, BaseName(def), sig, 1);
    NumberedIsName(BaseName(def), FreeFrom(structs, BaseName(def), sig, 1));
    FindSpec(structs, name);
    hide StructName, CleanFields, Numbered, FreeFrom, Signature;
    match Find(structs, name)
    case None =>
    case Some(i) =>
      assert structs[i] in structs;
      SignatureInjective(structs[i].fields, def.fields);
  }

  /** Keys free of separators and not turned into `String` never lead to another struct. */
  lemma {:induction false} TypeMadeClean(node: TypeNode, hint: string, presence: Option<Presence>, sp: Spelling, structs: seq<StructDef>)
    requires Proper(sp) && CleanTable(structs) && CleanNode(node, sp) && StructName(hint)
    ensures var t := TypeMade(node, hint, presence, sp, structs); !t.mixed && CleanTable(t.structs) && CleanTy(t.value) && !t.value.Opt?
    decreases node, 1
  {
    match node
    case Leaf(tag) =>
    case Array(items) =>
      hide CleanTable, StructName, Proper, CleanMembers, FieldsMade;
      if items != [] { TypeMadeClean(items[0], hint, ItemsOf(presence), sp, structs); }
    case Object(members) =>
      hide CleanTable, StructName, Proper, FieldsMade, CleanFields, Interned, CleanMembers;
      FieldsMadeClean(members, FieldsOf(presence), sp, structs);
      var f := FieldsMade(members, FieldsOf(presence), sp, structs);
      HintIsName(hint, f.value);
      InternedClean(f.structs, StructDef(hint, f.value));
  }

  lemma HintIsName(hint: string, fields: seq<StructField>)
    requires StructName(hint)
    ensures StructName(BaseName(StructDef(hint, fields)))
  {}

  lemma {:induction false} FieldsMadeClean(members: seq<Member>, verdicts: seq<PresenceField>, sp: Spelling, structs: seq<StructDef>)
    requires Proper(sp) && CleanTable(structs) && CleanMembers(members, sp)
    ensures var f := FieldsMade(members, verdicts, sp, structs); !f.mixed && CleanTable(f.structs) && CleanFields(f.value)
    decreases members, 0
  {
    if members != [] {
      FieldsStep(members, verdicts, sp, structs);
      hide FieldsMade, FieldMade, CleanTable, CleanField, Proper;
      FieldMadeClean(members[0], verdicts, sp, structs);
      FieldsMadeClean(members[1..], verdicts, sp, FieldMade(members[0], verdicts, sp, structs).structs);
    }
  }

  lemma {:induction false} FieldMadeClean(m: Member, verdicts: seq<PresenceField>, sp: Spelling, structs: seq<StructDef>)
    requires Proper(sp) && CleanTable(structs) && CleanMember(m, sp)
    ensures var f := FieldMade(m, verdicts, sp, structs); !f.mixed && CleanTable(f.structs) && CleanField(f.value)
    decreases m, 2
  {
    assert Bare(sp.ident(m.key)) && StructName(sp.pascal(m.key));
    hide CleanTable, StructName, Proper, TypeMade, Bare, Lookup;
    TypeMadeClean(m.node, sp.pascal(m.key), Lookup(verdicts, m.key), sp, structs);
  }

  /** So under such keys every registered struct stands for its shape. */
  lemma RegisteredClean(name: string, members: seq<Member>, presence: Option<seq<PresenceField>>, sp: Spelling, structs: seq<StructDef>)
    requires Proper(sp) && Sound(structs) && CleanTable(structs) && CleanMembers(members, sp) && StructName(name)
    ensures var r := Registered(name, members, presence, sp, structs);
      Unfold(r.value, r.structs) == Some(NStruct(NormaliseMembers(members, match presence case Some(p) => p case None => []))) &&
      Sound(r.structs) && CleanTable(r.structs)
  {
    var verdicts := match presence case Some(p) => p case None => [];
    NameIsBare(name);
    RegisteredMeans(name, members, presence, sp, structs);
    hide *;
    FieldsMadeClean(members, verdicts, sp, structs);
    var f := FieldsMade(members, verdicts, sp, structs);
    HintIsName(name, f.value);
    InternedClean(f.structs, StructDef(name, f.value));
    RegisteredIs(name, members, presence, sp, structs);
    WrappedIs(name, f);
  }

  lemma NameIsBare(name: string)
    requires StructName(name)
    ensures Bare(name)
  {}

  lemma WrappedIs(name: string, fields: Made<seq<StructField>>)
    ensures var s := Interned(fields.structs, StructDef(name, fields.value));
      Wrapped(name, fields) == Made(Ty.Named(s.value), s.structs, fields.mixed || s.mixed)
  {
    hide Interned;
  }

  // ---------------------------------------------------------------- a key turned into `String`

  /** Two items under one key, with a text and with an object behind `string`. */
  function ConfusedTree(): seq<Member> {
    var text := TypeNode.Object([Member("item", TypeNode.Object([Member("string", Leaf("string"))]))]);
    var object_ := TypeNode.Object([Member("item", TypeNode.Object([Member("string", TypeNode.Object([Member("x", Leaf("string"))]))]))]);
    [Member("p", text), Member("q", object_)]
  }

  function Optional(key: string, ty: Ty, sp: Spelling): StructField {
    StructField(sp.ident(key), key, Opt(ty), false)
  }

  lemma OneMember(key: string, node: TypeNode, hint: string, sp: Spelling, structs: seq<StructDef>)
    ensures var t := TypeMade(node, sp.pascal(key), None, sp, structs);
      TypeMade(TypeNode.Object([Member(key, node)]), hint, None, sp, structs) ==
      Wrapped(hint, Made([Optional(key, t.value, sp)], t.structs, t.mixed))
  {
    var m := Member(key, node);
    assert [m][1..] == [];
    FieldsStep([m], [], sp, structs);
    hide Wrapped;
    var t := TypeMade(node, sp.pascal(key), None, sp, structs);
    assert [Optional(key, t.value, sp)] + [] == [Optional(key, t.value, sp)];
  }

  lemma NewName(structs: seq<StructDef>, def: StructDef)
    requires def.name != "" && forall s | s in structs :: s.name != def.name
    ensures Interned(structs, def) == Made(def.name, structs + [def], false)
  {
    hide Signature;
    assert Numbered(def.name, "", 1) == def.name;
    NameForIs(structs, def.name, Signature(def.fields), 1);
    FindSpec(structs, def.name);
  }

  lemma SameText(structs: seq<StructDef>, i: nat, def: StructDef)
    requires i < |structs| && def.name != "" && structs[i].name == def.name && Signature(structs[i].fields) == Signature(def.fields)
    requires forall j | 0 <= j < |structs| && j != i :: structs[j].name != def.name
    ensures Interned(structs, def) == Made(def.name, structs, structs[i].fields != def.fields)
  {
    hide Signature;
    assert Numbered(def.name, "", 1) == def.name;
    NameForIs(structs, def.name, Signature(def.fields), 1);
    FindFirst(structs, i);
  }

  ghost predicate Capitalises(sp: Spelling) {
    Proper(sp) && sp.pascal("p") == "P" && sp.pascal("q") == "Q" && sp.pascal("item") == "Item" && sp.pascal("string") == "String"
  }

  /** The tables on the way: `Item` with a text, `P` with it, and `String`. */
  function ConfusedTable(sp: Spelling): (structs: seq<StructDef>)
    ensures |structs| == 3
  {
    [StructDef("Item", [Optional("string", Str, sp)]), StructDef("P", [Optional("item", Ty.Named("Item"), sp)]),
     StructDef("String", [Optional("x", Str, sp)])]
  }

  lemma FirstItem(sp: Spelling)
    requires Capitalises(sp)
    ensures FieldMade(ConfusedTree()[0], [], sp, []) == Made(Optional("p", Ty.Named("P"), sp), ConfusedTable(sp)[..2], false)
  {
    var t := ConfusedTable(sp);
    assert t[..1] == [] + [t[0]] && t[..2] == t[..1] + [t[1]];
    var item := TypeNode.Object([Member("string", Leaf("string"))]);
    OneMember("string", Leaf("string"), "Item", sp, []);
    NewName([], t[0]);
    OneMember("item", item, "P", sp, []);
    NewName(t[..1], t[1]);
  }

  lemma SecondItem(sp: Spelling)
    requires Capitalises(sp)
    ensures FieldMade(ConfusedTree()[1], [], sp, ConfusedTable(sp)[..2]).mixed
  {
    var t := ConfusedTable(sp);
    assert t[..2] + [t[2]] == t;
    var text := TypeNode.Object([Member("x", Leaf("string"))]);
    var item := TypeNode.Object([Member("string", text)]);
    var fields := [Optional("string", Ty.Named("String"), sp)];
    OneMember("x", Leaf("string"), "String", sp, t[..2]);
    NewName(t[..2], t[2]);
    OneMember("string", text, "Item", sp, t[..2]);
    SameSignature(sp);
    SameText(t, 0, StructDef("Item", fields));
    OneMember("item", item, "Q", sp, t[..2]);
  }

  lemma SameSignature(sp: Spelling)
    ensures Signature([Optional("string", Str, sp)]) == Signature([Optional("string", Ty.Named("String"), sp)])
  {}

  /** Two shapes one key is turned into `String` for: the second `<item>` gets the first
      one's struct, whose signature is the same text, and the request no longer stands for
      the shape it was registered for. */
  lemma StringKeyIsConfused(sp: Spelling)
    requires Capitalises(sp)
    ensures var r := Registered("Variables", ConfusedTree(), None, sp, []);
      r.mixed && Unfold(r.value, r.structs) != Some(NStruct(NormaliseMembers(ConfusedTree(), [])))
  {
    hide *;
    var tree := ConfusedTree();
    CapitalisesIsProper(sp);
    TwoMembers();
    TopNames();
    FirstItem(sp);
    SecondItem(sp);
    FieldsStep(tree, [], sp, []);
    FieldsStep(tree[1..], [], sp, ConfusedTable(sp)[..2]);
    RegisteredIs("Variables", tree, None, sp, []);
    WrappedIs("Variables", FieldsMade(tree, [], sp, []));
    RegisteredMeans("Variables", tree, None, sp, []);
  }

  lemma CapitalisesIsProper(sp: Spelling)
    requires Capitalises(sp)
    ensures Proper(sp)
  {}

  lemma TwoMembers()
    ensures |ConfusedTree()| == 2 && ConfusedTree()[1..] == [ConfusedTree()[1]]
  {}
}
