/** Type trees of mex operations, the Rust types made of them, and the text by which
    the struct interner compares two struct shapes. */
module MexTypes {
  import opened Sequences
  import opened Values

  /** A shape from the IR; object keys in their sorted order. */
  datatype TypeNode = Leaf(tag: string) | Array(items: seq<TypeNode>) | Object(members: seq<Member>)

  datatype Member = Member(key: string, node: TypeNode)

  /** Which keys the client always writes, mirroring the shape. */
  datatype Presence = Presence(always: bool, items: Option<Presence>, fields: seq<PresenceField>)

  datatype PresenceField = PresenceField(key: string, presence: Presence)

  function Lookup(fields: seq<PresenceField>, key: string): Option<Presence> {
    if fields == [] then None
    else if fields[0].key == key then Some(fields[0].presence)
    else Lookup(fields[1..], key)
  }

  function FieldsOf(p: Option<Presence>): seq<PresenceField> {
    match p case Some(x) => x.fields case None => []
  }

  function ItemsOf(p: Option<Presence>): Option<Presence> {
    match p case Some(x) => x.items case None => None
  }

  predicate Always(p: Option<Presence>) {
    p.Some? && p.value.always
  }

  // ---------------------------------------------------------------- Rust types

  datatype Ty = I64 | Boolean | Str | Vec(inner: Ty) | Opt(inner: Ty) | Named(name: string)

  datatype StructField = StructField(rustField: string, jsonKey: string, ty: Ty, required: bool)

  datatype StructDef = StructDef(name: string, fields: seq<StructField>)

  function Text(ty: Ty): string {
    match ty
    case I64 => "i64"
    case Boolean => "bool"
    case Str => "String"
    case Vec(t) => "Vec<" + Text(t) + ">"
    case Opt(t) => "Option<" + Text(t) + ">"
    case Named(n) => n
  }

  function Piece(f: StructField): string {
    f.jsonKey + "=" + f.rustField + ":" + Text(f.ty)
  }

  /** What two structs of one name are compared by. */
  function Signature(fields: seq<StructField>): string {
    if fields == [] then ""
    else if |fields| == 1 then Piece(fields[0])
    else Piece(fields[0]) + "," + Signature(fields[1..])
  }

  // ---------------------------------------------------------------- spelling

  /** No separator of the signature or of a type. */
  predicate Bare(s: string) {
    forall c | c in s :: c != '=' && c != ':' && c != ',' && c != '<' && c != '>'
  }

  /** Not a lower-case initial, so neither of the two lower-case scalars. */
  predicate StructName(s: string) {
    Bare(s) && s != "" && !('a' <= s[0] <= 'z') && s != "String"
  }

  predicate CleanTy(ty: Ty) {
    match ty
    case Vec(t) => CleanTy(t)
    case Opt(t) => CleanTy(t)
    case Named(n) => StructName(n)
    case _ => true
  }

  predicate CleanField(f: StructField) {
    Bare(f.jsonKey) && Bare(f.rustField) && CleanTy(f.ty) && (f.required <==> !f.ty.Opt?)
  }

  predicate CleanFields(fields: seq<StructField>) {
    forall f | f in fields :: CleanField(f)
  }

  /** The least that is true of every type and field made: names hold no separator, and a
      field is optional unless it is required. */
  predicate PlainTy(ty: Ty) {
    match ty
    case Vec(t) => PlainTy(t)
    case Opt(t) => PlainTy(t)
    case Named(n) => Bare(n)
    case _ => true
  }

  predicate Formed(f: StructField) {
    Bare(f.rustField) && PlainTy(f.ty) && (f.required <==> !f.ty.Opt?)
  }

  predicate AllFormed(fields: seq<StructField>) {
    forall f | f in fields :: Formed(f)
  }

  /** How keys become type and field names. Whatever the key, neither holds a separator,
      and a type name is capitalised. */
  datatype Spelling = Spelling(pascal: string -> string, ident: string -> string)

  ghost predicate Proper(sp: Spelling) {
    forall key :: Bare(sp.pascal(key)) && Bare(sp.ident(key)) && sp.pascal(key) != "" && !('a' <= sp.pascal(key)[0] <= 'z')
  }

  /** Every key in the tree is free of separators and is not turned into `String`. */
  predicate CleanNode(node: TypeNode, sp: Spelling)
    decreases node, 1
  {
    match node
    case Leaf(_) => true
    case Array(items) => CleanNodes(items, sp)
    case Object(members) => CleanMembers(members, sp)
  }

  predicate CleanNodes(nodes: seq<TypeNode>, sp: Spelling)
    decreases nodes, 0
  {
    nodes == [] || (CleanNode(nodes[0], sp) && CleanNodes(nodes[1..], sp))
  }

  predicate CleanMember(m: Member, sp: Spelling)
    decreases m, 2
  {
    Bare(m.key) && sp.pascal(m.key) != "String" && CleanNode(m.node, sp)
  }

  predicate CleanMembers(members: seq<Member>, sp: Spelling)
    decreases members, 0
  {
    members == [] || (CleanMember(members[0], sp) && CleanMembers(members[1..], sp))
  }

  // ---------------------------------------------------------------- the text is faithful

  lemma {:induction false} CleanIsPlain(ty: Ty)
    requires CleanTy(ty)
    ensures PlainTy(ty)
  {
    match ty
    case Vec(t) => CleanIsPlain(t);
    case Opt(t) => CleanIsPlain(t);
    case _ =>
  }

  lemma {:induction false} TextFree(ty: Ty)
    requires PlainTy(ty)
    ensures Free(Text(ty), '=') && Free(Text(ty), ':') && Free(Text(ty), ',')
  {
    match ty
    case Vec(t) => TextFree(t);
    case Opt(t) => TextFree(t);
    case _ =>
  }

  /** Types with the same text are the same type. */
  lemma {:induction false} TextInjective(a: Ty, b: Ty)
    requires CleanTy(a) && CleanTy(b) && Text(a) == Text(b)
    ensures a == b
    decreases a
  {
    Angles(a);
    Angles(b);
    if a.Vec? || a.Opt? {
      Brackets(a);
      Brackets(b);
      TextInjective(a.inner, b.inner);
    }
  }

  lemma Angles(ty: Ty)
    requires CleanTy(ty)
    ensures '<' in Text(ty) <==> ty.Vec? || ty.Opt?
  {
    if ty.Vec? { assert Text(ty)[3] == '<'; }
    if ty.Opt? { assert Text(ty)[6] == '<'; }
  }

  lemma Brackets(ty: Ty)
    requires ty.Vec? || ty.Opt?
    ensures var start := if ty.Vec? then 4 else 7;
      |Text(ty)| > start && Text(ty)[start..|Text(ty)| - 1] == Text(ty.inner) && Text(ty)[0] == (if ty.Vec? then 'V' else 'O')
  {}

  lemma PieceFree(f: StructField)
    requires CleanField(f)
    ensures Free(Piece(f), ',') && Piece(f) != ""
  {
    CleanIsPlain(f.ty);
    TextFree(f.ty);
  }

  lemma PieceInjective(f: StructField, g: StructField)
    requires CleanField(f) && CleanField(g) && Piece(f) == Piece(g)
    ensures f == g
  {
    var x, y := f.rustField + ":" + Text(f.ty), g.rustField + ":" + Text(g.ty);
    assert Piece(f) == f.jsonKey + ['='] + x && Piece(g) == g.jsonKey + ['='] + y;
    SplitAt(f.jsonKey, x, g.jsonKey, y, '=');
    assert x == f.rustField + [':'] + Text(f.ty) && y == g.rustField + [':'] + Text(g.ty);
    SplitAt(f.rustField, Text(f.ty), g.rustField, Text(g.ty), ':');
    TextInjective(f.ty, g.ty);
  }

  /** A signature shows whether there is more than one field. */
  lemma SignatureCommas(fields: seq<StructField>)
    requires CleanFields(fields)
    ensures ',' in Signature(fields) <==> |fields| > 1
    ensures Signature(fields) == "" <==> fields == []
  {
    if fields != [] {
      PieceFree(fields[0]);
      hide Piece, CleanField;
      if |fields| > 1 { assert Signature(fields)[|Piece(fields[0])|] == ','; }
    }
  }

  /** Structs with the same signature have the same fields: keys, names, types, and
      which of them are always written. */
  lemma {:induction false} SignatureInjective(fs: seq<StructField>, gs: seq<StructField>)
    requires CleanFields(fs) && CleanFields(gs) && Signature(fs) == Signature(gs)
    ensures fs == gs
    decreases |fs|
  {
    SignatureCommas(fs);
    SignatureCommas(gs);
    if fs != [] {
      PieceFree(fs[0]);
      PieceFree(gs[0]);
      hide Piece, CleanField;
      if |fs| > 1 {
        assert Signature(fs) == Piece(fs[0]) + [','] + Signature(fs[1..]);
        assert Signature(gs) == Piece(gs[0]) + [','] + Signature(gs[1..]);
        SplitAt(Piece(fs[0]), Signature(fs[1..]), Piece(gs[0]), Signature(gs[1..]), ',');
        SignatureInjective(fs[1..], gs[1..]);
      }
      PieceInjective(fs[0], gs[0]);
      assert fs == [fs[0]] + fs[1..] && gs == [gs[0]] + gs[1..];
    }
  }
}
