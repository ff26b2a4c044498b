/** Which validators are qualified, judged on the script alone: what each form asks of its
    parts, of the names in sight and of the vocabulary. The compilers play no part in it;
    module Acceptance proves that they take exactly these. */
module Qualification {
  import opened Values
  import opened Script
  import Lowering

  type Dialect = Lowering.Dialect

  /** What a name in sight stands for, seen from one body: a parameter of the validator,
      the element a callback is given, a variable of this body or of the one around it. */
  datatype Binder = Parameter(place: nat) | Element | Own | Captured

  /** `changing` are the names whose variable may hold something else than its declarator
      gave it, `arrays` those a declarator further up has given an ordinary array. */
  datatype Sight = Sight(names: map<string, Binder>, inCallback: bool, changing: set<string>, arrays: set<string>)

  /** The dialect, whether a transform must be called with exactly one argument, as the
      generator wants it, and what Rust wants besides: whether every callback must return on
      every path, and how many arguments the validators of the same module take, if asked. */
  datatype Rules = Rules(dialect: Dialect, unary: bool, returning: bool, arities: Option<map<string, nat>>)

  predicate Variable(b: Binder) {
    b.Own? || b.Captured?
  }

  predicate Sees(v: Sight, name: string, b: Binder) {
    name in v.names && v.names[name] == b
  }

  /** `loader("module")` through one of the module's loaders, which nothing in sight shadows. */
  predicate Loads(e: Expr, wanted: string, v: Sight, c: Dialect) {
    match ModuleCall(e)
    case Some((loader, name)) => loader in c.requires_ && loader !in v.names && name == wanted
    case None => false
  }

  /** An integer that every double around it is told apart from. */
  predicate Exact(x: real) {
    x == x.Floor as real && -9_007_199_254_740_992.0 < x < 9_007_199_254_740_992.0
  }

  /** The designated argument or field, a variable whose one declarator gave it an ordinary
      array, or what `map` returns. */
  predicate OrdinaryArray(e: Expr, v: Sight, c: Dialect) {
    match Unparen(e)
    case Ident(n) =>
      (c.arrayArgument && Sees(v, n, Parameter(1))) ||
      (n in v.names && Variable(v.names[n]) && n in v.arrays && n !in v.changing)
    case Member(base, property, _) =>
      c.arrayField == Some(property) && Unparen(base).Ident? && Sees(v, Unparen(base).name, Parameter(1))
    case Call(callee, _) => callee.Member? && callee.property == MAP
    case _ => false
  }

  /** A number that needs no coercion. */
  predicate Numeric(e: Expr, v: Sight, c: Dialect) {
    var u := Unparen(e);
    u.NumberLit? || (u.Member? && u.property == LENGTH && OrdinaryArray(u.base, v, c))
  }

  predicate HasKey(ps: seq<Property>, key: string) {
    exists i :: 0 <= i < |ps| && ps[i].Property? && ps[i].key == Some(key)
  }

  /** The report's context: the collection, which is the first parameter. */
  predicate NamesCollection(e: Expr, v: Sight) {
    var u := Unparen(e);
    u.ObjectLit? && |u.properties| == 1 && u.properties[0].Property? && u.properties[0].key == Some(COLLECTION) &&
    Unparen(u.properties[0].value).Ident? && Sees(v, Unparen(u.properties[0].value).name, Parameter(0))
  }

  // ---------------------------------------------------------------- expressions

  predicate QualifiedExpr(e: Expr, v: Sight, r: Rules)
    decreases e, 3
  {
    match e
    case Paren(x) => QualifiedExpr(x, v, r)
    case Ident(n) => n in v.names
    case NullLit => true
    case NumberLit(x) => Exact(x)
    case StringLit(_) => true
    case Void(x) => x == NumberLit(0.0)
    case LogicalNot(x) => QualifiedExpr(x, v, r)
    case Member(_, _, _) => QualifiedMember(e, v, r)
    case Logical(op, left, right) => !op.Coalesce? && QualifiedExpr(left, v, r) && QualifiedExpr(right, v, r)
    case Binary(op, left, right) =>
      if (op.LooseEqual? || op.LooseUnequal?) && right.NullLit? then QualifiedExpr(left, v, r)
      else
        op.GreaterThan? && QualifiedExpr(left, v, r) && QualifiedExpr(right, v, r) &&
        Numeric(left, v, r.dialect) && Numeric(right, v, r.dialect)
    case Conditional(test, yes, no) => QualifiedExpr(test, v, r) && QualifiedExpr(yes, v, r) && QualifiedExpr(no, v, r)
    case Assignment(simple, target, right) =>
      simple && target.NameTarget? && Sees(v, target.name, Own) && QualifiedExpr(right, v, r)
    case Comma(first, rest) => QualifiedExpr(first, v, r) && QualifiedAll(rest, v, r)
    case ObjectLit(properties) => QualifiedProperties(properties, v, r)
    case Call(callee, arguments) =>
      if callee.Member? && callee.property == MAP then QualifiedMap(e, v, r)
      else if callee.Member? && callee.property == DECODE && Loads(callee.base, r.dialect.vocabulary.decodeModule, v, r.dialect) then
        |arguments| == 2 && NamesSpec(arguments[0], v, r.dialect) && QualifiedArgument(arguments[1], v, r)
      else
        QualifiedArguments(arguments, v, r) &&
        ((IsSibling(callee, v, r.dialect) && Arity(callee, |arguments|, r)) ||
         (IsTransform(callee, v, r.dialect) && (r.unary ==> |arguments| == 1)))
    case _ => false
  }

  /** A fatal metric of the enumeration, or a data property known by its name or because the
      object is written out right there. */
  predicate QualifiedMember(e: Expr, v: Sight, r: Rules)
    requires e.Member?
    decreases e, 2
  {
    match e case Member(base, property, computed) =>
    !computed &&
    if base.Member? && base.property == METRIC_ENUM && Loads(base.base, r.dialect.vocabulary.metricModule, v, r.dialect) then
      property in r.dialect.vocabulary.metrics
    else
      QualifiedExpr(base, v, r) &&
      (property in r.dialect.vocabulary.keys || (Unparen(base).ObjectLit? && HasKey(Unparen(base).properties, property)))
  }

  predicate QualifiedAll(es: seq<Expr>, v: Sight, r: Rules)
    decreases es, 0
  {
    es == [] || (QualifiedExpr(es[0], v, r) && QualifiedAll(es[1..], v, r))
  }

  predicate QualifiedArgument(a: Argument, v: Sight, r: Rules)
    decreases a, 4
  {
    match a case Plain(e) => QualifiedExpr(e, v, r) case SpreadArgument => false
  }

  predicate QualifiedArguments(args: seq<Argument>, v: Sight, r: Rules)
    decreases args, 0
  {
    args == [] || (QualifiedArgument(args[0], v, r) && QualifiedArguments(args[1..], v, r))
  }

  predicate QualifiedProperty(p: Property, v: Sight, r: Rules)
    decreases p, 4
  {
    match p
    case Property(key, plain, e) =>
      plain && key.Some? && key.value !in {"__proto__", "toString", "valueOf"} && QualifiedExpr(e, v, r)
    case SpreadProperty => false
  }

  /** Each key once. */
  predicate QualifiedProperties(ps: seq<Property>, v: Sight, r: Rules)
    decreases ps, 0
  {
    ps == [] || (QualifiedProperty(ps[0], v, r) && QualifiedProperties(ps[1..], v, r) && !HasKey(ps[1..], ps[0].key.value))
  }

  /** A validator of the class itself, whose name nothing in sight shadows. */
  predicate IsSibling(callee: Expr, v: Sight, c: Dialect) {
    callee.Member? && callee.property in c.vocabulary.validators && callee.base == Ident(c.receiver) && c.receiver !in v.names
  }

  /** The number of arguments the sibling takes. */
  predicate Arity(callee: Expr, count: nat, r: Rules) {
    r.arities.Some? && callee.Member? && callee.property in r.arities.value ==> count == r.arities.value[callee.property]
  }

  predicate IsTransform(callee: Expr, v: Sight, c: Dialect) {
    callee.Member? && exists known | known in c.vocabulary.transforms :: Loads(callee.base, known.0, v, c) && callee.property == known.1
  }

  predicate NamesSpec(a: Argument, v: Sight, c: Dialect) {
    a.Plain? && a.expr.Member? && !a.expr.computed && Loads(a.expr.base, c.vocabulary.specModule, v, c) &&
    a.expr.property in c.vocabulary.specs
  }

  /** One callback over an ordinary array, and no callback in a callback. */
  predicate QualifiedMap(e: Expr, v: Sight, r: Rules)
    requires e.Call? && e.callee.Member?
    decreases e, 1
  {
    match e case Call(callee, arguments) =>
    match callee case Member(base, _, _) =>
    !v.inCallback && QualifiedExpr(base, v, r) && OrdinaryArray(base, v, r.dialect) &&
    |arguments| == 1 &&
    match arguments[0]
    case SpreadArgument => false
    case Plain(callback) =>
      match callback
      case FunctionExpr(fn) => PlainCallback(fn) && QualifiedCallback(fn, v, r)
      case _ => false
  }

  // ---------------------------------------------------------------- bodies

  /** Inside a callback the variables around it can be read, not assigned. */
  function Entering(param: string, v: Sight): Sight {
    v.(names := (map n | n in v.names :: if v.names[n].Own? then Captured else v.names[n])[param := Element], inCallback := true)
  }

  predicate Repeated(names: seq<string>, n: string) {
    exists i, j :: 0 <= i < j < |names| && names[i] == n && names[j] == n
  }

  function Hoisted(names: seq<string>, before: map<string, Binder>): map<string, Binder> {
    before + map n | n in names :: Own
  }

  /** Every declared name is a variable of the body from its start. It changes if it is
      assigned anywhere in the body or declared twice. */
  function Declaring(body: seq<Stmt>, v: Sight): Sight {
    var declared := set n | n in VarNames(body);
    Sight(Hoisted(VarNames(body), v.names),
          v.inCallback,
          (v.changing - declared) + StmtsAssigned(body) + (set n | n in declared && Repeated(VarNames(body), n)),
          v.arrays - declared)
  }

  /** No variable takes the name of a parameter in sight. */
  predicate QualifiedBody(body: seq<Stmt>, v: Sight, r: Rules)
    decreases body, 5
  {
    (forall n | n in VarNames(body) && n in v.names :: Variable(v.names[n])) && QualifiedStmts(body, Declaring(body, v), r)
  }

  predicate QualifiedCallback(f: Function, v: Sight, r: Rules)
    requires PlainCallback(f)
    decreases f, 4
  {
    match f case Function(_, _, _, _, params, body) =>
    QualifiedBody(body, Entering(params[0].name.value, v), r) && (r.returning ==> Ends(body))
  }

  /** Every path through a body ends in `return` or `throw`. */
  predicate Ends(body: seq<Stmt>)
    decreases body, 0
  {
    body != [] && (StmtEnds(body[0]) || Ends(body[1..]))
  }

  predicate StmtEnds(st: Stmt)
    decreases st, 1
  {
    match st
    case Return(_) => true
    case Throw(_) => true
    case If(_, yes, no) => StmtEnds(yes) && (match no case Some(x) => StmtEnds(x) case None => false)
    case Block(body) => Ends(body)
    case _ => false
  }

  predicate QualifiedStmts(body: seq<Stmt>, v: Sight, r: Rules)
    decreases body, 0
  {
    body == [] || (QualifiedStmt(body[0], v, r) && QualifiedStmts(body[1..], Behind(body[0], v, r.dialect), r))
  }

  predicate QualifiedStmt(st: Stmt, v: Sight, r: Rules)
    decreases st, 1
  {
    match st
    case VarDecl(isVar, ds) => (ds == [] || isVar) && QualifiedDeclarators(ds, v, r)
    case If(test, yes, no) =>
      QualifiedExpr(test, v, r) && QualifiedStmt(yes, v, r) &&
      (match no case Some(x) => QualifiedStmt(x, Behind(yes, v, r.dialect), r) case None => true)
    case Block(body) => QualifiedStmts(body, v, r)
    case Return(value) => (match value case Some(e) => QualifiedExpr(e, v, r) case None => false)
    case ExprStmt(e) => QualifiedExpr(e, v, r)
    case Throw(e) => QualifiedThrow(e, v, r)
    case OtherStmt => false
  }

  /** Report and exception, both from their own modules, and nothing else. */
  predicate QualifiedThrow(e: Expr, v: Sight, r: Rules)
    decreases e, 4
  {
    FatalParts(e).Some? &&
    var t := FatalParts(e).value;
    assert t.metric == e.first.arguments[0].expr && t.context == e.first.arguments[1].expr;
    Loads(t.reporter, r.dialect.vocabulary.metricModule, v, r.dialect) &&
    Loads(t.constructorOf, r.dialect.vocabulary.errorModule, v, r.dialect) &&
    QualifiedExpr(t.metric, v, r) && QualifiedExpr(t.context, v, r) && NamesCollection(t.context, v)
  }

  predicate QualifiedDeclarators(ds: seq<Declarator>, v: Sight, r: Rules)
    decreases ds, 0
  {
    ds == [] || (QualifiedDeclarator(ds[0], v, r) && QualifiedDeclarators(ds[1..], Given(ds[0], v, r.dialect), r))
  }

  /** One plain name and its first value. */
  predicate QualifiedDeclarator(d: Declarator, v: Sight, r: Rules)
    decreases d, 4
  {
    d.name.Some? && match d.init case Some(e) => QualifiedExpr(e, v, r) case None => false
  }

  /** What is known of arrays behind a declarator, and behind a statement, in source order,
      whichever branches are taken. */
  function Given(d: Declarator, v: Sight, c: Dialect): Sight {
    if d.name.Some? && d.init.Some? && d.name.value !in v.changing && OrdinaryArray(d.init.value, v, c)
    then v.(arrays := v.arrays + {d.name.value}) else v
  }

  function GivenAll(ds: seq<Declarator>, v: Sight, c: Dialect): Sight {
    if ds == [] then v else GivenAll(ds[1..], Given(ds[0], v, c), c)
  }

  function Behind(st: Stmt, v: Sight, c: Dialect): Sight
    decreases st, 1
  {
    match st
    case VarDecl(_, ds) => GivenAll(ds, v, c)
    case If(_, yes, no) => (match no case Some(x) => Behind(x, Behind(yes, v, c), c) case None => Behind(yes, v, c))
    case Block(body) => BehindAll(body, v, c)
    case _ => v
  }

  function BehindAll(body: seq<Stmt>, v: Sight, c: Dialect): Sight
    decreases body, 0
  {
    if body == [] then v else BehindAll(body[1..], Behind(body[0], v, c), c)
  }

  // ---------------------------------------------------------------- validators

  /** Parameters by name: of several with one name the last one is in sight. */
  function Parameters(params: seq<Param>): map<string, Binder> {
    map n | n in (set i | 0 <= i < |params| && params[i].name.Some? :: params[i].name.value) :: Parameter(PlaceOf(params, n, |params|))
  }

  /** The last place of a name before the k-th parameter. */
  function PlaceOf(params: seq<Param>, n: string, k: nat): nat
    requires k <= |params|
  {
    if k == 0 then 0 else if params[k - 1].name == Some(n) then k - 1 else PlaceOf(params, n, k - 1)
  }

  predicate QualifiedFunction(f: Function, r: Rules) {
    f.name.None? && !f.isAsync && !f.isGenerator && !f.hasRest &&
    (forall p | p in f.params :: !p.initialized && p.name.Some?) &&
    QualifiedBody(f.body, Sight(Parameters(f.params), false, {}, {}), r)
  }

  /** The validators lowering takes. */
  predicate Qualified(f: Function, c: Dialect) {
    QualifiedFunction(f, Rules(c, false, false, None))
  }

  /** Those among them that become a function. */
  predicate Generable(f: Function, c: Dialect) {
    QualifiedFunction(f, Rules(c, true, false, None)) && |f.params| <= 3
  }

  /** Those whose function always returns something. */
  predicate Returning(f: Function, c: Dialect) {
    QualifiedFunction(f, Rules(c, true, true, None)) && |f.params| <= 3 && Ends(f.body)
  }

  /** Those whose function is well typed beside validators of these parameter counts. */
  predicate Typed(f: Function, c: Dialect, arities: map<string, nat>) {
    QualifiedFunction(f, Rules(c, true, true, Some(arities))) && |f.params| <= 3 && Ends(f.body)
  }
}
