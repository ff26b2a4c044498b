/** The JavaScript subset: syntax as the parser delivers it, and its meaning over
    a chain of named scopes (ECMA-262 sections 10.2.11, 13.13, 13.14, 13.16, 14.3.2). */
module Script {
  import opened Values

  datatype Expr =
    | Paren(inner: Expr)
    | Ident(name: string)
    | NullLit
    | NumberLit(number: real)
    | StringLit(text: string)
    | Void(operand: Expr)
    | LogicalNot(operand: Expr)
    | Member(base: Expr, property: string, computed: bool)
    | Logical(logicalOp: LogicalOp, left: Expr, right: Expr)
    | Binary(binaryOp: BinaryOp, left: Expr, right: Expr)
    | Conditional(test: Expr, yes: Expr, no: Expr)
    | Assignment(simple: bool, target: Target, right: Expr)
    | Comma(first: Expr, rest: seq<Expr>)
    | ObjectLit(properties: seq<Property>)
    | Call(callee: Expr, arguments: seq<Argument>)
    | New(callee: Expr, arguments: seq<Argument>)
    | FunctionExpr(fn: Function)
    | OtherExpr

  datatype LogicalOp = And | Or | Coalesce
  datatype BinaryOp = LooseEqual | LooseUnequal | GreaterThan | OtherBinary
  datatype Target = NameTarget(name: string) | OtherTarget

  /** `plain` is false for computed keys, methods, getters and setters;
      `key` is absent when it is not statically known. */
  datatype Property = Property(key: Option<string>, plain: bool, value: Expr) | SpreadProperty

  datatype Argument = Plain(expr: Expr) | SpreadArgument

  datatype Param = Param(name: Option<string>, initialized: bool)

  datatype Function = Function(
    name: Option<string>, isAsync: bool, isGenerator: bool, hasRest: bool,
    params: seq<Param>, body: seq<Stmt>)

  datatype Declarator = Declarator(name: Option<string>, init: Option<Expr>)

  datatype Stmt =
    | VarDecl(isVar: bool, declarators: seq<Declarator>)
    | If(test: Expr, yes: Stmt, no: Option<Stmt>)
    | Block(body: seq<Stmt>)
    | Return(value: Option<Expr>)
    | ExprStmt(expr: Expr)
    | Throw(expr: Expr)
    | OtherStmt

  /** The closed vocabulary a validator may mention. */
  datatype Vocabulary = Vocabulary(
    keys: set<string>,                                  // native data properties
    metrics: set<string>,                               // members of the fatal-metric enum
    validators: set<string>,                            // methods of the validator class
    transforms: map<(string, string), TransformKind>,   // (module, method)
    specs: map<string, TransformKind>,                  // protobuf specs and their decoders
    metricModule: string, errorModule: string, decodeModule: string, specModule: string)

  const MAP := "map"
  const REPORT := "reportSyncdFatalError"
  const FATAL := "SyncdFatalError"
  const METRIC_ENUM := "SyncdFatalErrorType"
  const DECODE := "decodeProtobuf"
  const LENGTH := "length"
  const COLLECTION := "collection"

  // ---------------------------------------------------------------- syntax helpers

  function Unparen(e: Expr): Expr {
    if e.Paren? then Unparen(e.inner) else e
  }

  /** `loader("Name")`, parenthesised or not, as (loader, Name). */
  function ModuleCall(e: Expr): Option<(string, string)> {
    var u := Unparen(e);
    if u.Call? && u.callee.Ident? && |u.arguments| == 1 && u.arguments[0].Plain? && u.arguments[0].expr.StringLit?
    then Some((u.callee.name, u.arguments[0].expr.text))
    else None
  }

  /** Names bound by `var` in these statements, in source order, nested functions excluded. */
  function VarNames(body: seq<Stmt>): seq<string>
    decreases body
  {
    if body == [] then [] else StmtVarNames(body[0]) + VarNames(body[1..])
  }

  function StmtVarNames(s: Stmt): seq<string>
    decreases s
  {
    match s
    case VarDecl(_, ds) => DeclaratorNames(ds)
    case If(_, yes, no) => StmtVarNames(yes) + (match no case Some(n) => StmtVarNames(n) case None => [])
    case Block(b) => VarNames(b)
    case _ => []
  }

  function DeclaratorNames(ds: seq<Declarator>): seq<string> {
    if ds == [] then []
    else (match ds[0].name case Some(n) => [n] case None => []) + DeclaratorNames(ds[1..])
  }

  /** Names assigned to by an assignment expression, nested functions excluded. */
  function Assigned(e: Expr): set<string>
    decreases e, 1
  {
    match e
    case Paren(x) => Assigned(x)
    case Void(x) => Assigned(x)
    case LogicalNot(x) => Assigned(x)
    case Member(x, _, _) => Assigned(x)
    case Logical(_, l, r) => Assigned(l) + Assigned(r)
    case Binary(_, l, r) => Assigned(l) + Assigned(r)
    case Conditional(t, y, n) => Assigned(t) + Assigned(y) + Assigned(n)
    case Assignment(_, t, r) => (if t.NameTarget? then {t.name} else {}) + Assigned(r)
    case Comma(x, es) => Assigned(x) + AssignedAll(es)
    case ObjectLit(ps) => AssignedProperties(ps)
    case Call(c, args) => Assigned(c) + AssignedArguments(args)
    case New(c, args) => Assigned(c) + AssignedArguments(args)
    case _ => {}
  }

  function AssignedAll(es: seq<Expr>): set<string>
    decreases es, 0
  {
    if es == [] then {} else Assigned(es[0]) + AssignedAll(es[1..])
  }

  function AssignedArguments(args: seq<Argument>): set<string>
    decreases args, 0
  {
    if args == [] then {}
    else AssignedArgument(args[0]) + AssignedArguments(args[1..])
  }

  function AssignedArgument(a: Argument): set<string>
    decreases a, 2
  {
    match a case Plain(e) => Assigned(e) case SpreadArgument => {}
  }

  function AssignedProperties(ps: seq<Property>): set<string>
    decreases ps, 0
  {
    if ps == [] then {}
    else AssignedProperty(ps[0]) + AssignedProperties(ps[1..])
  }

  function AssignedProperty(p: Property): set<string>
    decreases p, 2
  {
    match p case Property(_, _, e) => Assigned(e) case SpreadProperty => {}
  }

  function StmtAssigned(s: Stmt): set<string>
    decreases s, 1
  {
    match s
    case VarDecl(_, ds) => DeclaratorsAssigned(ds)
    case If(t, yes, no) => Assigned(t) + StmtAssigned(yes) + (match no case Some(n) => StmtAssigned(n) case None => {})
    case Block(b) => StmtsAssigned(b)
    case Return(v) => (match v case Some(e) => Assigned(e) case None => {})
    case ExprStmt(e) => Assigned(e)
    case Throw(e) => Assigned(e)
    case OtherStmt => {}
  }

  function StmtsAssigned(body: seq<Stmt>): set<string>
    decreases body, 0
  {
    if body == [] then {} else StmtAssigned(body[0]) + StmtsAssigned(body[1..])
  }

  function DeclaratorsAssigned(ds: seq<Declarator>): set<string>
    decreases ds, 0
  {
    if ds == [] then {}
    else DeclaratorAssigned(ds[0]) + DeclaratorsAssigned(ds[1..])
  }

  function DeclaratorAssigned(d: Declarator): set<string>
    decreases d, 2
  {
    match d.init case Some(e) => Assigned(e) case None => {}
  }

  // ---------------------------------------------------------------- scopes

  /** A scope chain, innermost scope outermost in the term. */
  datatype Env = Top(frame: map<string, Value>) | Inner(frame: map<string, Value>, outer: Env)

  predicate Bound(env: Env, n: string) {
    n in env.frame || (env.Inner? && Bound(env.outer, n))
  }

  function Lookup(env: Env, n: string): Value
    requires Bound(env, n)
  {
    if n in env.frame then env.frame[n] else Lookup(env.outer, n)
  }

  /** Write to the innermost scope that binds `n`. */
  function Store(env: Env, n: string, v: Value): Env
    requires Bound(env, n)
  {
    if n in env.frame then env.(frame := env.frame[n := v]) else env.(outer := Store(env.outer, n, v))
  }

  function Enclosing(env: Env): Env {
    if env.Inner? then env.outer else env
  }

  // ---------------------------------------------------------------- meaning

  /** What is fixed while one validator runs: the loader names, the class name,
      the vocabulary, and the world's answers. */
  datatype Realm = Realm(loaders: set<string>, receiver: string, vocabulary: Vocabulary, oracle: Oracle)

  /** The module an expression loads, when its loader is not shadowed. */
  function LoadedModule(e: Expr, env: Env, loaders: set<string>): Option<string> {
    match ModuleCall(e)
    case Some((loader, name)) => if loader in loaders && !Bound(env, loader) then Some(name) else None
    case None => None
  }

  /** Make the call once its arguments are known. */
  function CallWith(callee: Callee, args: Out<seq<Value>, Env>, oracle: Oracle): Out<Value, Env> {
    match args
    case Err(f, log) => Err(f, log)
    case Val(vs, env, log) =>
      var reply := oracle(log + [Event(callee, vs)], callee, vs);
      match reply.answer
      case Done(v) => Val(v, env, reply.log)
      case Failed(f) => Err(f, reply.log)
  }

  /** Property read of a native value: own data, then the qualified keys, of which
      no native prototype has any. Anything else is not modelled. */
  function GetProperty(v: Value, key: string, keys: set<string>): Answer {
    if Nullish(v) then Failed(TypeError)
    else match OwnData(v, key)
      case Some(x) => Done(x)
      case None => if key in keys then Done(Undefined) else Failed(Unmodelled)
  }

  /** Define an own property: a repeated key overwrites in place. */
  function PutField(fields: seq<Field>, key: string, v: Value): seq<Field> {
    if fields == [] then [Field(key, v)]
    else if fields[0].key == key then [Field(key, v)] + fields[1..]
    else [fields[0]] + PutField(fields[1..], key, v)
  }

  /** A callback that takes one plain parameter and can be run element by element. */
  predicate PlainCallback(f: Function) {
    !f.isAsync && !f.isGenerator && !f.hasRest && f.name.None? &&
    |f.params| == 1 && !f.params[0].initialized && f.params[0].name.Some?
  }

  /** `var` names start undefined unless a parameter of that name exists (10.2.11). */
  function Hoist(frame: map<string, Value>, body: seq<Stmt>): map<string, Value> {
    frame + map n | n in VarNames(body) && n !in frame :: Undefined
  }

  function Eval(e: Expr, env: Env, log: Log, r: Realm): Out<Value, Env>
    decreases e, 3
  {
    match e
    case Paren(x) => Eval(x, env, log, r)
    case Ident(n) => if Bound(env, n) then Val(Lookup(env, n), env, log) else Err(Unmodelled, log)
    case NullLit => Val(Null, env, log)
    case NumberLit(x) => Val(Number(Finite(x)), env, log)
    case StringLit(s) => Val(Text(s), env, log)
    case Void(x) =>
      var (_, env1, log1) :- Eval(x, env, log, r);
      Val(Undefined, env1, log1)
    case LogicalNot(x) =>
      var (v, env1, log1) :- Eval(x, env, log, r);
      Val(Bool(!Truthy(v)), env1, log1)
    case Member(base, property, _) =>
      if base.Member? && base.property == METRIC_ENUM &&
         LoadedModule(base.base, env, r.loaders) == Some(r.vocabulary.metricModule) then
        if property in r.vocabulary.metrics then Val(Text(property), env, log) else Err(Unmodelled, log)
      else
        var (v, env1, log1) :- Eval(base, env, log, r);
        (match GetProperty(v, property, r.vocabulary.keys)
         case Done(x) => Val(x, env1, log1)
         case Failed(f) => Err(f, log1))
    case Logical(op, left, right) =>
      var (v, env1, log1) :- Eval(left, env, log, r);
      if (match op case And => !Truthy(v) case Or => Truthy(v) case Coalesce => !Nullish(v))
      then Val(v, env1, log1)
      else Eval(right, env1, log1, r)
    case Binary(op, left, right) =>
      var (v, env1, log1) :- Eval(left, env, log, r);
      var (w, env2, log2) :- Eval(right, env1, log1, r);
      (match op
       case LooseEqual => if right.NullLit? then Val(Bool(Nullish(v)), env2, log2) else Err(Unmodelled, log2)
       case LooseUnequal => if right.NullLit? then Val(Bool(!Nullish(v)), env2, log2) else Err(Unmodelled, log2)
       case GreaterThan =>
         if v.Number? && w.Number? then Val(Bool(NumGreater(v.n, w.n)), env2, log2) else Err(Unmodelled, log2)
       case OtherBinary => Err(Unmodelled, log2))
    case Conditional(test, yes, no) =>
      var (v, env1, log1) :- Eval(test, env, log, r);
      if Truthy(v) then Eval(yes, env1, log1, r) else Eval(no, env1, log1, r)
    case Assignment(simple, target, right) =>
      if !simple || !target.NameTarget? || !Bound(env, target.name) then Err(Unmodelled, log)
      else
        var (v, env1, log1) :- Eval(right, env, log, r);
        if Bound(env1, target.name) then Val(v, Store(env1, target.name, v), log1) else Err(Unmodelled, log1)
    case Comma(first, rest) =>
      var (v, env1, log1) :- Eval(first, env, log, r);
      var (vs, env2, log2) :- EvalAll(rest, env1, log1, r);
      Val(if rest == [] then v else vs[|vs| - 1], env2, log2)
    case ObjectLit(properties) =>
      var (fields, env1, log1) :- EvalProperties(properties, [], env, log, r);
      Val(Object(fields), env1, log1)
    case Call(_, _) => EvalCall(e, env, log, r)
    case _ => Err(Unmodelled, log)
  }

  function EvalAll(es: seq<Expr>, env: Env, log: Log, r: Realm): (out: Out<seq<Value>, Env>)
    ensures out.Val? ==> |out.value| == |es|
    decreases es, 0
  {
    if es == [] then Val([], env, log)
    else
      var (v, env1, log1) :- Eval(es[0], env, log, r);
      var (vs, env2, log2) :- EvalAll(es[1..], env1, log1, r);
      Val([v] + vs, env2, log2)
  }

  function EvalArguments(args: seq<Argument>, env: Env, log: Log, r: Realm): Out<seq<Value>, Env>
    decreases args, 0
  {
    if args == [] then Val([], env, log)
    else
      var (v, env1, log1) :- EvalArgument(args[0], env, log, r);
      var (vs, env2, log2) :- EvalArguments(args[1..], env1, log1, r);
      Val([v] + vs, env2, log2)
  }

  function EvalArgument(a: Argument, env: Env, log: Log, r: Realm): Out<Value, Env>
    decreases a, 4
  {
    match a case Plain(e) => Eval(e, env, log, r) case SpreadArgument => Err(Unmodelled, log)
  }

  function EvalProperties(ps: seq<Property>, fields: seq<Field>, env: Env, log: Log, r: Realm): Out<seq<Field>, Env>
    decreases ps, 0
  {
    if ps == [] then Val(fields, env, log)
    else
      var (v, env1, log1) :- EvalProperty(ps[0], env, log, r);
      EvalProperties(ps[1..], PutField(fields, ps[0].key.value, v), env1, log1, r)
  }

  function EvalProperty(p: Property, env: Env, log: Log, r: Realm): (out: Out<Value, Env>)
    ensures out.Val? ==> p.Property? && p.key.Some?
    decreases p, 4
  {
    match p
    case SpreadProperty => Err(Unmodelled, log)
    case Property(key, plain, e) =>
      if !plain || key.None? || key.value == "__proto__" then Err(Unmodelled, log) else Eval(e, env, log, r)
  }

  function Single(out: Out<Value, Env>): Out<seq<Value>, Env> {
    match out case Val(v, env, log) => Val([v], env, log) case Err(f, log) => Err(f, log)
  }

  /** The second argument of a decoder call whose first names a protobuf spec. */
  function DecoderSpec(arguments: seq<Argument>): Option<(Expr, string)> {
    if |arguments| == 2 && arguments[0].Plain? && arguments[1].Plain? && arguments[0].expr.Member?
    then Some((arguments[0].expr.base, arguments[0].expr.property))
    else None
  }

  function EvalCall(e: Expr, env: Env, log: Log, r: Realm): Out<Value, Env>
    requires e.Call?
    decreases e, 2
  {
    match e case Call(callee, arguments) =>
    match callee
    case Member(base, name, _) =>
      var loaded := LoadedModule(base, env, r.loaders);
      if loaded.Some? && loaded.value == r.vocabulary.decodeModule && name == DECODE then
        var spec := DecoderSpec(arguments);
        if spec.Some? && LoadedModule(spec.value.0, env, r.loaders) == Some(r.vocabulary.specModule) &&
           spec.value.1 in r.vocabulary.specs
        then
          match arguments[1] case Plain(payload) =>
          CallWith(Transform(r.vocabulary.specs[spec.value.1]), Single(Eval(payload, env, log, r)), r.oracle)
        else Err(Unmodelled, log)
      else if loaded.Some? then
        if (loaded.value, name) in r.vocabulary.transforms then
          CallWith(Transform(r.vocabulary.transforms[(loaded.value, name)]), EvalArguments(arguments, env, log, r), r.oracle)
        else Err(Unmodelled, log)
      else if base == Ident(r.receiver) && !Bound(env, r.receiver) then
        if name in r.vocabulary.validators then
          CallWith(Validator(name), EvalArguments(arguments, env, log, r), r.oracle)
        else Err(Unmodelled, log)
      else if name == MAP then
        if |arguments| == 1 then MapOver(Eval(base, env, log, r), arguments[0], r) else Err(Unmodelled, log)
      else Err(Unmodelled, log)
    case _ => Err(Unmodelled, log)
  }

  /** `receiver.map(callback)` once the receiver is known. */
  function MapOver(receiver: Out<Value, Env>, argument: Argument, r: Realm): Out<Value, Env>
    decreases argument, 5
  {
    var (v, env1, log1) :- receiver;
    if Nullish(v) then Err(TypeError, log1)
    else match argument
      case Plain(FunctionExpr(fn)) =>
        if v.Array? && PlainCallback(fn) then
          var (vs, env2, log2) :- MapItems(fn, v.items, env1, log1, r);
          Val(Array(vs), env2, log2)
        else Err(Unmodelled, log1)
      case _ => Err(Unmodelled, log1)
  }

  /** Run the callback on each element in a fresh scope; falling off its end is undefined. */
  function MapItems(f: Function, items: seq<Value>, env: Env, log: Log, r: Realm): Out<seq<Value>, Env>
    requires PlainCallback(f)
    decreases f, |items|
  {
    if items == [] then Val([], env, log)
    else
      match f case Function(_, _, _, _, params, body) =>
      var frame := Hoist(map[params[0].name.value := items[0]], body);
      match Run(body, Inner(frame, env), log, r)
      case Raised(failure, log1) => Err(failure, log1)
      case Next(env1, log1) =>
        var (vs, env2, log2) :- MapItems(f, items[1..], Enclosing(env1), log1, r);
        Val([Undefined] + vs, env2, log2)
      case Returned(v, env1, log1) =>
        var (vs, env2, log2) :- MapItems(f, items[1..], Enclosing(env1), log1, r);
        Val([v] + vs, env2, log2)
  }

  function Run(body: seq<Stmt>, env: Env, log: Log, r: Realm): Flow<Env>
    decreases body, 0
  {
    if body == [] then Next(env, log)
    else match RunStmt(body[0], env, log, r)
      case Next(env1, log1) => Run(body[1..], env1, log1, r)
      case other => other
  }

  /** `throw (reporter.report(metric, context), new Fatal(message))`, taken apart. */
  datatype FatalThrow = FatalThrow(reporter: Expr, metric: Expr, context: Expr, constructorOf: Expr, message: string)

  function FatalParts(e: Expr): Option<FatalThrow> {
    if e.Comma? && |e.rest| == 1 && e.first.Call? && e.rest[0].New? then
      var report, error := e.first, e.rest[0];
      if report.callee.Member? && report.callee.property == REPORT &&
         |report.arguments| == 2 && report.arguments[0].Plain? && report.arguments[1].Plain? &&
         error.callee.Member? && error.callee.property == FATAL &&
         |error.arguments| == 1 && error.arguments[0].Plain? && error.arguments[0].expr.StringLit?
      then Some(FatalThrow(report.callee.base, report.arguments[0].expr, report.arguments[1].expr,
                           error.callee.base, error.arguments[0].expr.text))
      else None
    else None
  }

  function RunStmt(s: Stmt, env: Env, log: Log, r: Realm): Flow<Env>
    decreases s, 1
  {
    match s
    case VarDecl(isVar, ds) => RunDeclarators(ds, isVar, env, log, r)
    case If(test, yes, no) =>
      (match Eval(test, env, log, r)
       case Err(f, log1) => Raised(f, log1)
       case Val(v, env1, log1) =>
         if Truthy(v) then RunStmt(yes, env1, log1, r)
         else match no
           case Some(n) => RunStmt(n, env1, log1, r)
           case None => Next(env1, log1))
    case Block(body) => Run(body, env, log, r)
    case Return(value) =>
      (match value
       case None => Returned(Undefined, env, log)
       case Some(e) =>
         match Eval(e, env, log, r)
         case Err(f, log1) => Raised(f, log1)
         case Val(v, env1, log1) => Returned(v, env1, log1))
    case ExprStmt(e) =>
      (match Eval(e, env, log, r)
       case Err(f, log1) => Raised(f, log1)
       case Val(_, env1, log1) => Next(env1, log1))
    case Throw(e) =>
      if FatalParts(e).Some? then RunFatal(e, env, log, r) else Raised(Unmodelled, log)
    case OtherStmt => Raised(Unmodelled, log)
  }

  /** The report is the throw's only effect: metric, then context, then the exception. */
  function RunFatal(e: Expr, env: Env, log: Log, r: Realm): Flow<Env>
    requires FatalParts(e).Some?
    decreases e, 4
  {
    var t := FatalParts(e).value;
    if LoadedModule(t.reporter, env, r.loaders) != Some(r.vocabulary.metricModule) ||
       LoadedModule(t.constructorOf, env, r.loaders) != Some(r.vocabulary.errorModule)
    then Raised(Unmodelled, log)
    else
      assert t.metric == e.first.arguments[0].expr && t.context == e.first.arguments[1].expr;
      match Eval(t.metric, env, log, r)
      case Err(f, log1) => Raised(f, log1)
      case Val(m, env1, log1) =>
        match Eval(t.context, env1, log1, r)
        case Err(f, log2) => Raised(f, log2)
        case Val(c, env2, log2) => Raised(Fatal(m, c, t.message), log2)
  }

  function RunDeclarators(ds: seq<Declarator>, isVar: bool, env: Env, log: Log, r: Realm): Flow<Env>
    decreases ds, 0
  {
    if ds == [] then Next(env, log)
    else match RunDeclarator(ds[0], isVar, env, log, r)
      case Next(env1, log1) => RunDeclarators(ds[1..], isVar, env1, log1, r)
      case other => other
  }

  function RunDeclarator(d: Declarator, isVar: bool, env: Env, log: Log, r: Realm): Flow<Env>
    decreases d, 4
  {
    if !isVar || d.name.None? then Raised(Unmodelled, log)
    else match d.init
      case None => Next(env, log)
      case Some(e) =>
        match Eval(e, env, log, r)
        case Err(f, log1) => Raised(f, log1)
        case Val(v, env1, log1) =>
          if Bound(env1, d.name.value) then Next(Store(env1, d.name.value, v), log1) else Raised(Unmodelled, log1)
  }

  /** Parameters in order: of two with one name the later wins. */
  function ParamFrame(params: seq<Param>, args: seq<Value>, i: nat): map<string, Value>
    requires i <= |params|
  {
    if i == 0 then map[]
    else
      var rest := ParamFrame(params, args, i - 1);
      match params[i - 1].name
      case Some(n) => rest[n := ArgAt(args, i - 1)]
      case None => rest
  }

  /** Calling a validator: bind, hoist, run; falling off the end returns undefined. */
  function Apply(f: Function, args: seq<Value>, log: Log, r: Realm): Reply {
    if f.isAsync || f.isGenerator || f.hasRest || f.name.Some? ||
       exists p | p in f.params :: p.initialized || p.name.None?
    then Reply(Failed(Unmodelled), log)
    else
      match Run(f.body, Top(Hoist(ParamFrame(f.params, args, |f.params|), f.body)), log, r)
      case Next(_, log1) => Reply(Done(Undefined), log1)
      case Returned(v, _, log1) => Reply(Done(v), log1)
      case Raised(failure, log1) => Reply(Failed(failure), log1)
  }
}
