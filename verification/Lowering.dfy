/** The compiler from the script subset to validation programs, as a state-passing
    function. `Lower` (LowerClass.dfy) is the updating compiler it specifies. */
module Lowering {
  import opened Values
  import opened Script
  import Ir

  /** What stays fixed while one validator is compiled. */
  datatype Dialect = Dialect(
    receiver: string, requires_: set<string>, vocabulary: Vocabulary,
    arrayField: Option<string>, arrayArgument: bool)

  /** What changes while one validator is compiled. */
  datatype Scope = Scope(
    locals: map<string, Ir.E>, slots: nat, mapDepth: nat, mapFloor: nat,
    arrays: set<nat>, mutable: set<nat>)

  datatype Lowered<+T> = Accepted(value: T, scope: Scope) | Refused(reason: string) {
    predicate IsFailure() { Refused? }
    function PropagateFailure<U>(): Lowered<U>
      requires Refused?
    {
      Refused(reason)
    }
    function Extract(): (T, Scope)
      requires Accepted?
    {
      (value, scope)
    }
  }

  // ---------------------------------------------------------------- declarations

  /** Give each newly seen name a fresh slot; `again` collects repeated names. */
  function DeclareNames(names: seq<string>, own: set<string>, again: set<string>, s: Scope): Lowered<set<string>> {
    if names == [] then Accepted(again, s)
    else if names[0] in own then DeclareNames(names[1..], own, again + {names[0]}, s)
    else if names[0] in s.locals && s.locals[names[0]].Argument? then Refused("parameter redeclaration is not qualified")
    else
      DeclareNames(names[1..], own + {names[0]}, again,
                   s.(locals := s.locals[names[0] := Ir.Slot(s.slots)], slots := s.slots + 1))
  }

  /** Slots of the names that are assigned or declared again. */
  function SlotsOf(names: set<string>, locals: map<string, Ir.E>): set<nat> {
    set n | n in names && n in locals && locals[n].Slot? :: locals[n].index
  }

  function DeclareScope(body: seq<Stmt>, s: Scope): Lowered<()> {
    var (again, s1) :- DeclareNames(VarNames(body), {}, {}, s);
    Accepted((), s1.(mutable := s1.mutable + SlotsOf(StmtsAssigned(body) + again, s1.locals)))
  }

  // ---------------------------------------------------------------- analyses

  predicate OrdinaryArray(value: Ir.E, s: Scope, c: Dialect) {
    match value
    case Argument(i) => i == 1 && c.arrayArgument
    case FieldOf(base, field) => base == Ir.Argument(1) && c.arrayField == Some(field)
    case Slot(i) => i in s.arrays && i !in s.mutable
    case Map(_, _) => true
    case _ => false
  }

  predicate Numeric(value: Ir.E, s: Scope, c: Dialect) {
    value.Integer? || (value.FieldOf? && value.field == LENGTH && OrdinaryArray(value.base, s, c))
  }

  function Module(e: Expr, s: Scope, c: Dialect): Option<string> {
    match ModuleCall(e)
    case Some((loader, name)) => if loader in c.requires_ && loader !in s.locals then Some(name) else None
    case None => None
  }

  predicate SafeInteger(x: real) {
    x == x.Floor as real && -9_007_199_254_740_991.0 <= x <= 9_007_199_254_740_991.0
  }

  predicate HasEntry(entries: seq<Ir.Entry>, key: string) {
    exists i :: 0 <= i < |entries| && entries[i].key == key
  }

  // ---------------------------------------------------------------- expressions

  function LowerExpr(e: Expr, s: Scope, c: Dialect): Lowered<Ir.E>
    decreases e, 3
  {
    match e
    case Paren(x) => LowerExpr(x, s, c)
    case Ident(n) => if n in s.locals then Accepted(s.locals[n], s) else Refused("unbound " + n)
    case NullLit => Accepted(Ir.NullLit, s)
    case NumberLit(x) =>
      if SafeInteger(x) then Accepted(Ir.Integer(x.Floor), s) else Refused("unsupported expression")
    case StringLit(t) => Accepted(Ir.String(t), s)
    case Void(x) => if x == NumberLit(0.0) then Accepted(Ir.UndefinedLit, s) else Refused("unsupported expression")
    case LogicalNot(x) =>
      var (v, s1) :- LowerExpr(x, s, c);
      Accepted(Ir.Not(v), s1)
    case Member(base, property, computed) =>
      if computed then Refused("unsupported expression")
      else if base.Member? && base.property == METRIC_ENUM && Module(base.base, s, c) == Some(c.vocabulary.metricModule) then
        if property in c.vocabulary.metrics then Accepted(Ir.Metric(property), s)
        else Refused("unqualified fatal metric identity")
      else
        var (v, s1) :- LowerExpr(base, s, c);
        if (v.ObjectOf? && HasEntry(v.fields, property)) || property in c.vocabulary.keys
        then Accepted(Ir.FieldOf(v, property), s1)
        else Refused("unqualified native data property " + property)
    case Logical(op, left, right) =>
      var (v, s1) :- LowerExpr(left, s, c);
      var (w, s2) :- LowerExpr(right, s1, c);
      (match op
       case And => Accepted(Ir.And(v, w), s2)
       case Or => Accepted(Ir.Or(v, w), s2)
       case Coalesce => Refused("unsupported logical operator"))
    case Binary(op, left, right) =>
      if (op.LooseEqual? || op.LooseUnequal?) && right.NullLit? then
        var (v, s1) :- LowerExpr(left, s, c);
        Accepted(Ir.IsNullish(v, op.LooseUnequal?), s1)
      else if op.GreaterThan? then
        var (v, s1) :- LowerExpr(left, s, c);
        var (w, s2) :- LowerExpr(right, s1, c);
        if Numeric(v, s2, c) && Numeric(w, s2, c) then Accepted(Ir.Greater(v, w), s2)
        else Refused("relational operands are not qualified numeric values")
      else Refused("unsupported expression")
    case Conditional(test, yes, no) =>
      var (t, s1) :- LowerExpr(test, s, c);
      var (y, s2) :- LowerExpr(yes, s1, c);
      var (n, s3) :- LowerExpr(no, s2, c);
      Accepted(Ir.Choose(t, y, n), s3)
    case Assignment(simple, target, right) =>
      if !target.NameTarget? then Refused("unsupported assignment target")
      else if !simple then Refused("compound assignment")
      else if target.name !in s.locals || !s.locals[target.name].Slot? then Refused("assignment outside local")
      else
        var slot := s.locals[target.name].index;
        if s.mapDepth != 0 && slot < s.mapFloor then
          Refused("callback assignment to a captured slot is not qualified")
        else
          var (v, s1) :- LowerExpr(right, s, c);
          Accepted(Ir.Assign(slot, v), s1)
    case Comma(first, rest) =>
      var (v, s1) :- LowerExpr(first, s, c);
      var (vs, s2) :- LowerAll(rest, s1, c);
      Accepted(Ir.Sequence([v] + vs), s2)
    case ObjectLit(properties) =>
      var (entries, s1) :- LowerProperties(properties, [], s, c);
      Accepted(Ir.ObjectOf(entries), s1)
    case Call(_, _) => LowerCall(e, s, c)
    case _ => Refused("unsupported expression")
  }

  function LowerAll(es: seq<Expr>, s: Scope, c: Dialect): Lowered<seq<Ir.E>>
    decreases es, 0
  {
    if es == [] then Accepted([], s)
    else
      var (v, s1) :- LowerExpr(es[0], s, c);
      var (vs, s2) :- LowerAll(es[1..], s1, c);
      Accepted([v] + vs, s2)
  }

  function LowerArgument(a: Argument, s: Scope, c: Dialect): Lowered<Ir.E>
    decreases a, 4
  {
    match a case Plain(e) => LowerExpr(e, s, c) case SpreadArgument => Refused("spread argument")
  }

  function LowerArguments(args: seq<Argument>, s: Scope, c: Dialect): Lowered<seq<Ir.E>>
    decreases args, 0
  {
    if args == [] then Accepted([], s)
    else
      var (v, s1) :- LowerArgument(args[0], s, c);
      var (vs, s2) :- LowerArguments(args[1..], s1, c);
      Accepted([v] + vs, s2)
  }

  function LowerProperty(p: Property, entries: seq<Ir.Entry>, s: Scope, c: Dialect): (out: Lowered<Ir.E>)
    ensures out.Accepted? ==> p.Property? && p.plain && p.key.Some? && p.key.value != "__proto__" && !HasEntry(entries, p.key.value)
    decreases p, 4
  {
    match p
    case SpreadProperty => Refused("object spread")
    case Property(key, plain, e) =>
      if !plain then Refused("unsupported object property")
      else if key.None? then Refused("dynamic object key")
      else if key.value == "__proto__" || key.value == "toString" || key.value == "valueOf" then
        Refused("prototype-setting or coercion-override object properties are not qualified")
      else if HasEntry(entries, key.value) then Refused("duplicate object property")
      else LowerExpr(e, s, c)
  }

  function LowerProperties(ps: seq<Property>, entries: seq<Ir.Entry>, s: Scope, c: Dialect): Lowered<seq<Ir.Entry>>
    decreases ps, 0
  {
    if ps == [] then Accepted(entries, s)
    else
      var (v, s1) :- LowerProperty(ps[0], entries, s, c);
      LowerProperties(ps[1..], entries + [Ir.Entry(ps[0].key.value, v)], s1, c)
  }

  /** Why a callback cannot be compiled, if it cannot. */
  function CallbackRefusal(f: Function): Option<string> {
    if f.isAsync || f.isGenerator || f.hasRest then Some("asynchronous, generator or rest callback is not qualified")
    else if exists p | p in f.params :: p.initialized then Some("callback parameter initializers are not qualified")
    else if f.name.Some? then Some("named callback expressions are not qualified")
    else if |f.params| != 1 then Some("map parameters")
    else if f.params[0].name.None? then Some("map binding")
    else None
  }

  /** The scope a callback body is compiled in, before its own declarations. */
  function EnterCallback(param: string, s: Scope): Scope {
    s.(locals := s.locals[param := Ir.Argument(Ir.ITEM)], mapFloor := s.slots, mapDepth := s.mapDepth + 1)
  }

  /** Back in the enclosing body: its names and analyses, the slot count kept. */
  function LeaveCallback(outer: Scope, inner: Scope): Scope {
    outer.(slots := inner.slots, mapFloor := inner.mapFloor)
  }

  function LowerCallback(f: Function, s: Scope, c: Dialect): Lowered<seq<Ir.S>>
    requires CallbackRefusal(f).None?
    decreases f, 4
  {
    match f case Function(_, _, _, _, params, body) =>
    var (_, s1) :- DeclareScope(body, EnterCallback(params[0].name.value, s));
    var (ir, s2) :- LowerStmts(body, s1, c);
    Accepted(ir, LeaveCallback(s, s2))
  }

  function LowerMap(e: Expr, s: Scope, c: Dialect): Lowered<Ir.E>
    requires e.Call? && e.callee.Member?
    decreases e, 1
  {
    match e case Call(callee, arguments) =>
    match callee case Member(base, _, _) =>
    if |arguments| != 1 then Refused("map arity")
    else match arguments[0]
      case SpreadArgument => Refused("spread argument")
      case Plain(callback) =>
        match callback
        case FunctionExpr(fn) =>
          var refusal := CallbackRefusal(fn);
          if refusal.Some? then Refused(refusal.value)
          else if s.mapDepth != 0 then Refused("nested map capture is not qualified")
          else
            var (input, s1) :- LowerExpr(base, s, c);
            if !OrdinaryArray(input, s1, c) then Refused("map receiver is not a qualified ordinary array")
            else
              var (body, s2) :- LowerCallback(fn, s1, c);
              Accepted(Ir.Map(input, body), s2)
        case _ => Refused("map callback")
  }

  function LowerCall(e: Expr, s: Scope, c: Dialect): Lowered<Ir.E>
    requires e.Call?
    decreases e, 2
  {
    match e case Call(callee, arguments) =>
    match callee
    case Member(base, name, _) =>
      if name == MAP then LowerMap(e, s, c)
      else if Module(base, s, c) == Some(c.vocabulary.decodeModule) && name == DECODE then
        if |arguments| != 2 then Refused("unqualified decoder arity")
        else if arguments[0].SpreadArgument? then Refused("spread argument")
        else if !arguments[0].expr.Member? || arguments[0].expr.computed then Refused("unqualified decoder spec")
        else if Module(arguments[0].expr.base, s, c) != Some(c.vocabulary.specModule) then
          Refused("unqualified decoder module")
        else if arguments[0].expr.property !in c.vocabulary.specs then Refused("unknown decoded spec")
        else
          var (v, s1) :- LowerArgument(arguments[1], s, c);
          Accepted(Ir.Apply(c.vocabulary.specs[arguments[0].expr.property], [v]), s1)
      else
        var (vs, s1) :- LowerArguments(arguments, s, c);
        if name in c.vocabulary.validators && base == Ident(c.receiver) && c.receiver !in s1.locals then
          Accepted(Ir.Validate(name, vs), s1)
        else
          var loaded := Module(base, s1, c);
          if loaded.Some? && (loaded.value, name) in c.vocabulary.transforms
          then Accepted(Ir.Apply(c.vocabulary.transforms[(loaded.value, name)], vs), s1)
          else Refused("unsupported dependency " + name)
    case _ => Refused("unsupported callee")
  }

  // ---------------------------------------------------------------- statements

  function LowerStmts(body: seq<Stmt>, s: Scope, c: Dialect): Lowered<seq<Ir.S>>
    decreases body, 0
  {
    if body == [] then Accepted([], s)
    else
      var (first, s1) :- LowerStmt(body[0], s, c);
      var (rest, s2) :- LowerStmts(body[1..], s1, c);
      Accepted(first + rest, s2)
  }

  function LowerStmt(st: Stmt, s: Scope, c: Dialect): Lowered<seq<Ir.S>>
    decreases st, 1
  {
    match st
    case VarDecl(isVar, ds) => LowerDeclarators(ds, isVar, s, c)
    case If(test, yes, no) =>
      var (t, s1) :- LowerExpr(test, s, c);
      var (y, s2) :- LowerStmt(yes, s1, c);
      (match no
       case None => Accepted([Ir.If(t, y, [])], s2)
       case Some(x) =>
         var (n, s3) :- LowerStmt(x, s2, c);
         Accepted([Ir.If(t, y, n)], s3))
    case Block(body) => LowerStmts(body, s, c)
    case Return(value) =>
      (match value
       case None => Refused("bare return")
       case Some(e) =>
         var (v, s1) :- LowerExpr(e, s, c);
         Accepted([Ir.Return(v)], s1))
    case ExprStmt(e) =>
      var (v, s1) :- LowerExpr(e, s, c);
      Accepted([Ir.Evaluate(v)], s1)
    case Throw(e) => LowerThrow(e, s, c)
    case OtherStmt => Refused("unsupported statement")
  }

  function LowerThrow(e: Expr, s: Scope, c: Dialect): Lowered<seq<Ir.S>>
    decreases e, 4
  {
    var parts := FatalParts(e);
    if parts.None? then Refused(ThrowRefusal(e, s, c))
    else
      var t := parts.value;
      assert t.metric == e.first.arguments[0].expr && t.context == e.first.arguments[1].expr;
      if Module(t.reporter, s, c) != Some(c.vocabulary.metricModule) then Refused("unqualified fatal reporter")
      else
        var (metric, s1) :- LowerExpr(t.metric, s, c);
        var (context, s2) :- LowerExpr(t.context, s1, c);
        if context != Ir.ObjectOf([Ir.Entry(COLLECTION, Ir.Argument(0))]) then Refused("unsupported reporting context")
        else if Module(t.constructorOf, s2, c) != Some(c.vocabulary.errorModule) then Refused("unqualified fatal class")
        else Accepted([Ir.Fatal(metric, t.message)], s2)
  }

  /** What is wrong with a throw of another shape; its first part is compiled before the
      second one is looked at. */
  function ThrowRefusal(e: Expr, s: Scope, c: Dialect): string
    decreases e, 3
  {
    match e
    case Comma(first, rest) =>
      if |rest| != 1 then "unsupported fatal side effects"
      else (match first
        case Call(callee, arguments) =>
          if !callee.Member? || callee.property != REPORT then "wrong fatal reporter"
          else if Module(callee.base, s, c) != Some(c.vocabulary.metricModule) || |arguments| != 2 then "unqualified fatal reporter"
          else (match LowerArgument(arguments[0], s, c)
            case Refused(reason) => reason
            case Accepted(_, s1) =>
              (match LowerArgument(arguments[1], s1, c)
               case Refused(reason) => reason
               case Accepted(context, s2) =>
                 if context != Ir.ObjectOf([Ir.Entry(COLLECTION, Ir.Argument(0))]) then "unsupported reporting context"
                 else ErrorRefusal(rest[0], s2, c)))
        case _ => "missing fatal metric")
    case _ => "unqualified throw"
  }

  function ErrorRefusal(e: Expr, s: Scope, c: Dialect): string {
    match e
    case New(callee, arguments) =>
      if !callee.Member? || callee.property != FATAL then "wrong fatal class"
      else if Module(callee.base, s, c) != Some(c.vocabulary.errorModule) || |arguments| != 1 then "unqualified fatal class"
      else if arguments[0].SpreadArgument? then "spread argument"
      else "dynamic fatal message"
    case _ => "missing fatal constructor"
  }

  function LowerDeclarators(ds: seq<Declarator>, isVar: bool, s: Scope, c: Dialect): Lowered<seq<Ir.S>>
    decreases ds, 0
  {
    if ds == [] then Accepted([], s)
    else
      var (first, s1) :- LowerDeclarator(ds[0], isVar, s, c);
      var (rest, s2) :- LowerDeclarators(ds[1..], isVar, s1, c);
      Accepted([first] + rest, s2)
  }

  function LowerDeclarator(d: Declarator, isVar: bool, s: Scope, c: Dialect): Lowered<Ir.S>
    decreases d, 4
  {
    if d.name.None? then Refused("unsupported binding")
    else if !isVar then Refused("block-scoped declarations are not qualified")
    else if d.name.value !in s.locals || !s.locals[d.name.value].Slot? then Refused("unqualified variable binding")
    else match d.init
      case None => Refused("uninitialized declarations are not qualified")
      case Some(e) =>
        var slot := s.locals[d.name.value].index;
        var (v, s1) :- LowerExpr(e, s, c);
        var s2 := if slot !in s1.mutable && OrdinaryArray(v, s1, c) then s1.(arrays := s1.arrays + {slot}) else s1;
        Accepted(Ir.Bind(slot, v), s2)
  }

  // ---------------------------------------------------------------- functions

  /** Names of the parameters, the later of two equal ones winning. */
  function ParamLocals(params: seq<Param>, i: nat): map<string, Ir.E>
    requires i <= |params|
  {
    if i == 0 then map[]
    else
      var rest := ParamLocals(params, i - 1);
      match params[i - 1].name
      case Some(n) => rest[n := Ir.Argument(i - 1)]
      case None => rest
  }

  /** What is wrong with the first parameter that is not a plain name. */
  function ParamRefusal(params: seq<Param>): string {
    if params == [] then ""
    else if params[0].initialized then "parameter initializers are not qualified"
    else if params[0].name.None? then "unsupported parameter"
    else ParamRefusal(params[1..])
  }

  function LowerFunction(f: Function, c: Dialect): Lowered<Ir.Program> {
    if f.name.Some? then Refused("named validator expressions are not qualified")
    else if f.isAsync || f.isGenerator || f.hasRest then
      Refused("asynchronous, generator or rest validator is not qualified")
    else if exists p | p in f.params :: p.initialized || p.name.None? then
      Refused(ParamRefusal(f.params))
    else
      var (_, s) :- DeclareScope(f.body, Scope(ParamLocals(f.params, |f.params|), 0, 0, 0, {}, {}));
      var (body, s1) :- LowerStmts(f.body, s, c);
      Accepted(Ir.Program(|f.params|, body), s1)
  }
}
