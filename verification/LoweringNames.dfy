/** Compiling ignores how names are spelled: an injective renaming of every
    identifier, loaders and class included, gives the same program or is refused too. */
module LoweringNames {
  import opened Values
  import opened Script
  import opened Lowering
  import Ir

  type Renaming = string -> string

  ghost predicate Injective(f: Renaming) {
    forall a, b :: f(a) == f(b) ==> a == b
  }

  // ---------------------------------------------------------------- renaming

  function RenameExpr(e: Expr, f: Renaming): Expr
    decreases e, 3
  {
    match e
    case Paren(x) => Paren(RenameExpr(x, f))
    case Ident(n) => Ident(f(n))
    case Void(x) => Void(RenameExpr(x, f))
    case LogicalNot(x) => LogicalNot(RenameExpr(x, f))
    case Member(x, p, computed) => Member(RenameExpr(x, f), p, computed)
    case Logical(op, l, r) => Logical(op, RenameExpr(l, f), RenameExpr(r, f))
    case Binary(op, l, r) => Binary(op, RenameExpr(l, f), RenameExpr(r, f))
    case Conditional(t, y, n) => Conditional(RenameExpr(t, f), RenameExpr(y, f), RenameExpr(n, f))
    case Assignment(simple, t, r) => Assignment(simple, if t.NameTarget? then NameTarget(f(t.name)) else t, RenameExpr(r, f))
    case Comma(x, es) => Comma(RenameExpr(x, f), RenameAll(es, f))
    case ObjectLit(ps) => ObjectLit(RenameProperties(ps, f))
    case Call(x, args) => Call(RenameExpr(x, f), RenameArguments(args, f))
    case New(x, args) => New(RenameExpr(x, f), RenameArguments(args, f))
    case FunctionExpr(fn) => FunctionExpr(RenameFunction(fn, f))
    case _ => e
  }

  function RenameAll(es: seq<Expr>, f: Renaming): (r: seq<Expr>)
    ensures |r| == |es|
    decreases es, 0
  {
    if es == [] then [] else [RenameExpr(es[0], f)] + RenameAll(es[1..], f)
  }

  function RenameArgument(a: Argument, f: Renaming): Argument
    decreases a, 4
  {
    match a case Plain(e) => Plain(RenameExpr(e, f)) case SpreadArgument => a
  }

  function RenameArguments(args: seq<Argument>, f: Renaming): (r: seq<Argument>)
    ensures |r| == |args|
    decreases args, 0
  {
    if args == [] then [] else [RenameArgument(args[0], f)] + RenameArguments(args[1..], f)
  }

  function RenameProperty(p: Property, f: Renaming): Property
    decreases p, 4
  {
    match p case Property(k, plain, e) => Property(k, plain, RenameExpr(e, f)) case SpreadProperty => p
  }

  function RenameProperties(ps: seq<Property>, f: Renaming): (r: seq<Property>)
    ensures |r| == |ps|
    decreases ps, 0
  {
    if ps == [] then [] else [RenameProperty(ps[0], f)] + RenameProperties(ps[1..], f)
  }

  function RenameOption(n: Option<string>, f: Renaming): Option<string> {
    match n case Some(x) => Some(f(x)) case None => None
  }

  function RenameParams(ps: seq<Param>, f: Renaming): (r: seq<Param>)
    ensures |r| == |ps|
    ensures forall i | 0 <= i < |ps| :: r[i] == Param(RenameOption(ps[i].name, f), ps[i].initialized)
  {
    seq(|ps|, i requires 0 <= i < |ps| => Param(RenameOption(ps[i].name, f), ps[i].initialized))
  }

  function RenameFunction(fn: Function, f: Renaming): Function
    decreases fn, 4
  {
    match fn case Function(name, isAsync, isGenerator, hasRest, params, body) =>
    Function(RenameOption(name, f), isAsync, isGenerator, hasRest, RenameParams(params, f), RenameStmts(body, f))
  }

  function RenameStmts(body: seq<Stmt>, f: Renaming): (r: seq<Stmt>)
    ensures |r| == |body|
    decreases body, 0
  {
    if body == [] then [] else [RenameStmt(body[0], f)] + RenameStmts(body[1..], f)
  }

  function RenameStmt(s: Stmt, f: Renaming): Stmt
    decreases s, 1
  {
    match s
    case VarDecl(isVar, ds) => VarDecl(isVar, RenameDeclarators(ds, f))
    case If(t, yes, no) => If(RenameExpr(t, f), RenameStmt(yes, f), match no case Some(x) => Some(RenameStmt(x, f)) case None => None)
    case Block(body) => Block(RenameStmts(body, f))
    case Return(v) => Return(match v case Some(e) => Some(RenameExpr(e, f)) case None => None)
    case ExprStmt(e) => ExprStmt(RenameExpr(e, f))
    case Throw(e) => Throw(RenameExpr(e, f))
    case OtherStmt => s
  }

  function RenameDeclarator(d: Declarator, f: Renaming): Declarator
    decreases d, 4
  {
    Declarator(RenameOption(d.name, f), match d.init case Some(e) => Some(RenameExpr(e, f)) case None => None)
  }

  function RenameDeclarators(ds: seq<Declarator>, f: Renaming): (r: seq<Declarator>)
    ensures |r| == |ds|
    decreases ds, 0
  {
    if ds == [] then [] else [RenameDeclarator(ds[0], f)] + RenameDeclarators(ds[1..], f)
  }

  function RenameNames(names: seq<string>, f: Renaming): (r: seq<string>)
    ensures |r| == |names| && forall i | 0 <= i < |names| :: r[i] == f(names[i])
  {
    seq(|names|, i requires 0 <= i < |names| => f(names[i]))
  }

  function RenameSet(names: set<string>, f: Renaming): set<string> {
    set n | n in names :: f(n)
  }

  // ---------------------------------------------------------------- the relation

  /** The same compiler state under the other spelling. */
  ghost predicate Respelt(s: Scope, t: Scope, f: Renaming) {
    && t == s.(locals := t.locals)
    && (forall n :: n in s.locals <==> f(n) in t.locals)
    && (forall n | n in s.locals :: t.locals[f(n)] == s.locals[n])
  }

  /** The same dialect under the other spelling: loaders and class renamed along. */
  ghost predicate RespeltDialect(c: Dialect, d: Dialect, f: Renaming) {
    && d == c.(receiver := d.receiver, requires_ := d.requires_)
    && d.receiver == f(c.receiver)
    && (forall n :: n in c.requires_ <==> f(n) in d.requires_)
  }

  /** Same output, or refused both times. */
  ghost predicate SameLowering<A>(a: Lowered<A>, b: Lowered<A>, f: Renaming) {
    match (a, b)
    case (Accepted(v, s), Accepted(w, t)) => v == w && Respelt(s, t, f)
    case (Refused(_), Refused(_)) => true
    case _ => false
  }

  ghost predicate Spelling(c: Dialect, d: Dialect, f: Renaming) {
    Injective(f) && RespeltDialect(c, d, f)
  }

  lemma {:induction false} UnparenRenamed(e: Expr, f: Renaming)
    ensures Unparen(RenameExpr(e, f)) == RenameExpr(Unparen(e), f)
    decreases e
  {
    if e.Paren? { UnparenRenamed(e.inner, f); }
  }

  lemma ModuleCallRenamed(e: Expr, f: Renaming)
    ensures ModuleCall(RenameExpr(e, f)) == match ModuleCall(e) case Some((l, m)) => Some((f(l), m)) case None => None
  {
    UnparenRenamed(e, f);
    var u := Unparen(e);
    if u.Call? {
      match u case Call(x, args) =>
      if |args| == 1 { assert RenameArguments(args, f) == [RenameArgument(args[0], f)]; }
    }
  }

  /** One name, on either side. */
  lemma NameSame(n: string, s: Scope, t: Scope, c: Dialect, d: Dialect, f: Renaming)
    requires Spelling(c, d, f) && Respelt(s, t, f)
    ensures (f(n) in d.requires_ <==> n in c.requires_) && (f(n) in t.locals <==> n in s.locals)
    ensures d.vocabulary == c.vocabulary && d.receiver == f(c.receiver)
  {
    hide Injective;
  }

  lemma ModuleSame(e: Expr, s: Scope, t: Scope, c: Dialect, d: Dialect, f: Renaming)
    requires Spelling(c, d, f) && Respelt(s, t, f)
    ensures Module(RenameExpr(e, f), t, d) == Module(e, s, c)
    ensures d.vocabulary == c.vocabulary
  {
    hide RenameExpr, ModuleCall, Spelling, Respelt;
    ModuleCallRenamed(e, f);
    NameSame(match ModuleCall(e) case Some((l, _)) => l case None => "", s, t, c, d, f);
  }

  // ---------------------------------------------------------------- expressions

  lemma {:induction false} ExprSame(e: Expr, s: Scope, t: Scope, c: Dialect, d: Dialect, f: Renaming)
    requires Spelling(c, d, f) && Respelt(s, t, f)
    ensures SameLowering(LowerExpr(e, s, c), LowerExpr(RenameExpr(e, f), t, d), f)
    decreases e, 3
  {
    hide Spelling, Respelt, LowerCall, LowerAll, LowerProperties, OrdinaryArray, Numeric, Module, HasEntry, RenameAll, RenameProperties, RenameArguments, RenameFunction;
    match e
    case Paren(x) => ExprSame(x, s, t, c, d, f);
    case Ident(n) => IdentSame(n, s, t, c, d, f);
    case NullLit =>
    case NumberLit(_) =>
    case StringLit(_) =>
    case Void(x) => VoidSame(x, f);
    case LogicalNot(x) => ExprSame(x, s, t, c, d, f);
    case Member(_, _, _) => MemberSame(e, s, t, c, d, f);
    case Logical(_, _, _) => LogicalSame(e, s, t, c, d, f);
    case Binary(_, _, _) => BinarySame(e, s, t, c, d, f);
    case Conditional(_, _, _) => ConditionalSame(e, s, t, c, d, f);
    case Assignment(_, _, _) => AssignmentSame(e, s, t, c, d, f);
    case Comma(_, _) => LogicalSame(e, s, t, c, d, f);
    case ObjectLit(ps) => PropertiesSame(ps, [], s, t, c, d, f);
    case Call(_, _) => CallSame(e, s, t, c, d, f);
    case New(_, _) =>
    case FunctionExpr(_) =>
    case OtherExpr =>
  }

  /** One expression after another. */
  lemma {:induction false} LogicalSame(e: Expr, s: Scope, t: Scope, c: Dialect, d: Dialect, f: Renaming)
    requires (e.Logical? || e.Comma?) && Spelling(c, d, f) && Respelt(s, t, f)
    ensures SameLowering(LowerExpr(e, s, c), LowerExpr(RenameExpr(e, f), t, d), f)
    decreases e, 2
  {
    hide Spelling, Respelt, LowerCall, LowerAll, LowerProperties, OrdinaryArray, Numeric, Module, HasEntry, RenameAll, RenameProperties, RenameArguments, RenameFunction;
    var first := if e.Logical? then e.left else e.first;
    ExprSame(first, s, t, c, d, f);
    var a, b := LowerExpr(first, s, c), LowerExpr(RenameExpr(first, f), t, d);
    if a.Accepted? {
      match e
      case Logical(_, _, r) => ExprSame(r, a.scope, b.scope, c, d, f);
      case Comma(_, es) => AllSame(es, a.scope, b.scope, c, d, f);
    }
  }

  lemma IdentSame(n: string, s: Scope, t: Scope, c: Dialect, d: Dialect, f: Renaming)
    requires Spelling(c, d, f) && Respelt(s, t, f)
    ensures n in s.locals <==> f(n) in t.locals
    ensures n in s.locals ==> s.locals[n] == t.locals[f(n)]
  {}

  lemma VoidSame(x: Expr, f: Renaming)
    ensures RenameExpr(x, f) == NumberLit(0.0) <==> x == NumberLit(0.0)
  {}

  lemma {:induction false} MemberSame(e: Expr, s: Scope, t: Scope, c: Dialect, d: Dialect, f: Renaming)
    requires e.Member? && Spelling(c, d, f) && Respelt(s, t, f)
    ensures SameLowering(LowerExpr(e, s, c), LowerExpr(RenameExpr(e, f), t, d), f)
    decreases e, 2
  {
    hide Spelling, Respelt, Module;
    match e case Member(base, _, _) =>
    ModuleSame(base, s, t, c, d, f);
    if base.Member? { ModuleSame(base.base, s, t, c, d, f); }
    ExprSame(base, s, t, c, d, f);
  }

  lemma AnalysesSame(v: Ir.E, s: Scope, t: Scope, c: Dialect, d: Dialect, f: Renaming)
    requires Spelling(c, d, f) && Respelt(s, t, f)
    ensures OrdinaryArray(v, t, d) == OrdinaryArray(v, s, c)
    ensures Numeric(v, t, d) == Numeric(v, s, c)
    ensures t.mapDepth == s.mapDepth && t.mapFloor == s.mapFloor && t.mutable == s.mutable && t.arrays == s.arrays && t.slots == s.slots
  {}

  lemma {:induction false} BinarySame(e: Expr, s: Scope, t: Scope, c: Dialect, d: Dialect, f: Renaming)
    requires e.Binary? && Spelling(c, d, f) && Respelt(s, t, f)
    ensures SameLowering(LowerExpr(e, s, c), LowerExpr(RenameExpr(e, f), t, d), f)
    decreases e, 2
  {
    hide Spelling, Respelt, Numeric;
    match e case Binary(op, l, r) =>
    assert RenameExpr(r, f).NullLit? <==> r.NullLit?;
    ExprSame(l, s, t, c, d, f);
    var a, b := LowerExpr(l, s, c), LowerExpr(RenameExpr(l, f), t, d);
    if a.Accepted? && op.GreaterThan? {
      ExprSame(r, a.scope, b.scope, c, d, f);
      var a2, b2 := LowerExpr(r, a.scope, c), LowerExpr(RenameExpr(r, f), b.scope, d);
      if a2.Accepted? {
        AnalysesSame(a.value, a2.scope, b2.scope, c, d, f);
        AnalysesSame(a2.value, a2.scope, b2.scope, c, d, f);
      }
    }
  }

  lemma {:induction false} ConditionalSame(e: Expr, s: Scope, t: Scope, c: Dialect, d: Dialect, f: Renaming)
    requires e.Conditional? && Spelling(c, d, f) && Respelt(s, t, f)
    ensures SameLowering(LowerExpr(e, s, c), LowerExpr(RenameExpr(e, f), t, d), f)
    decreases e, 2
  {
    hide Spelling, Respelt;
    match e case Conditional(x, y, z) =>
    ExprSame(x, s, t, c, d, f);
    var a, b := LowerExpr(x, s, c), LowerExpr(RenameExpr(x, f), t, d);
    if a.Accepted? {
      ExprSame(y, a.scope, b.scope, c, d, f);
      var a2, b2 := LowerExpr(y, a.scope, c), LowerExpr(RenameExpr(y, f), b.scope, d);
      if a2.Accepted? { ExprSame(z, a2.scope, b2.scope, c, d, f); }
    }
  }

  lemma {:induction false} AssignmentSame(e: Expr, s: Scope, t: Scope, c: Dialect, d: Dialect, f: Renaming)
    requires e.Assignment? && Spelling(c, d, f) && Respelt(s, t, f)
    ensures SameLowering(LowerExpr(e, s, c), LowerExpr(RenameExpr(e, f), t, d), f)
    decreases e, 2
  {
    hide Spelling, Respelt;
    match e case Assignment(_, target, r) =>
    ExprSame(r, s, t, c, d, f);
    AnalysesSame(Ir.NullLit, s, t, c, d, f);
    if target.NameTarget? { IdentSame(target.name, s, t, c, d, f); }
  }

  lemma {:induction false} AllSame(es: seq<Expr>, s: Scope, t: Scope, c: Dialect, d: Dialect, f: Renaming)
    requires Spelling(c, d, f) && Respelt(s, t, f)
    ensures SameLowering(LowerAll(es, s, c), LowerAll(RenameAll(es, f), t, d), f)
    decreases es, 0
  {
    hide Spelling, Respelt, LowerExpr, RenameExpr;
    if es != [] {
      ExprSame(es[0], s, t, c, d, f);
      assert RenameAll(es, f)[1..] == RenameAll(es[1..], f);
      var a, b := LowerExpr(es[0], s, c), LowerExpr(RenameExpr(es[0], f), t, d);
      if a.Accepted? { AllSame(es[1..], a.scope, b.scope, c, d, f); }
    }
  }

  lemma {:induction false} ArgumentSame(x: Argument, s: Scope, t: Scope, c: Dialect, d: Dialect, f: Renaming)
    requires Spelling(c, d, f) && Respelt(s, t, f)
    ensures SameLowering(LowerArgument(x, s, c), LowerArgument(RenameArgument(x, f), t, d), f)
    decreases x, 4
  {
    hide Spelling, Respelt, LowerExpr, RenameExpr;
    match x case Plain(e) => ExprSame(e, s, t, c, d, f); case SpreadArgument =>
  }

  lemma {:induction false} ArgumentsSame(args: seq<Argument>, s: Scope, t: Scope, c: Dialect, d: Dialect, f: Renaming)
    requires Spelling(c, d, f) && Respelt(s, t, f)
    ensures SameLowering(LowerArguments(args, s, c), LowerArguments(RenameArguments(args, f), t, d), f)
    decreases args, 0
  {
    hide Spelling, Respelt, LowerArgument, RenameArgument;
    if args != [] {
      ArgumentSame(args[0], s, t, c, d, f);
      assert RenameArguments(args, f)[1..] == RenameArguments(args[1..], f);
      var a, b := LowerArgument(args[0], s, c), LowerArgument(RenameArgument(args[0], f), t, d);
      if a.Accepted? { ArgumentsSame(args[1..], a.scope, b.scope, c, d, f); }
    }
  }

  lemma {:induction false} PropertySame(p: Property, entries: seq<Ir.Entry>, s: Scope, t: Scope, c: Dialect, d: Dialect, f: Renaming)
    requires Spelling(c, d, f) && Respelt(s, t, f)
    ensures SameLowering(LowerProperty(p, entries, s, c), LowerProperty(RenameProperty(p, f), entries, t, d), f)
    decreases p, 4
  {
    hide Spelling, Respelt, LowerExpr, RenameExpr, HasEntry;
    match p case Property(_, _, e) => ExprSame(e, s, t, c, d, f); case SpreadProperty =>
  }

  lemma {:induction false} PropertiesSame(ps: seq<Property>, entries: seq<Ir.Entry>, s: Scope, t: Scope, c: Dialect, d: Dialect, f: Renaming)
    requires Spelling(c, d, f) && Respelt(s, t, f)
    ensures SameLowering(LowerProperties(ps, entries, s, c), LowerProperties(RenameProperties(ps, f), entries, t, d), f)
    decreases ps, 0
  {
    hide Spelling, Respelt, LowerProperty;
    if ps != [] {
      PropertySame(ps[0], entries, s, t, c, d, f);
      assert RenameProperties(ps, f)[1..] == RenameProperties(ps[1..], f);
      var a, b := LowerProperty(ps[0], entries, s, c), LowerProperty(RenameProperty(ps[0], f), entries, t, d);
      if a.Accepted? {
        PropertiesSame(ps[1..], entries + [Ir.Entry(ps[0].key.value, a.value)], a.scope, b.scope, c, d, f);
      }
    }
  }

  lemma {:induction false} CallSame(e: Expr, s: Scope, t: Scope, c: Dialect, d: Dialect, f: Renaming)
    requires e.Call? && Spelling(c, d, f) && Respelt(s, t, f)
    ensures SameLowering(LowerCall(e, s, c), LowerCall(RenameExpr(e, f), t, d), f)
    decreases e, 2
  {
    hide Spelling, Respelt, Module, LowerMap, LowerArgument, LowerArguments;
    match e case Call(callee, arguments) =>
    if callee.Member? {
      match callee case Member(base, name, _) =>
      ModuleSame(base, s, t, c, d, f);
      if name == MAP {
        MapSame(e, s, t, c, d, f);
      } else if Module(base, s, c) == Some(c.vocabulary.decodeModule) && name == DECODE {
        DecoderSame(e, s, t, c, d, f);
      } else {
        NamedCallSame(e, s, t, c, d, f);
      }
    }
  }

  lemma {:induction false} DecoderSame(e: Expr, s: Scope, t: Scope, c: Dialect, d: Dialect, f: Renaming)
    requires e.Call? && e.callee.Member? && e.callee.property != MAP && e.callee.property == DECODE
    requires Spelling(c, d, f) && Respelt(s, t, f) && Module(e.callee.base, s, c) == Some(c.vocabulary.decodeModule)
    ensures SameLowering(LowerCall(e, s, c), LowerCall(RenameExpr(e, f), t, d), f)
    decreases e, 1
  {
    hide Spelling, Respelt, Module, LowerMap;
    match e case Call(callee, arguments) =>
    match callee case Member(base, name, _) =>
    ModuleSame(base, s, t, c, d, f);
    if |arguments| == 2 {
      assert arguments[1..][0] == arguments[1];
      assert RenameArguments(arguments, f) == [RenameArgument(arguments[0], f), RenameArgument(arguments[1], f)] by {
        assert RenameArguments(arguments[1..], f)[0] == RenameArgument(arguments[1], f);
      }
      ArgumentSame(arguments[1], s, t, c, d, f);
      if arguments[0].Plain? && arguments[0].expr.Member? {
        ModuleSame(arguments[0].expr.base, s, t, c, d, f);
      }
    }
  }

  lemma IdentRenamed(e: Expr, n: string, c: Dialect, d: Dialect, f: Renaming)
    requires Spelling(c, d, f)
    ensures RenameExpr(e, f) == Ident(f(n)) <==> e == Ident(n)
  {
    hide RespeltDialect, RenameAll, RenameProperties, RenameArguments, RenameFunction;
    if e.Ident? { assert f(e.name) == f(n) ==> e.name == n; }
  }

  lemma ReceiverSame(base: Expr, s: Scope, t: Scope, c: Dialect, d: Dialect, f: Renaming)
    requires Spelling(c, d, f) && Respelt(s, t, f)
    ensures RenameExpr(base, f) == Ident(d.receiver) <==> base == Ident(c.receiver)
    ensures d.receiver in t.locals <==> c.receiver in s.locals
    ensures d.vocabulary == c.vocabulary
  {
    hide *;
    NameSame(c.receiver, s, t, c, d, f);
    IdentRenamed(base, c.receiver, c, d, f);
  }

  lemma {:induction false} NamedCallSame(e: Expr, s: Scope, t: Scope, c: Dialect, d: Dialect, f: Renaming)
    requires e.Call? && e.callee.Member? && e.callee.property != MAP && Spelling(c, d, f) && Respelt(s, t, f)
    requires !(e.callee.property == DECODE && Module(e.callee.base, s, c) == Some(c.vocabulary.decodeModule))
    ensures SameLowering(LowerCall(e, s, c), LowerCall(RenameExpr(e, f), t, d), f)
    decreases e, 1
  {
    hide Spelling, Respelt, Module, LowerMap, LowerArguments;
    match e case Call(callee, arguments) =>
    match callee case Member(base, name, _) =>
    ModuleSame(base, s, t, c, d, f);
    ArgumentsSame(arguments, s, t, c, d, f);
    var a, b := LowerArguments(arguments, s, c), LowerArguments(RenameArguments(arguments, f), t, d);
    if a.Accepted? {
      ModuleSame(base, a.scope, b.scope, c, d, f);
      ReceiverSame(base, a.scope, b.scope, c, d, f);
    }
  }

  lemma {:induction false} MapSame(e: Expr, s: Scope, t: Scope, c: Dialect, d: Dialect, f: Renaming)
    requires e.Call? && e.callee.Member? && Spelling(c, d, f) && Respelt(s, t, f)
    ensures RenameExpr(e, f).Call? && RenameExpr(e, f).callee.Member?
    ensures SameLowering(LowerMap(e, s, c), LowerMap(RenameExpr(e, f), t, d), f)
    decreases e, 1
  {
    hide Spelling, Respelt, LowerExpr, OrdinaryArray, LowerCallback, CallbackRefusal, RenameFunction;
    match e case Call(callee, arguments) =>
    match callee case Member(base, _, _) =>
    if |arguments| == 1 {
      assert RenameArguments(arguments, f) == [RenameArgument(arguments[0], f)];
      match arguments[0]
      case SpreadArgument =>
      case Plain(callback) =>
        match callback
        case FunctionExpr(fn) =>
          RefusalSame(fn, f);
          AnalysesSame(Ir.NullLit, s, t, c, d, f);
          ExprSame(base, s, t, c, d, f);
          var a, b := LowerExpr(base, s, c), LowerExpr(RenameExpr(base, f), t, d);
          if a.Accepted? {
            AnalysesSame(a.value, a.scope, b.scope, c, d, f);
            if CallbackRefusal(fn).None? { CallbackSame(fn, a.scope, b.scope, c, d, f); }
          }
        case _ =>
    }
  }

  lemma RefusalSame(fn: Function, f: Renaming)
    ensures CallbackRefusal(RenameFunction(fn, f)).Some? <==> CallbackRefusal(fn).Some?
  {
    hide RenameStmts;
    var fn1 := RenameFunction(fn, f);
    if exists p | p in fn.params :: p.initialized {
      var i :| 0 <= i < |fn.params| && fn.params[i].initialized;
      assert fn1.params[i] in fn1.params && fn1.params[i].initialized;
    }
    if exists p | p in fn1.params :: p.initialized {
      var i :| 0 <= i < |fn1.params| && fn1.params[i].initialized;
      assert fn.params[i] in fn.params && fn.params[i].initialized;
    }
  }

  lemma {:induction false} CallbackSame(fn: Function, s: Scope, t: Scope, c: Dialect, d: Dialect, f: Renaming)
    requires CallbackRefusal(fn).None? && CallbackRefusal(RenameFunction(fn, f)).None? && Spelling(c, d, f) && Respelt(s, t, f)
    ensures SameLowering(LowerCallback(fn, s, c), LowerCallback(RenameFunction(fn, f), t, d), f)
    decreases fn, 4
  {
    match fn case Function(_, _, _, _, params, body) =>
    var p := params[0].name.value;
    hide Spelling, Respelt, EnterCallback, LeaveCallback, DeclareScope, LowerStmts, CallbackRefusal;
    EnterSame(p, s, t, c, d, f);
    var s0, t0 := EnterCallback(p, s), EnterCallback(f(p), t);
    DeclareScopeSame(body, s0, t0, c, d, f);
    var a, b := DeclareScope(body, s0), DeclareScope(RenameStmts(body, f), t0);
    if a.Accepted? {
      StmtsSame(body, a.scope, b.scope, c, d, f);
      var a2, b2 := LowerStmts(body, a.scope, c), LowerStmts(RenameStmts(body, f), b.scope, d);
      if a2.Accepted? { LeaveSame(s, t, a2.scope, b2.scope, f); }
    }
  }

  lemma EnterSame(p: string, s: Scope, t: Scope, c: Dialect, d: Dialect, f: Renaming)
    requires Spelling(c, d, f) && Respelt(s, t, f)
    ensures Respelt(EnterCallback(p, s), EnterCallback(f(p), t), f)
  {}

  lemma LeaveSame(s: Scope, t: Scope, s1: Scope, t1: Scope, f: Renaming)
    requires Respelt(s, t, f) && Respelt(s1, t1, f)
    ensures Respelt(LeaveCallback(s, s1), LeaveCallback(t, t1), f)
  {}

  // ---------------------------------------------------------------- declarations

  /** One more declared name, as both spellings see it. */
  ghost predicate SameDeclared(a: Lowered<set<string>>, b: Lowered<set<string>>, f: Renaming) {
    match (a, b)
    case (Accepted(v, s), Accepted(w, t)) => w == RenameSet(v, f) && Respelt(s, t, f)
    case (Refused(_), Refused(_)) => true
    case _ => false
  }

  function WithName(n: string, s: Scope): Scope {
    s.(locals := s.locals[n := Ir.Slot(s.slots)], slots := s.slots + 1)
  }

  predicate IsParameter(n: string, s: Scope) {
    n in s.locals && s.locals[n].Argument?
  }

  lemma DeclareStep(names: seq<string>, own: set<string>, again: set<string>, s: Scope)
    requires names != []
    ensures DeclareNames(names, own, again, s) ==
            if names[0] in own then DeclareNames(names[1..], own, again + {names[0]}, s)
            else if IsParameter(names[0], s) then Refused("parameter redeclaration is not qualified")
            else DeclareNames(names[1..], own + {names[0]}, again, WithName(names[0], s))
  {}

  lemma RespeltDeclare(n: string, s: Scope, t: Scope, f: Renaming)
    requires Injective(f) && Respelt(s, t, f)
    ensures Respelt(WithName(n, s), WithName(f(n), t), f)
    ensures IsParameter(n, s) <==> IsParameter(f(n), t)
  {}

  lemma RenameSetSpec(names: set<string>, n: string, f: Renaming)
    requires Injective(f)
    ensures f(n) in RenameSet(names, f) <==> n in names
    ensures RenameSet(names + {n}, f) == RenameSet(names, f) + {f(n)}
  {}

  lemma {:induction false} DeclareNamesSame(names: seq<string>, own: set<string>, again: set<string>, s: Scope, t: Scope, f: Renaming)
    requires Injective(f) && Respelt(s, t, f)
    ensures SameDeclared(DeclareNames(names, own, again, s), DeclareNames(RenameNames(names, f), RenameSet(own, f), RenameSet(again, f), t), f)
    decreases names
  {
    if names == [] {
      assert RenameNames(names, f) == [];
    } else {
      var n, rest := names[0], names[1..];
      assert RenameNames(names, f)[0] == f(n) && RenameNames(names, f)[1..] == RenameNames(rest, f);
      DeclareStep(names, own, again, s);
      DeclareStep(RenameNames(names, f), RenameSet(own, f), RenameSet(again, f), t);
      assert forall r1, r2 :: SameDeclared(Refused(r1), Refused(r2), f);
      hide *;
      RenameSetSpec(own, n, f);
      RenameSetSpec(again, n, f);
      RespeltDeclare(n, s, t, f);
      DeclareNamesSame(rest, own, again + {n}, s, t, f);
      DeclareNamesSame(rest, own + {n}, again, WithName(n, s), WithName(f(n), t), f);
    }
  }

  lemma SlotsOfSame(names: set<string>, s: Scope, t: Scope, f: Renaming)
    requires Injective(f) && Respelt(s, t, f)
    ensures SlotsOf(RenameSet(names, f), t.locals) == SlotsOf(names, s.locals)
  {
    forall i | i in SlotsOf(names, s.locals) ensures i in SlotsOf(RenameSet(names, f), t.locals) {
      var n :| n in names && n in s.locals && s.locals[n].Slot? && s.locals[n].index == i;
      assert f(n) in RenameSet(names, f);
    }
  }

  lemma MoreMutableSame(s: Scope, t: Scope, slots: set<nat>, f: Renaming)
    requires Respelt(s, t, f)
    ensures Respelt(s.(mutable := s.mutable + slots), t.(mutable := t.mutable + slots), f)
  {}

  lemma DeclareScopeSame(body: seq<Stmt>, s: Scope, t: Scope, c: Dialect, d: Dialect, f: Renaming)
    requires Spelling(c, d, f) && Respelt(s, t, f)
    ensures SameLowering(DeclareScope(body, s), DeclareScope(RenameStmts(body, f), t), f)
  {
    assert Injective(f);
    assert RenameSet({}, f) == {};
    hide VarNames, StmtsAssigned, RenameStmts, DeclareNames, SlotsOf, Spelling, Injective, RenameSet, Respelt, RenameNames;
    VarNamesRenamed(body, f);
    StmtsAssignedRenamed(body, f);
    var names := VarNames(body);
    DeclareNamesSame(names, {}, {}, s, t, f);
    var a, b := DeclareNames(names, {}, {}, s), DeclareNames(RenameNames(names, f), {}, {}, t);
    if a.Accepted? {
      SetParts(StmtsAssigned(body), a.value, f);
      SlotsOfSame(StmtsAssigned(body) + a.value, a.scope, b.scope, f);
      MoreMutableSame(a.scope, b.scope, SlotsOf(StmtsAssigned(body) + a.value, a.scope.locals), f);
    }
  }

  lemma {:induction false} VarNamesRenamed(body: seq<Stmt>, f: Renaming)
    ensures VarNames(RenameStmts(body, f)) == RenameNames(VarNames(body), f)
    decreases body, 0
  {
    if body != [] {
      StmtVarNamesRenamed(body[0], f);
      VarNamesRenamed(body[1..], f);
      assert RenameStmts(body, f)[1..] == RenameStmts(body[1..], f);
    }
  }

  lemma {:induction false} StmtVarNamesRenamed(st: Stmt, f: Renaming)
    ensures StmtVarNames(RenameStmt(st, f)) == RenameNames(StmtVarNames(st), f)
    decreases st, 1
  {
    hide RenameExpr;
    match st
    case VarDecl(_, ds) => DeclaratorNamesRenamed(ds, f);
    case If(_, yes, no) =>
      StmtVarNamesRenamed(yes, f);
      match no {
        case Some(x) => StmtVarNamesRenamed(x, f);
        case None =>
      }
    case Block(body) => VarNamesRenamed(body, f);
    case _ =>
  }

  lemma {:induction false} DeclaratorNamesRenamed(ds: seq<Declarator>, f: Renaming)
    ensures DeclaratorNames(RenameDeclarators(ds, f)) == RenameNames(DeclaratorNames(ds), f)
    decreases ds
  {
    hide RenameExpr;
    if ds != [] {
      DeclaratorNamesRenamed(ds[1..], f);
      assert RenameDeclarators(ds, f)[1..] == RenameDeclarators(ds[1..], f);
    }
  }

  lemma SetParts(a: set<string>, b: set<string>, f: Renaming)
    ensures RenameSet(a + b, f) == RenameSet(a, f) + RenameSet(b, f)
  {}

  lemma {:induction false} AssignedRenamed(e: Expr, f: Renaming)
    ensures Assigned(RenameExpr(e, f)) == RenameSet(Assigned(e), f)
    decreases e, 3
  {
    hide RenameFunction, RenameAll, RenameArguments, RenameProperties, AssignedAll, AssignedArguments, AssignedProperties;
    match e
    case Paren(x) => AssignedRenamed(x, f);
    case Void(x) => AssignedRenamed(x, f);
    case LogicalNot(x) => AssignedRenamed(x, f);
    case Member(x, _, _) => AssignedRenamed(x, f);
    case Logical(_, l, r) => AssignedRenamed(l, f); AssignedRenamed(r, f); SetParts(Assigned(l), Assigned(r), f);
    case Binary(_, l, r) => AssignedRenamed(l, f); AssignedRenamed(r, f); SetParts(Assigned(l), Assigned(r), f);
    case Conditional(t, y, n) =>
      AssignedRenamed(t, f); AssignedRenamed(y, f); AssignedRenamed(n, f);
      SetParts(Assigned(t), Assigned(y), f); SetParts(Assigned(t) + Assigned(y), Assigned(n), f);
    case Assignment(_, t, r) =>
      AssignedRenamed(r, f);
      SetParts(if t.NameTarget? then {t.name} else {}, Assigned(r), f);
      if t.NameTarget? { assert RenameSet({t.name}, f) == {f(t.name)}; }
    case Comma(x, es) => AssignedRenamed(x, f); AssignedAllRenamed(es, f); SetParts(Assigned(x), AssignedAll(es), f);
    case ObjectLit(ps) => AssignedPropertiesRenamed(ps, f);
    case Call(x, args) => AssignedRenamed(x, f); AssignedArgumentsRenamed(args, f); SetParts(Assigned(x), AssignedArguments(args), f);
    case New(x, args) => AssignedRenamed(x, f); AssignedArgumentsRenamed(args, f); SetParts(Assigned(x), AssignedArguments(args), f);
    case _ =>
  }

  lemma {:induction false} AssignedAllRenamed(es: seq<Expr>, f: Renaming)
    ensures AssignedAll(RenameAll(es, f)) == RenameSet(AssignedAll(es), f)
    decreases es, 0
  {
    hide RenameExpr, Assigned;
    if es != [] {
      AssignedRenamed(es[0], f); AssignedAllRenamed(es[1..], f);
      SetParts(Assigned(es[0]), AssignedAll(es[1..]), f);
      assert RenameAll(es, f)[1..] == RenameAll(es[1..], f);
    }
  }

  lemma {:induction false} AssignedArgumentsRenamed(args: seq<Argument>, f: Renaming)
    ensures AssignedArguments(RenameArguments(args, f)) == RenameSet(AssignedArguments(args), f)
    decreases args, 0
  {
    hide RenameExpr, Assigned;
    if args != [] {
      AssignedArgumentRenamed(args[0], f); AssignedArgumentsRenamed(args[1..], f);
      SetParts(AssignedArgument(args[0]), AssignedArguments(args[1..]), f);
      assert RenameArguments(args, f)[1..] == RenameArguments(args[1..], f);
    }
  }

  lemma {:induction false} AssignedArgumentRenamed(a: Argument, f: Renaming)
    ensures AssignedArgument(RenameArgument(a, f)) == RenameSet(AssignedArgument(a), f)
    decreases a, 4
  {
    hide RenameExpr, Assigned;
    match a case Plain(e) => AssignedRenamed(e, f); case SpreadArgument =>
  }

  lemma {:induction false} AssignedPropertiesRenamed(ps: seq<Property>, f: Renaming)
    ensures AssignedProperties(RenameProperties(ps, f)) == RenameSet(AssignedProperties(ps), f)
    decreases ps, 0
  {
    hide RenameExpr, Assigned;
    if ps != [] {
      AssignedPropertyRenamed(ps[0], f); AssignedPropertiesRenamed(ps[1..], f);
      SetParts(AssignedProperty(ps[0]), AssignedProperties(ps[1..]), f);
      assert RenameProperties(ps, f)[1..] == RenameProperties(ps[1..], f);
    }
  }

  lemma {:induction false} AssignedPropertyRenamed(p: Property, f: Renaming)
    ensures AssignedProperty(RenameProperty(p, f)) == RenameSet(AssignedProperty(p), f)
    decreases p, 4
  {
    hide RenameExpr, Assigned;
    match p case Property(_, _, e) => AssignedRenamed(e, f); case SpreadProperty =>
  }

  lemma {:induction false} StmtsAssignedRenamed(body: seq<Stmt>, f: Renaming)
    ensures StmtsAssigned(RenameStmts(body, f)) == RenameSet(StmtsAssigned(body), f)
    decreases body, 0
  {
    hide RenameStmt, StmtAssigned;
    if body != [] {
      StmtAssignedRenamed(body[0], f); StmtsAssignedRenamed(body[1..], f);
      SetParts(StmtAssigned(body[0]), StmtsAssigned(body[1..]), f);
      assert RenameStmts(body, f)[1..] == RenameStmts(body[1..], f);
    }
  }

  lemma {:induction false} StmtAssignedRenamed(st: Stmt, f: Renaming)
    ensures StmtAssigned(RenameStmt(st, f)) == RenameSet(StmtAssigned(st), f)
    decreases st, 1
  {
    hide RenameExpr, Assigned;
    match st
    case VarDecl(_, ds) => DeclaratorsAssignedRenamed(ds, f);
    case If(t, yes, no) =>
      AssignedRenamed(t, f); StmtAssignedRenamed(yes, f);
      var rest := match no case Some(n) => StmtAssigned(n) case None => {};
      match no { case Some(x) => StmtAssignedRenamed(x, f); case None => }
      SetParts(Assigned(t), StmtAssigned(yes), f); SetParts(Assigned(t) + StmtAssigned(yes), rest, f);
    case Block(body) => StmtsAssignedRenamed(body, f);
    case Return(v) => match v { case Some(e) => AssignedRenamed(e, f); case None => }
    case ExprStmt(e) => AssignedRenamed(e, f);
    case Throw(e) => AssignedRenamed(e, f);
    case OtherStmt =>
  }

  lemma {:induction false} DeclaratorsAssignedRenamed(ds: seq<Declarator>, f: Renaming)
    ensures DeclaratorsAssigned(RenameDeclarators(ds, f)) == RenameSet(DeclaratorsAssigned(ds), f)
    decreases ds, 0
  {
    hide RenameExpr, Assigned;
    if ds != [] {
      DeclaratorAssignedRenamed(ds[0], f); DeclaratorsAssignedRenamed(ds[1..], f);
      SetParts(DeclaratorAssigned(ds[0]), DeclaratorsAssigned(ds[1..]), f);
      assert RenameDeclarators(ds, f)[1..] == RenameDeclarators(ds[1..], f);
    }
  }

  lemma {:induction false} DeclaratorAssignedRenamed(x: Declarator, f: Renaming)
    ensures DeclaratorAssigned(RenameDeclarator(x, f)) == RenameSet(DeclaratorAssigned(x), f)
    decreases x, 4
  {
    hide RenameExpr, Assigned;
    match x.init case Some(e) => AssignedRenamed(e, f); case None =>
  }

  // ---------------------------------------------------------------- statements

  lemma {:induction false} StmtsSame(body: seq<Stmt>, s: Scope, t: Scope, c: Dialect, d: Dialect, f: Renaming)
    requires Spelling(c, d, f) && Respelt(s, t, f)
    ensures SameLowering(LowerStmts(body, s, c), LowerStmts(RenameStmts(body, f), t, d), f)
    decreases body, 0
  {
    hide Spelling, Respelt, LowerStmt, RenameStmt;
    if body != [] {
      StmtSame(body[0], s, t, c, d, f);
      assert RenameStmts(body, f)[1..] == RenameStmts(body[1..], f);
      var a, b := LowerStmt(body[0], s, c), LowerStmt(RenameStmt(body[0], f), t, d);
      if a.Accepted? { StmtsSame(body[1..], a.scope, b.scope, c, d, f); }
    }
  }

  lemma {:induction false} StmtSame(st: Stmt, s: Scope, t: Scope, c: Dialect, d: Dialect, f: Renaming)
    requires Spelling(c, d, f) && Respelt(s, t, f)
    ensures SameLowering(LowerStmt(st, s, c), LowerStmt(RenameStmt(st, f), t, d), f)
    decreases st, 1
  {
    hide Spelling, Respelt, LowerExpr, RenameExpr, LowerThrow;
    match st
    case VarDecl(isVar, ds) => DeclaratorsSame(ds, isVar, s, t, c, d, f);
    case If(test, yes, no) =>
      ExprSame(test, s, t, c, d, f);
      var a, b := LowerExpr(test, s, c), LowerExpr(RenameExpr(test, f), t, d);
      if a.Accepted? {
        StmtSame(yes, a.scope, b.scope, c, d, f);
        var a2, b2 := LowerStmt(yes, a.scope, c), LowerStmt(RenameStmt(yes, f), b.scope, d);
        if a2.Accepted? {
          match no {
            case Some(x) => StmtSame(x, a2.scope, b2.scope, c, d, f);
            case None =>
          }
        }
      }
    case Block(body) => StmtsSame(body, s, t, c, d, f);
    case Return(v) => match v { case Some(e) => ExprSame(e, s, t, c, d, f); case None => }
    case ExprStmt(e) => ExprSame(e, s, t, c, d, f);
    case Throw(e) => ThrowSame(e, s, t, c, d, f);
    case OtherStmt =>
  }

  function RenameFatal(p: FatalThrow, f: Renaming): FatalThrow {
    FatalThrow(RenameExpr(p.reporter, f), RenameExpr(p.metric, f), RenameExpr(p.context, f), RenameExpr(p.constructorOf, f), p.message)
  }

  lemma RenamedPair(args: seq<Argument>, f: Renaming)
    requires |args| == 2
    ensures RenameArguments(args, f) == [RenameArgument(args[0], f), RenameArgument(args[1], f)]
  {
    assert args[1..][0] == args[1];
    assert RenameArguments(args[1..], f)[0] == RenameArgument(args[1], f);
  }

  lemma RenamedReport(e: Expr, f: Renaming)
    requires e.Call?
    ensures var r := RenameExpr(e, f); r.Call? && (r.callee.Member? <==> e.callee.Member?) && |r.arguments| == |e.arguments|
    ensures var r := RenameExpr(e, f); e.callee.Member? ==>
              r.callee.property == e.callee.property && r.callee.base == RenameExpr(e.callee.base, f)
    ensures var r := RenameExpr(e, f); forall i | 0 <= i < |e.arguments| && |e.arguments| == 2 ::
              r.arguments[i] == RenameArgument(e.arguments[i], f)
  {
    if |e.arguments| == 2 { RenamedPair(e.arguments, f); }
  }

  lemma RenamedError(e: Expr, f: Renaming)
    requires e.New?
    ensures var r := RenameExpr(e, f); r.New? && (r.callee.Member? <==> e.callee.Member?) && |r.arguments| == |e.arguments|
    ensures var r := RenameExpr(e, f); e.callee.Member? ==>
              r.callee.property == e.callee.property && r.callee.base == RenameExpr(e.callee.base, f)
    ensures var r := RenameExpr(e, f); |e.arguments| == 1 ==> r.arguments[0] == RenameArgument(e.arguments[0], f)
  {
    if |e.arguments| == 1 { assert RenameArguments(e.arguments, f)[0] == RenameArgument(e.arguments[0], f); }
  }

  lemma PlainRenamed(a: Argument, f: Renaming)
    ensures RenameArgument(a, f).Plain? <==> a.Plain?
    ensures a.Plain? ==> RenameArgument(a, f).expr == RenameExpr(a.expr, f)
    ensures a.Plain? ==> (RenameExpr(a.expr, f).StringLit? <==> a.expr.StringLit?)
    ensures a.Plain? && a.expr.StringLit? ==> RenameExpr(a.expr, f) == a.expr
  {}

  lemma FatalPartsRenamed(e: Expr, f: Renaming)
    ensures FatalParts(RenameExpr(e, f)) == match FatalParts(e) case Some(p) => Some(RenameFatal(p, f)) case None => None
  {
    if e.Comma? {
      assert RenameExpr(e, f) == Comma(RenameExpr(e.first, f), RenameAll(e.rest, f));
      if |e.rest| == 1 {
        assert RenameAll(e.rest, f)[0] == RenameExpr(e.rest[0], f);
        assert RenameExpr(e.first, f).Call? <==> e.first.Call?;
        assert RenameExpr(e.rest[0], f).New? <==> e.rest[0].New?;
        if e.first.Call? && e.rest[0].New? {
          RenamedReport(e.first, f);
          RenamedError(e.rest[0], f);
          hide RenameExpr, RenameArgument;
          if |e.first.arguments| == 2 { PlainRenamed(e.first.arguments[0], f); PlainRenamed(e.first.arguments[1], f); }
          if |e.rest[0].arguments| == 1 { PlainRenamed(e.rest[0].arguments[0], f); }
        }
      }
    }
  }

  /** What compiling a recognised throw does with its parts. */
  lemma LowerThrowParts(e: Expr, p: FatalThrow, s: Scope, c: Dialect)
    requires FatalParts(e) == Some(p)
    ensures LowerThrow(e, s, c) == LowerFatal(p, s, c)
  {
    hide Module, LowerExpr;
  }

  function LowerFatal(p: FatalThrow, s: Scope, c: Dialect): Lowered<seq<Ir.S>> {
    if Module(p.reporter, s, c) != Some(c.vocabulary.metricModule) then Refused("unqualified fatal reporter")
    else
      var (metric, s1) :- LowerExpr(p.metric, s, c);
      var (context, s2) :- LowerExpr(p.context, s1, c);
      if context != Ir.ObjectOf([Ir.Entry(COLLECTION, Ir.Argument(0))]) then Refused("unsupported reporting context")
      else if Module(p.constructorOf, s2, c) != Some(c.vocabulary.errorModule) then Refused("unqualified fatal class")
      else Accepted([Ir.Fatal(metric, p.message)], s2)
  }

  lemma FatalSame(p: FatalThrow, s: Scope, t: Scope, c: Dialect, d: Dialect, f: Renaming)
    requires Spelling(c, d, f) && Respelt(s, t, f)
    requires SameLowering(LowerExpr(p.metric, s, c), LowerExpr(RenameExpr(p.metric, f), t, d), f)
    requires var a, b := LowerExpr(p.metric, s, c), LowerExpr(RenameExpr(p.metric, f), t, d);
      a.Accepted? ==> SameLowering(LowerExpr(p.context, a.scope, c), LowerExpr(RenameExpr(p.context, f), b.scope, d), f)
    ensures SameLowering(LowerFatal(p, s, c), LowerFatal(RenameFatal(p, f), t, d), f)
  {
    hide Spelling, Respelt, Module, LowerExpr, RenameExpr;
    ModuleSame(p.reporter, s, t, c, d, f);
    var a, b := LowerExpr(p.metric, s, c), LowerExpr(RenameExpr(p.metric, f), t, d);
    if a.Accepted? {
      var a2, b2 := LowerExpr(p.context, a.scope, c), LowerExpr(RenameExpr(p.context, f), b.scope, d);
      if a2.Accepted? { ModuleSame(p.constructorOf, a2.scope, b2.scope, c, d, f); }
    }
  }

  lemma UnfitThrow(e: Expr, s: Scope, c: Dialect)
    requires FatalParts(e).None?
    ensures LowerThrow(e, s, c).Refused?
  {
    hide Module, LowerExpr, FatalParts, ThrowRefusal;
  }

  lemma {:induction false} ThrowSame(e: Expr, s: Scope, t: Scope, c: Dialect, d: Dialect, f: Renaming)
    requires Spelling(c, d, f) && Respelt(s, t, f)
    ensures SameLowering(LowerThrow(e, s, c), LowerThrow(RenameExpr(e, f), t, d), f)
    decreases e, 4
  {
    FatalPartsRenamed(e, f);
    match FatalParts(e)
    case None =>
      UnfitThrow(e, s, c);
      UnfitThrow(RenameExpr(e, f), t, d);
    case Some(p) =>
      LowerThrowParts(e, p, s, c);
      LowerThrowParts(RenameExpr(e, f), RenameFatal(p, f), t, d);
      assert p.metric == e.first.arguments[0].expr && p.context == e.first.arguments[1].expr;
      hide Spelling, Respelt, Module, LowerExpr, RenameExpr, FatalParts, LowerThrow, LowerFatal;
      ExprSame(p.metric, s, t, c, d, f);
      var a, b := LowerExpr(p.metric, s, c), LowerExpr(RenameExpr(p.metric, f), t, d);
      if a.Accepted? { ExprSame(p.context, a.scope, b.scope, c, d, f); }
      FatalSame(p, s, t, c, d, f);
  }

  lemma {:induction false} DeclaratorsSame(ds: seq<Declarator>, isVar: bool, s: Scope, t: Scope, c: Dialect, d: Dialect, f: Renaming)
    requires Spelling(c, d, f) && Respelt(s, t, f)
    ensures SameLowering(LowerDeclarators(ds, isVar, s, c), LowerDeclarators(RenameDeclarators(ds, f), isVar, t, d), f)
    decreases ds, 0
  {
    hide Spelling, Respelt, LowerDeclarator, RenameDeclarator;
    if ds != [] {
      DeclaratorSame(ds[0], isVar, s, t, c, d, f);
      assert RenameDeclarators(ds, f)[1..] == RenameDeclarators(ds[1..], f);
      var a, b := LowerDeclarator(ds[0], isVar, s, c), LowerDeclarator(RenameDeclarator(ds[0], f), isVar, t, d);
      if a.Accepted? { DeclaratorsSame(ds[1..], isVar, a.scope, b.scope, c, d, f); }
    }
  }

  lemma MoreArraysSame(s: Scope, t: Scope, slot: nat, f: Renaming)
    requires Respelt(s, t, f)
    ensures Respelt(s.(arrays := s.arrays + {slot}), t.(arrays := t.arrays + {slot}), f)
  {}

  lemma {:induction false} DeclaratorSame(x: Declarator, isVar: bool, s: Scope, t: Scope, c: Dialect, d: Dialect, f: Renaming)
    requires Spelling(c, d, f) && Respelt(s, t, f)
    ensures SameLowering(LowerDeclarator(x, isVar, s, c), LowerDeclarator(RenameDeclarator(x, f), isVar, t, d), f)
    decreases x, 4
  {
    hide Spelling, Respelt, LowerExpr, RenameExpr, OrdinaryArray;
    if x.name.Some? {
      IdentSame(x.name.value, s, t, c, d, f);
      match x.init {
        case Some(e) =>
          ExprSame(e, s, t, c, d, f);
          var a, b := LowerExpr(e, s, c), LowerExpr(RenameExpr(e, f), t, d);
          if a.Accepted? {
            AnalysesSame(a.value, a.scope, b.scope, c, d, f);
            if x.name.value in s.locals && s.locals[x.name.value].Slot? { MoreArraysSame(a.scope, b.scope, s.locals[x.name.value].index, f); }
          }
        case None =>
      }
    }
  }

  // ---------------------------------------------------------------- whole validators

  ghost predicate RespeltLocals(a: map<string, Ir.E>, b: map<string, Ir.E>, f: Renaming) {
    (forall n :: n in a <==> f(n) in b) && forall n | n in a :: b[f(n)] == a[n]
  }

  lemma PutSame(a: map<string, Ir.E>, b: map<string, Ir.E>, x: string, v: Ir.E, f: Renaming)
    requires Injective(f) && RespeltLocals(a, b, f)
    ensures RespeltLocals(a[x := v], b[f(x) := v], f)
  {
    forall n ensures f(n) == f(x) <==> n == x {}
    hide Injective;
  }

  lemma {:induction false} ParamLocalsSame(params: seq<Param>, i: nat, f: Renaming)
    requires Injective(f) && i <= |params|
    ensures RespeltLocals(ParamLocals(params, i), ParamLocals(RenameParams(params, f), i), f)
  {
    hide *;
    var qs := RenameParams(params, f);
    if i == 0 {
      NoLocals(params, qs, f);
    } else {
      ParamLocalsSame(params, i - 1, f);
      ParamLocalsStep(params, i);
      ParamLocalsStep(qs, i);
      RenamedParam(params, i - 1, f);
      if params[i - 1].name.Some? {
        PutSame(ParamLocals(params, i - 1), ParamLocals(qs, i - 1), params[i - 1].name.value, Ir.Argument(i - 1), f);
      }
    }
  }

  lemma NoLocals(params: seq<Param>, qs: seq<Param>, f: Renaming)
    ensures RespeltLocals(ParamLocals(params, 0), ParamLocals(qs, 0), f)
  {}

  lemma ParamLocalsStep(params: seq<Param>, i: nat)
    requires 0 < i <= |params|
    ensures var before := ParamLocals(params, i - 1);
      ParamLocals(params, i) == if params[i - 1].name.Some? then before[params[i - 1].name.value := Ir.Argument(i - 1)] else before
  {}

  lemma RenamedParam(params: seq<Param>, i: nat, f: Renaming)
    requires i < |params|
    ensures |RenameParams(params, f)| == |params| && RenameParams(params, f)[i].name.Some? == params[i].name.Some?
    ensures params[i].name.Some? ==> RenameParams(params, f)[i].name == Some(f(params[i].name.value))
  {}

  lemma ParamChecksSame(params: seq<Param>, f: Renaming)
    ensures (exists p | p in params :: p.initialized || p.name.None?) <==>
            (exists p | p in RenameParams(params, f) :: p.initialized || p.name.None?)
  {
    var qs := RenameParams(params, f);
    if exists p | p in params :: p.initialized || p.name.None? {
      var i :| 0 <= i < |params| && (params[i].initialized || params[i].name.None?);
      assert qs[i] in qs;
    }
    if exists q | q in qs :: q.initialized || q.name.None? {
      var i :| 0 <= i < |qs| && (qs[i].initialized || qs[i].name.None?);
      assert params[i] in params;
    }
  }

  /** A validator and any injective respelling of it compile to the same program,
      or are both refused. */
  lemma LoweringIgnoresNames(fn: Function, c: Dialect, d: Dialect, f: Renaming)
    requires Injective(f) && RespeltDialect(c, d, f)
    ensures var a, b := LowerFunction(fn, c), LowerFunction(RenameFunction(fn, f), d);
      (a.Accepted? <==> b.Accepted?) && (a.Accepted? ==> a.value == b.value)
  {
    assert Spelling(c, d, f);
    SameQualified(fn, f);
    FunctionSteps(fn, c);
    FunctionSteps(RenameFunction(fn, f), d);
    StartsRespelt(fn.params, f);
    assert RenameFunction(fn, f).params == RenameParams(fn.params, f) && RenameFunction(fn, f).body == RenameStmts(fn.body, f);
    hide Spelling, Injective, RespeltDialect, Respelt, LowerStmts, RenameStmts, DeclareScope, StartScope, RenameParams, RenameFunction, LowerFunction, Qualified;
    var s, t := StartScope(fn.params), StartScope(RenameParams(fn.params, f));
    DeclareScopeSame(fn.body, s, t, c, d, f);
    var a, b := DeclareScope(fn.body, s), DeclareScope(RenameStmts(fn.body, f), t);
    if a.Accepted? { StmtsSame(fn.body, a.scope, b.scope, c, d, f); }
  }

  /** No refusal on the function's own form. */
  predicate Qualified(fn: Function) {
    fn.name.None? && !fn.isAsync && !fn.isGenerator && !fn.hasRest && !(exists p | p in fn.params :: p.initialized || p.name.None?)
  }

  lemma SameQualified(fn: Function, f: Renaming)
    ensures Qualified(RenameFunction(fn, f)) <==> Qualified(fn)
    ensures |RenameFunction(fn, f).params| == |fn.params|
  {
    hide RenameStmts, RenameParams;
    ParamChecksSame(fn.params, f);
  }

  lemma FunctionSteps(fn: Function, c: Dialect)
    ensures !Qualified(fn) ==> LowerFunction(fn, c).Refused?
    ensures Qualified(fn) ==>
      var declared := DeclareScope(fn.body, StartScope(fn.params));
      LowerFunction(fn, c).Accepted? <==> declared.Accepted? && LowerStmts(fn.body, declared.scope, c).Accepted?
    ensures Qualified(fn) && LowerFunction(fn, c).Accepted? ==>
      var declared := DeclareScope(fn.body, StartScope(fn.params));
      declared.Accepted? && LowerStmts(fn.body, declared.scope, c).Accepted? &&
      LowerFunction(fn, c).value == Ir.Program(|fn.params|, LowerStmts(fn.body, declared.scope, c).value)
  {
    hide LowerStmts, DeclareScope, ParamLocals;
  }

  function StartScope(params: seq<Param>): Scope {
    Scope(ParamLocals(params, |params|), 0, 0, 0, {}, {})
  }

  lemma StartsRespelt(params: seq<Param>, f: Renaming)
    requires Injective(f)
    ensures Respelt(StartScope(params), StartScope(RenameParams(params, f)), f)
  {
    hide ParamLocals, RenameParams;
    ParamLocalsSame(params, |params|, f);
  }
}
