/** Renaming by a finite table: declared names take new ones, everything else stays. */
module LoweringRespelt {
  import opened Values
  import opened Script
  import opened Lowering
  import opened LoweringNames
  import Ir

  // ---------------------------------------------------------------- identifiers of a validator

  function NameSet(n: Option<string>): set<string> {
    match n case Some(x) => {x} case None => {}
  }

  function ExprNames(e: Expr): set<string>
    decreases e, 3
  {
    match e
    case Paren(x) => ExprNames(x)
    case Ident(n) => {n}
    case Void(x) => ExprNames(x)
    case LogicalNot(x) => ExprNames(x)
    case Member(x, _, _) => ExprNames(x)
    case Logical(_, l, r) => ExprNames(l) + ExprNames(r)
    case Binary(_, l, r) => ExprNames(l) + ExprNames(r)
    case Conditional(t, y, n) => ExprNames(t) + ExprNames(y) + ExprNames(n)
    case Assignment(_, t, r) => (if t.NameTarget? then {t.name} else {}) + ExprNames(r)
    case Comma(x, es) => ExprNames(x) + AllNames(es)
    case ObjectLit(ps) => PropertiesNames(ps)
    case Call(x, args) => ExprNames(x) + ArgumentsNames(args)
    case New(x, args) => ExprNames(x) + ArgumentsNames(args)
    case FunctionExpr(fn) => FunctionNames(fn)
    case _ => {}
  }

  function AllNames(es: seq<Expr>): set<string>
    decreases es, 0
  {
    if es == [] then {} else ExprNames(es[0]) + AllNames(es[1..])
  }

  function ArgumentNames(a: Argument): set<string>
    decreases a, 4
  {
    match a case Plain(e) => ExprNames(e) case SpreadArgument => {}
  }

  function ArgumentsNames(args: seq<Argument>): set<string>
    decreases args, 0
  {
    if args == [] then {} else ArgumentNames(args[0]) + ArgumentsNames(args[1..])
  }

  function PropertyNames(p: Property): set<string>
    decreases p, 4
  {
    match p case Property(_, _, e) => ExprNames(e) case SpreadProperty => {}
  }

  function PropertiesNames(ps: seq<Property>): set<string>
    decreases ps, 0
  {
    if ps == [] then {} else PropertyNames(ps[0]) + PropertiesNames(ps[1..])
  }

  function ParamsNames(ps: seq<Param>): set<string> {
    set i | 0 <= i < |ps| && ps[i].name.Some? :: ps[i].name.value
  }

  /** Every identifier a function mentions: its own, its parameters, its locals, and the
      free ones it uses. */
  function FunctionNames(fn: Function): set<string>
    decreases fn, 4
  {
    match fn case Function(name, _, _, _, params, body) => NameSet(name) + ParamsNames(params) + StmtsNames(body)
  }

  function StmtsNames(body: seq<Stmt>): set<string>
    decreases body, 0
  {
    if body == [] then {} else StmtNames(body[0]) + StmtsNames(body[1..])
  }

  function StmtNames(s: Stmt): set<string>
    decreases s, 1
  {
    match s
    case VarDecl(_, ds) => DeclaratorsNames(ds)
    case If(t, yes, no) => ExprNames(t) + StmtNames(yes) + (match no case Some(x) => StmtNames(x) case None => {})
    case Block(body) => StmtsNames(body)
    case Return(v) => (match v case Some(e) => ExprNames(e) case None => {})
    case ExprStmt(e) => ExprNames(e)
    case Throw(e) => ExprNames(e)
    case OtherStmt => {}
  }

  function DeclaratorSet(d: Declarator): set<string>
    decreases d, 4
  {
    NameSet(d.name) + (match d.init case Some(e) => ExprNames(e) case None => {})
  }

  function DeclaratorsNames(ds: seq<Declarator>): set<string>
    decreases ds, 0
  {
    if ds == [] then {} else DeclaratorSet(ds[0]) + DeclaratorsNames(ds[1..])
  }

  // ---------------------------------------------------------------- only those matter

  ghost predicate AgreeOn(names: set<string>, f: Renaming, g: Renaming) {
    forall n | n in names :: f(n) == g(n)
  }

  lemma {:induction false} ExprAgree(e: Expr, f: Renaming, g: Renaming)
    requires AgreeOn(ExprNames(e), f, g)
    ensures RenameExpr(e, f) == RenameExpr(e, g)
    decreases e, 3
  {
    match e
    case Paren(x) => ExprAgree(x, f, g);
    case Ident(n) =>
    case Void(x) => ExprAgree(x, f, g);
    case LogicalNot(x) => ExprAgree(x, f, g);
    case Member(x, _, _) => ExprAgree(x, f, g);
    case Logical(_, l, r) => ExprAgree(l, f, g); ExprAgree(r, f, g);
    case Binary(_, l, r) => ExprAgree(l, f, g); ExprAgree(r, f, g);
    case Conditional(t, y, n) => ExprAgree(t, f, g); ExprAgree(y, f, g); ExprAgree(n, f, g);
    case Assignment(_, t, r) => ExprAgree(r, f, g);
    case Comma(x, es) => ExprAgree(x, f, g); AllAgree(es, f, g);
    case ObjectLit(ps) => PropertiesAgree(ps, f, g);
    case Call(x, args) => ExprAgree(x, f, g); ArgumentsAgree(args, f, g);
    case New(x, args) => ExprAgree(x, f, g); ArgumentsAgree(args, f, g);
    case FunctionExpr(fn) => FunctionAgree(fn, f, g);
    case _ =>
  }

  lemma {:induction false} AllAgree(es: seq<Expr>, f: Renaming, g: Renaming)
    requires AgreeOn(AllNames(es), f, g)
    ensures RenameAll(es, f) == RenameAll(es, g)
    decreases es, 0
  {
    if es != [] { ExprAgree(es[0], f, g); AllAgree(es[1..], f, g); }
  }

  lemma {:induction false} ArgumentsAgree(args: seq<Argument>, f: Renaming, g: Renaming)
    requires AgreeOn(ArgumentsNames(args), f, g)
    ensures RenameArguments(args, f) == RenameArguments(args, g)
    decreases args, 0
  {
    if args != [] {
      ArgumentAgree(args[0], f, g);
      ArgumentsAgree(args[1..], f, g);
    }
  }

  lemma {:induction false} ArgumentAgree(a: Argument, f: Renaming, g: Renaming)
    requires AgreeOn(ArgumentNames(a), f, g)
    ensures RenameArgument(a, f) == RenameArgument(a, g)
    decreases a, 4
  {
    if a.Plain? { ExprAgree(a.expr, f, g); }
  }

  lemma {:induction false} PropertiesAgree(ps: seq<Property>, f: Renaming, g: Renaming)
    requires AgreeOn(PropertiesNames(ps), f, g)
    ensures RenameProperties(ps, f) == RenameProperties(ps, g)
    decreases ps, 0
  {
    if ps != [] {
      PropertyAgree(ps[0], f, g);
      PropertiesAgree(ps[1..], f, g);
    }
  }

  lemma {:induction false} PropertyAgree(p: Property, f: Renaming, g: Renaming)
    requires AgreeOn(PropertyNames(p), f, g)
    ensures RenameProperty(p, f) == RenameProperty(p, g)
    decreases p, 4
  {
    match p case Property(_, _, e) => ExprAgree(e, f, g); case SpreadProperty =>
  }

  lemma ParamsAgree(ps: seq<Param>, f: Renaming, g: Renaming)
    requires AgreeOn(ParamsNames(ps), f, g)
    ensures RenameParams(ps, f) == RenameParams(ps, g)
  {
    forall i | 0 <= i < |ps| ensures RenameOption(ps[i].name, f) == RenameOption(ps[i].name, g) {
      if ps[i].name.Some? { assert ps[i].name.value in ParamsNames(ps); }
    }
  }

  lemma {:induction false} FunctionAgree(fn: Function, f: Renaming, g: Renaming)
    requires AgreeOn(FunctionNames(fn), f, g)
    ensures RenameFunction(fn, f) == RenameFunction(fn, g)
    decreases fn, 4
  {
    match fn case Function(name, _, _, _, params, body) =>
    ParamsAgree(params, f, g);
    StmtsAgree(body, f, g);
  }

  lemma {:induction false} StmtsAgree(body: seq<Stmt>, f: Renaming, g: Renaming)
    requires AgreeOn(StmtsNames(body), f, g)
    ensures RenameStmts(body, f) == RenameStmts(body, g)
    decreases body, 0
  {
    if body != [] { StmtAgree(body[0], f, g); StmtsAgree(body[1..], f, g); }
  }

  lemma {:induction false} StmtAgree(s: Stmt, f: Renaming, g: Renaming)
    requires AgreeOn(StmtNames(s), f, g)
    ensures RenameStmt(s, f) == RenameStmt(s, g)
    decreases s, 1
  {
    match s
    case VarDecl(_, ds) => DeclaratorsAgree(ds, f, g);
    case If(t, yes, no) =>
      ExprAgree(t, f, g);
      StmtAgree(yes, f, g);
      match no { case Some(x) => StmtAgree(x, f, g); case None => }
    case Block(body) => StmtsAgree(body, f, g);
    case Return(v) => match v { case Some(e) => ExprAgree(e, f, g); case None => }
    case ExprStmt(e) => ExprAgree(e, f, g);
    case Throw(e) => ExprAgree(e, f, g);
    case OtherStmt =>
  }

  lemma {:induction false} DeclaratorsAgree(ds: seq<Declarator>, f: Renaming, g: Renaming)
    requires AgreeOn(DeclaratorsNames(ds), f, g)
    ensures RenameDeclarators(ds, f) == RenameDeclarators(ds, g)
    decreases ds, 0
  {
    if ds != [] {
      DeclaratorAgree(ds[0], f, g);
      DeclaratorsAgree(ds[1..], f, g);
    }
  }

  lemma {:induction false} DeclaratorAgree(d: Declarator, f: Renaming, g: Renaming)
    requires AgreeOn(DeclaratorSet(d), f, g)
    ensures RenameDeclarator(d, f) == RenameDeclarator(d, g)
    decreases d, 4
  {
    if d.init.Some? { ExprAgree(d.init.value, f, g); }
  }

  // ---------------------------------------------------------------- from a table to a renaming

  function Applied(m: map<string, string>): Renaming {
    n => if n in m then m[n] else n
  }

  predicate OneToOne(m: map<string, string>) {
    forall x, y | x in m && y in m && m[x] == m[y] :: x == y
  }

  function Swap(a: string, b: string, n: string): string {
    if n == a then b else if n == b then a else n
  }

  function Same(n: string): string {
    n
  }

  function After(g: Renaming, a: string, b: string): Renaming {
    n => Swap(a, b, g(n))
  }

  lemma SwapTwice(a: string, b: string, n: string)
    ensures Swap(a, b, Swap(a, b, n)) == n
  {}

  lemma AfterInjective(g: Renaming, a: string, b: string)
    requires Injective(g)
    ensures Injective(After(g, a, b))
  {
    forall u, v | After(g, a, b)(u) == After(g, a, b)(v) ensures u == v {
      SwapTwice(a, b, g(u));
      SwapTwice(a, b, g(v));
      assert g(u) == g(v);
    }
  }

  /** A one-to-one table is part of a renaming that is one-to-one everywhere. */
  lemma {:induction false} Extend(m: map<string, string>) returns (f: Renaming)
    requires OneToOne(m)
    ensures Injective(f) && forall x | x in m :: f(x) == m[x]
    decreases |m|
  {
    hide *;
    if m == map[] {
      f := Same;
      SameInjective();
    } else {
      var x :| x in m;
      FewerKeys(m, x);
      var g := Extend(m - {x});
      f := After(g, g(x), m[x]);
      AfterInjective(g, g(x), m[x]);
      AfterFits(m, g, x);
    }
  }

  lemma SameInjective()
    ensures Injective(Same)
  {}

  lemma FewerKeys(m: map<string, string>, x: string)
    requires x in m && OneToOne(m)
    ensures |m - {x}| < |m| && OneToOne(m - {x}) && forall u | u in m && u != x :: u in m - {x} && (m - {x})[u] == m[u]
  {
    var less := m - {x};
    assert less.Keys == m.Keys - {x};
    assert |less| == |less.Keys| && |m| == |m.Keys|;
  }

  lemma AfterFits(m: map<string, string>, g: Renaming, x: string)
    requires OneToOne(m) && Injective(g) && x in m && forall u | u in m && u != x :: g(u) == m[u]
    ensures forall u | u in m :: After(g, g(x), m[x])(u) == m[u]
  {
    hide *;
    forall u | u in m ensures After(g, g(x), m[x])(u) == m[u] {
      Apart(m, g, u, x);
      AfterAt(g, x, m[x], u);
    }
  }

  lemma Apart(m: map<string, string>, g: Renaming, u: string, x: string)
    requires OneToOne(m) && Injective(g) && x in m && u in m
    ensures u != x ==> g(u) != g(x) && m[u] != m[x]
  {}

  lemma AfterAt(g: Renaming, x: string, y: string, u: string)
    ensures u == x ==> After(g, g(x), y)(u) == y
    ensures g(u) != g(x) && g(u) != y ==> After(g, g(x), y)(u) == g(u)
  {}

  /** What keeps a table from capturing anything: one-to-one, no new name one that stays in
      use, and loaders and class left alone. */
  predicate Fresh(m: map<string, string>, names: set<string>, c: Dialect) {
    OneToOne(m) && (forall n | n in m && m[n] in names :: m[n] in m) &&
    forall l | l in c.requires_ + {c.receiver} :: l !in m && l !in m.Values
  }

  /** Minifying declared names by a one-to-one table, free names, loaders and class
      untouched, gives the same program or the same refusal. */
  lemma LoweringIgnoresTables(fn: Function, c: Dialect, m: map<string, string>)
    requires Fresh(m, FunctionNames(fn), c)
    ensures var a, b := LowerFunction(fn, c), LowerFunction(RenameFunction(fn, Applied(m)), c);
      (a.Accepted? <==> b.Accepted?) && (a.Accepted? ==> a.value == b.value)
  {
    hide LowerFunction, RenameFunction, FunctionNames;
    var kept := FunctionNames(fn) + c.requires_ + {c.receiver};
    var all := map n | n in kept + m.Keys :: Applied(m)(n);
    StillOneToOne(m, FunctionNames(fn), c, all);
    var f := Extend(all);
    FunctionAgree(fn, f, Applied(m));
    forall n ensures n in c.requires_ <==> f(n) in c.requires_ {
      if f(n) in c.requires_ { assert f(f(n)) == f(n); }
    }
    LoweringIgnoresNames(fn, c, c, f);
  }

  lemma StillOneToOne(m: map<string, string>, names: set<string>, c: Dialect, all: map<string, string>)
    requires Fresh(m, names, c)
    requires all == map n | n in names + c.requires_ + {c.receiver} + m.Keys :: Applied(m)(n)
    ensures OneToOne(all)
    ensures forall l | l in c.requires_ + {c.receiver} :: l in all && all[l] == l
  {
    forall x, y | x in all && y in all && all[x] == all[y] ensures x == y {
      if x in m { assert m[x] in m.Values; }
      if y in m { assert m[y] in m.Values; }
    }
  }

  // ---------------------------------------------------------------- one table per callback is another matter

  lemma {:induction false} DeclareNamesRefuses(names: seq<string>, own: set<string>, again: set<string>, s: Scope)
    requires forall n | n in own :: !IsParameter(n, s)
    ensures DeclareNames(names, own, again, s).Refused? <==> exists n :: n in names && IsParameter(n, s)
    decreases |names|
  {
    if names != [] {
      var n, rest := names[0], names[1..];
      DeclareStep(names, own, again, s);
      assert forall x :: x in names <==> x == n || x in rest;
      hide DeclareNames;
      if n in own {
        DeclareNamesRefuses(rest, own, again + {n}, s);
      } else if !IsParameter(n, s) {
        DeclareNamesRefuses(rest, own + {n}, again, WithName(n, s));
        assert forall x :: IsParameter(x, WithName(n, s)) <==> IsParameter(x, s);
      }
    }
  }

  /** A body's declarations are refused exactly when one is spelled like a parameter in
      sight, the callback's own or an enclosing one, whether or not the body mentions it. */
  lemma DeclareScopeRefuses(body: seq<Stmt>, s: Scope)
    ensures DeclareScope(body, s).Refused? <==> exists n :: n in VarNames(body) && IsParameter(n, s)
  {
    DeclareNamesRefuses(VarNames(body), {}, {}, s);
  }

  /** `function (a, b) { return b.map(function (x) { var <local> = x; return <local>; }); }` */
  function Wrapping(local: string): Function {
    var body := [VarDecl(true, [Declarator(Some(local), Some(Ident("x")))]), Stmt.Return(Some(Ident(local)))];
    var callback := Function(None, false, false, false, [Param(Some("x"), false)], body);
    Function(None, false, false, false, [Param(Some("a"), false), Param(Some("b"), false)],
             [Stmt.Return(Some(Call(Member(Ident("b"), MAP, false), [Plain(FunctionExpr(callback))])))])
  }

  const WRAPPED := [Ir.Bind(0, Ir.Argument(Ir.ITEM)), Ir.Return(Ir.Slot(0))]

  function WrappingScope(): Scope {
    Scope(map["a" := Ir.Argument(0), "b" := Ir.Argument(1)], 0, 0, 0, {}, {})
  }

  lemma WrappingStarts(local: string)
    ensures var fn := Wrapping(local);
      StartScope(fn.params) == WrappingScope() && DeclareScope(fn.body, WrappingScope()) == Accepted((), WrappingScope())
  {
    var fn, s := Wrapping(local), WrappingScope();
    assert ParamLocals(fn.params, 1) == map["a" := Ir.Argument(0)] by { assert ParamLocals(fn.params, 0) == map[]; }
    assert ParamLocals(fn.params, 2) == s.locals;
    assert fn.body[1..] == [];
    var call := fn.body[0].value.value;
    assert call.arguments[1..] == [] && AssignedArguments([]) == {};
    assert Assigned(call.arguments[0].expr) == {} && Assigned(Ident("b")) == {};
    assert AssignedArguments(call.arguments) == AssignedArgument(call.arguments[0]) + {};
    assert Assigned(call.callee) == Assigned(Ident("b"));
    assert StmtAssigned(fn.body[0]) == Assigned(call) && StmtsAssigned([]) == {};
    assert StmtsAssigned(fn.body) == StmtAssigned(fn.body[0]) + StmtsAssigned(fn.body[1..]);
    assert StmtVarNames(fn.body[0]) == [] && VarNames([]) == [];
    assert VarNames(fn.body) == [] + VarNames(fn.body[1..]);
    hide StmtsAssigned, VarNames;
    assert DeclareNames([], {}, {}, s) == Accepted({}, s);
  }

  /** The scope of the callback's body once its local is declared. */
  function WrappedScope(local: string): Scope {
    var s := EnterCallback("x", WrappingScope());
    s.(locals := s.locals[local := Ir.Slot(0)], slots := 1)
  }

  lemma WrappedStarts(local: string)
    ensures var body := Wrapping(local).body[0].value.value.arguments[0].expr.fn.body;
      DeclareScope(body, EnterCallback("x", WrappingScope())) ==
      if local in {"a", "b", "x"} then Refused("parameter redeclaration is not qualified") else Accepted((), WrappedScope(local))
  {
    var body := Wrapping(local).body[0].value.value.arguments[0].expr.fn.body;
    var s := EnterCallback("x", WrappingScope());
    var d := body[0].declarators;
    assert body[1..][1..] == [] && d[1..] == [] && DeclaratorNames(d) == [local] + DeclaratorNames(d[1..]);
    assert StmtVarNames(body[0]) == [local] && VarNames(body[1..]) == [] + VarNames(body[1..][1..]);
    assert VarNames(body) == StmtVarNames(body[0]) + VarNames(body[1..]);
    assert StmtsAssigned(body) == {} by {
      assert StmtsAssigned(body[1..]) == StmtAssigned(body[1]) + StmtsAssigned(body[1..][1..]);
      assert DeclaratorsAssigned(d) == DeclaratorAssigned(d[0]) + DeclaratorsAssigned(d[1..]);
    }
    hide VarNames, StmtsAssigned;
    assert [local][1..] == [] && s.slots == 0;
    assert IsParameter(local, s) <==> local in {"a", "b", "x"};
    DeclareStep([local], {}, {}, s);
    assert DeclareNames([], {local}, {}, WithName(local, s)) == Accepted({}, WithName(local, s));
    assert SlotsOf({}, WithName(local, s).locals) == {};
  }

  lemma WrappedBody(local: string, c: Dialect)
    requires local !in {"a", "b", "x"}
    ensures var body := Wrapping(local).body[0].value.value.arguments[0].expr.fn.body;
      LowerStmts(body, WrappedScope(local), c) == Accepted(WRAPPED, WrappedScope(local))
  {
    var body := Wrapping(local).body[0].value.value.arguments[0].expr.fn.body;
    var s := WrappedScope(local);
    var d := body[0].declarators;
    assert LowerExpr(Ident("x"), s, c) == Accepted(Ir.Argument(Ir.ITEM), s);
    assert LowerDeclarator(d[0], true, s, c) == Accepted(Ir.Bind(0, Ir.Argument(Ir.ITEM)), s);
    assert d[1..] == [] && LowerDeclarators(d[1..], true, s, c) == Accepted([], s);
    var bind, back := [Ir.Bind(0, Ir.Argument(Ir.ITEM))], [Ir.Return(Ir.Slot(0))];
    assert bind + [] == bind && back + [] == back && WRAPPED == bind + back;
    assert LowerStmt(body[0], s, c) == Accepted(bind, s);
    assert LowerStmt(body[1], s, c) == Accepted(back, s);
    assert body[1..][0] == body[1] && body[1..][1..] == [] && LowerStmts([], s, c) == Accepted([], s);
    hide LowerStmt, WrappedScope, Wrapping;
    assert LowerStmts(body[1..], s, c) == Accepted(back, s);
    assert LowerStmts(body, s, c) == Accepted(bind + back, s);
  }

  lemma WrappedCallback(local: string, c: Dialect)
    ensures LowerCallback(Wrapping(local).body[0].value.value.arguments[0].expr.fn, WrappingScope(), c) ==
      if local in {"a", "b", "x"} then Refused("parameter redeclaration is not qualified")
      else Accepted(WRAPPED, LeaveCallback(WrappingScope(), WrappedScope(local)))
  {
    WrappedStarts(local);
    if local !in {"a", "b", "x"} { WrappedBody(local, c); }
    hide DeclareScope, LowerStmts, WrappedScope;
  }

  lemma WrappedMap(local: string, c: Dialect)
    requires c.arrayArgument
    ensures var low := LowerExpr(Wrapping(local).body[0].value.value, WrappingScope(), c);
      if local in {"a", "b", "x"} then low.Refused?
      else low.Accepted? && low.value == Ir.Map(Ir.Argument(1), WRAPPED)
  {
    WrappedCallback(local, c);
    var call, s := Wrapping(local).body[0].value.value, WrappingScope();
    assert LowerExpr(Ident("b"), s, c) == Accepted(Ir.Argument(1), s);
    assert CallbackRefusal(call.arguments[0].expr.fn).None?;
    MapIsLowered(call, s, c);
    hide LowerCallback, WrappedScope, CallbackRefusal, LowerExpr;
  }

  lemma MapIsLowered(call: Expr, s: Scope, c: Dialect)
    requires call.Call? && call.callee.Member? && call.callee.property == MAP
    ensures LowerExpr(call, s, c) == LowerMap(call, s, c)
  {
    hide LowerMap, Module;
  }

  lemma OneReturn(e: Expr, s: Scope, c: Dialect)
    ensures var low := LowerStmts([Stmt.Return(Some(e))], s, c);
      if LowerExpr(e, s, c).Refused? then low.Refused?
      else low.Accepted? && low.value == [Ir.Return(LowerExpr(e, s, c).value)]
  {
    hide LowerExpr;
    var body := [Stmt.Return(Some(e))];
    assert body[1..] == [];
  }

  /** So the spelling of a callback's local does show: all spellings give one program,
      except those of the three parameters, which are refused. */
  lemma LocalLikeParameterIsRefused(local: string, c: Dialect)
    requires c.arrayArgument
    ensures var low := LowerFunction(Wrapping(local), c);
      if local in {"a", "b", "x"} then low.Refused?
      else low.Accepted? && low.value == Ir.Program(2, [Ir.Return(Ir.Map(Ir.Argument(1), WRAPPED))])
  {
    var fn := Wrapping(local);
    assert Qualified(fn) && |fn.params| == 2;
    var e := fn.body[0].value.value;
    assert fn.body == [Stmt.Return(Some(e))];
    hide *;
    WrappingStarts(local);
    FunctionSteps(fn, c);
    WrappedMap(local, c);
    OneReturn(e, WrappingScope(), c);
  }
}
