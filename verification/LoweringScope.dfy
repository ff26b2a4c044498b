/** Every compiled program is well scoped: each slot it reads or writes is declared
    by its own body or an enclosing one, and a callback only writes its own slots. */
module LoweringScope {
  import opened Values
  import opened Script
  import opened Lowering
  import opened LoweringFacts
  import Ir

  /** The names in scope resolve: slots to visible ones, own slots being those above the floor. */
  ghost predicate Resolves(s: Scope, visible: set<nat>, own: set<nat>, parameters: nat) {
    && (forall n | n in s.locals :: match s.locals[n]
          case Slot(i) => i in visible && ((s.mapDepth == 0 || s.mapFloor <= i) ==> i in own)
          case Argument(i) => if i == Ir.ITEM then s.mapDepth != 0 else i < parameters
          case _ => false)
    && (forall i | i in visible :: i < s.slots)
  }

  lemma ExtendsResolves(s: Scope, s1: Scope, visible: set<nat>, own: set<nat>, parameters: nat)
    requires Resolves(s, visible, own, parameters) && (Extends(s, s1) || exists more :: Grows(s, s1, more))
    ensures Resolves(s1, visible, own, parameters) && s1.mapDepth == s.mapDepth
  {}

  lemma {:induction false} ExprScoped(e: Expr, s: Scope, c: Dialect, visible: set<nat>, own: set<nat>, parameters: nat)
    requires LowerExpr(e, s, c).Accepted? && Resolves(s, visible, own, parameters)
    ensures Ir.ScopedExpr(LowerExpr(e, s, c).value, visible, own, parameters, s.mapDepth != 0)
    decreases e, 3
  {
    hide Resolves, Extends, LowerProperties, LowerAll, LowerCall, OrdinaryArray, Numeric, Module, HasEntry, Lowering.SafeInteger, Ir.ScopedBody;
    match e
    case Paren(x) => ExprScoped(x, s, c, visible, own, parameters);
    case Ident(n) => IdentScoped(n, s, visible, own, parameters);
    case NullLit =>
    case NumberLit(_) =>
    case StringLit(_) =>
    case Void(_) =>
    case LogicalNot(x) => ExprScoped(x, s, c, visible, own, parameters);
    case Member(base, _, _) => if LowerExpr(base, s, c).Accepted? { ExprScoped(base, s, c, visible, own, parameters); }
    case Logical(_, _, _) => TwoScoped(e, s, c, visible, own, parameters);
    case Binary(_, _, _) => TwoScoped(e, s, c, visible, own, parameters);
    case Conditional(_, _, _) => ConditionalScoped(e, s, c, visible, own, parameters);
    case Assignment(_, target, right) =>
      ExprScoped(right, s, c, visible, own, parameters);
      OwnTarget(target.name, s, visible, own, parameters);
    case Comma(_, _) => CommaScoped(e, s, c, visible, own, parameters);
    case ObjectLit(ps) => PropertiesScoped(ps, [], s, c, visible, own, parameters);
    case Call(_, _) => CallScoped(e, s, c, visible, own, parameters);
  }

  lemma {:induction false} ConditionalScoped(e: Expr, s: Scope, c: Dialect, visible: set<nat>, own: set<nat>, parameters: nat)
    requires e.Conditional? && LowerExpr(e, s, c).Accepted? && Resolves(s, visible, own, parameters)
    ensures Ir.ScopedExpr(LowerExpr(e, s, c).value, visible, own, parameters, s.mapDepth != 0)
    decreases e, 2
  {
    hide Resolves, Extends, LowerProperties, LowerAll, LowerCall, OrdinaryArray, Numeric, Module;
    match e case Conditional(test, yes, no) =>
    var s1 := LowerExpr(test, s, c).scope;
    ExprScoped(test, s, c, visible, own, parameters);
    Later(test, s, c, visible, own, parameters);
    ExprScoped(yes, s1, c, visible, own, parameters);
    Later(yes, s1, c, visible, own, parameters);
    ExprScoped(no, LowerExpr(yes, s1, c).scope, c, visible, own, parameters);
  }

  lemma {:induction false} CommaScoped(e: Expr, s: Scope, c: Dialect, visible: set<nat>, own: set<nat>, parameters: nat)
    requires e.Comma? && LowerExpr(e, s, c).Accepted? && Resolves(s, visible, own, parameters)
    ensures Ir.ScopedExpr(LowerExpr(e, s, c).value, visible, own, parameters, s.mapDepth != 0)
    decreases e, 2
  {
    hide Resolves, Extends, LowerProperties, LowerAll, LowerCall, OrdinaryArray, Numeric, Module;
    match e case Comma(first, rest) =>
    ExprScoped(first, s, c, visible, own, parameters);
    var v := LowerExpr(first, s, c);
    Later(first, s, c, visible, own, parameters);
    AllScoped(rest, v.scope, c, visible, own, parameters);
    assert ([v.value] + LowerAll(rest, v.scope, c).value)[1..] == LowerAll(rest, v.scope, c).value;
  }

  lemma IdentScoped(n: string, s: Scope, visible: set<nat>, own: set<nat>, parameters: nat)
    requires n in s.locals && Resolves(s, visible, own, parameters)
    ensures Ir.ScopedExpr(s.locals[n], visible, own, parameters, s.mapDepth != 0)
  {}

  lemma OwnTarget(n: string, s: Scope, visible: set<nat>, own: set<nat>, parameters: nat)
    requires n in s.locals && s.locals[n].Slot? && Resolves(s, visible, own, parameters)
    requires s.mapDepth == 0 || s.mapFloor <= s.locals[n].index
    ensures s.locals[n].index in own
  {}

  /** Names still resolve after an expression has been compiled. */
  /** Two operands, one after the other. */
  lemma {:induction false} TwoScoped(e: Expr, s: Scope, c: Dialect, visible: set<nat>, own: set<nat>, parameters: nat)
    requires (e.Logical? || e.Binary?) && LowerExpr(e, s, c).Accepted? && Resolves(s, visible, own, parameters)
    ensures Ir.ScopedExpr(LowerExpr(e, s, c).value, visible, own, parameters, s.mapDepth != 0)
    decreases e, 2
  {
    hide Resolves, Extends, LowerProperties, LowerAll, LowerCall, OrdinaryArray, Numeric, Module, HasEntry, Lowering.SafeInteger, Ir.ScopedBody;
    match e
    case Logical(_, left, right) =>
      ExprScoped(left, s, c, visible, own, parameters);
      Later(left, s, c, visible, own, parameters);
      ExprScoped(right, LowerExpr(left, s, c).scope, c, visible, own, parameters);
    case Binary(op, left, right) =>
      ExprScoped(left, s, c, visible, own, parameters);
      if op.GreaterThan? {
        Later(left, s, c, visible, own, parameters);
        ExprScoped(right, LowerExpr(left, s, c).scope, c, visible, own, parameters);
      }
  }

  lemma Later(e: Expr, s: Scope, c: Dialect, visible: set<nat>, own: set<nat>, parameters: nat)
    requires LowerExpr(e, s, c).Accepted? && Resolves(s, visible, own, parameters)
    ensures Resolves(LowerExpr(e, s, c).scope, visible, own, parameters)
    ensures LowerExpr(e, s, c).scope.mapDepth == s.mapDepth
  {
    hide LowerExpr;
    ExprExtends(e, s, c);
    ExtendsResolves(s, LowerExpr(e, s, c).scope, visible, own, parameters);
  }

  lemma {:induction false} AllScoped(es: seq<Expr>, s: Scope, c: Dialect, visible: set<nat>, own: set<nat>, parameters: nat)
    requires LowerAll(es, s, c).Accepted? && Resolves(s, visible, own, parameters)
    ensures Ir.ScopedAll(LowerAll(es, s, c).value, visible, own, parameters, s.mapDepth != 0)
    decreases es, 0
  {
    hide Resolves, Extends, LowerExpr;
    if es != [] {
      var v := LowerExpr(es[0], s, c);
      ExprScoped(es[0], s, c, visible, own, parameters);
      Later(es[0], s, c, visible, own, parameters);
      AllScoped(es[1..], v.scope, c, visible, own, parameters);
      assert ([v.value] + LowerAll(es[1..], v.scope, c).value)[1..] == LowerAll(es[1..], v.scope, c).value;
    }
  }

  lemma {:induction false} ArgumentScoped(a: Argument, s: Scope, c: Dialect, visible: set<nat>, own: set<nat>, parameters: nat)
    requires LowerArgument(a, s, c).Accepted? && Resolves(s, visible, own, parameters)
    ensures Ir.ScopedExpr(LowerArgument(a, s, c).value, visible, own, parameters, s.mapDepth != 0)
    decreases a, 4
  {
    hide Resolves, LowerExpr, Ir.ScopedExpr;
    match a case Plain(e) => ExprScoped(e, s, c, visible, own, parameters);
  }

  lemma {:induction false} ArgumentsScoped(args: seq<Argument>, s: Scope, c: Dialect, visible: set<nat>, own: set<nat>, parameters: nat)
    requires LowerArguments(args, s, c).Accepted? && Resolves(s, visible, own, parameters)
    ensures Ir.ScopedAll(LowerArguments(args, s, c).value, visible, own, parameters, s.mapDepth != 0)
    decreases args, 0
  {
    hide Resolves, Extends, LowerArgument;
    if args != [] {
      var v := LowerArgument(args[0], s, c);
      ArgumentScoped(args[0], s, c, visible, own, parameters);
      ArgumentExtends(args[0], s, c);
      ExtendsResolves(s, v.scope, visible, own, parameters);
      ArgumentsScoped(args[1..], v.scope, c, visible, own, parameters);
      assert ([v.value] + LowerArguments(args[1..], v.scope, c).value)[1..] == LowerArguments(args[1..], v.scope, c).value;
    }
  }

  lemma {:induction false} EntriesConcat(a: seq<Ir.Entry>, b: seq<Ir.Entry>, visible: set<nat>, own: set<nat>, parameters: nat, inMap: bool)
    ensures Ir.ScopedEntries(a + b, visible, own, parameters, inMap) <==>
      Ir.ScopedEntries(a, visible, own, parameters, inMap) && Ir.ScopedEntries(b, visible, own, parameters, inMap)
  {
    if a == [] { assert a + b == b; }
    else {
      assert (a + b)[1..] == a[1..] + b;
      EntriesConcat(a[1..], b, visible, own, parameters, inMap);
    }
  }

  lemma {:induction false} PropertiesScoped(ps: seq<Property>, entries: seq<Ir.Entry>, s: Scope, c: Dialect, visible: set<nat>, own: set<nat>, parameters: nat)
    requires LowerProperties(ps, entries, s, c).Accepted? && Resolves(s, visible, own, parameters)
    requires Ir.ScopedEntries(entries, visible, own, parameters, s.mapDepth != 0)
    ensures Ir.ScopedEntries(LowerProperties(ps, entries, s, c).value, visible, own, parameters, s.mapDepth != 0)
    decreases ps, 0
  {
    hide Resolves, Extends, LowerProperty;
    if ps != [] {
      var v := LowerProperty(ps[0], entries, s, c);
      PropertyScoped(ps[0], entries, s, c, visible, own, parameters);
      PropertyExtends(ps[0], entries, s, c);
      ExtendsResolves(s, v.scope, visible, own, parameters);
      var entry := Ir.Entry(ps[0].key.value, v.value);
      assert [entry][1..] == [];
      EntriesConcat(entries, [entry], visible, own, parameters, s.mapDepth != 0);
      PropertiesScoped(ps[1..], entries + [entry], v.scope, c, visible, own, parameters);
    }
  }

  lemma {:induction false} PropertyScoped(p: Property, entries: seq<Ir.Entry>, s: Scope, c: Dialect, visible: set<nat>, own: set<nat>, parameters: nat)
    requires LowerProperty(p, entries, s, c).Accepted? && Resolves(s, visible, own, parameters)
    ensures Ir.ScopedExpr(LowerProperty(p, entries, s, c).value, visible, own, parameters, s.mapDepth != 0)
    decreases p, 4
  {
    hide Resolves, LowerExpr, Ir.ScopedExpr;
    match p case Property(_, _, e) => ExprScoped(e, s, c, visible, own, parameters);
  }

  lemma {:induction false} CallScoped(e: Expr, s: Scope, c: Dialect, visible: set<nat>, own: set<nat>, parameters: nat)
    requires e.Call? && LowerCall(e, s, c).Accepted? && Resolves(s, visible, own, parameters)
    ensures Ir.ScopedExpr(LowerCall(e, s, c).value, visible, own, parameters, s.mapDepth != 0)
    decreases e, 2
  {
    hide Resolves, Extends, LowerMap, LowerArgument, LowerArguments, Module;
    match e case Call(callee, arguments) =>
    match callee case Member(base, name, _) =>
    if name == MAP {
      MapScoped(e, s, c, visible, own, parameters);
    } else if Module(base, s, c) == Some(c.vocabulary.decodeModule) && name == DECODE {
      ArgumentScoped(arguments[1], s, c, visible, own, parameters);
      var v := LowerArgument(arguments[1], s, c).value;
      assert [v][1..] == [];
      assert Ir.ScopedAll([v][1..], visible, own, parameters, s.mapDepth != 0);
      assert Ir.ScopedAll([v], visible, own, parameters, s.mapDepth != 0);
    } else {
      ArgumentsScoped(arguments, s, c, visible, own, parameters);
    }
  }

  lemma {:induction false} MapScoped(e: Expr, s: Scope, c: Dialect, visible: set<nat>, own: set<nat>, parameters: nat)
    requires e.Call? && e.callee.Member? && LowerMap(e, s, c).Accepted? && Resolves(s, visible, own, parameters)
    ensures Ir.ScopedExpr(LowerMap(e, s, c).value, visible, own, parameters, s.mapDepth != 0)
    decreases e, 1
  {
    hide Resolves, Extends, LowerCallback, LowerExpr, OrdinaryArray;
    match e case Call(callee, arguments) =>
    match callee case Member(base, _, _) =>
    match arguments[0] case Plain(callback) =>
    match callback case FunctionExpr(fn) =>
    var v := LowerExpr(base, s, c);
    ExprScoped(base, s, c, visible, own, parameters);
    Later(base, s, c, visible, own, parameters);
    CallbackScoped(fn, v.scope, c, visible, own, parameters);
  }

  lemma {:induction false} CallbackScoped(fn: Function, s: Scope, c: Dialect, visible: set<nat>, own: set<nat>, parameters: nat)
    requires CallbackRefusal(fn).None? && LowerCallback(fn, s, c).Accepted? && Resolves(s, visible, own, parameters)
    ensures var body := LowerCallback(fn, s, c).value;
      Ir.OwnedSlots(body) !! visible &&
      Ir.ScopedBody(body, visible + Ir.OwnedSlots(body), Ir.OwnedSlots(body), parameters, true)
    decreases fn, 4
  {
    match fn case Function(_, _, _, _, params, body) =>
    var s1 := DeclareScope(body, EnterCallback(params[0].name.value, s)).scope;
    var mine := Ir.OwnedSlots(LowerStmts(body, s1, c).value);
    assert LowerCallback(fn, s, c).value == LowerStmts(body, s1, c).value;
    CallbackResolves(params[0].name.value, body, s, c, visible, own, parameters);
    hide *;
    StmtsScoped(body, s1, c, visible + mine, mine, parameters);
  }

  lemma CallbackResolves(param: string, body: seq<Stmt>, s: Scope, c: Dialect, visible: set<nat>, own: set<nat>, parameters: nat)
    requires Resolves(s, visible, own, parameters) && DeclareScope(body, EnterCallback(param, s)).Accepted?
    requires LowerStmts(body, DeclareScope(body, EnterCallback(param, s)).scope, c).Accepted?
    ensures var s1 := DeclareScope(body, EnterCallback(param, s)).scope;
      var mine := Ir.OwnedSlots(LowerStmts(body, s1, c).value);
      Resolves(s1, visible + mine, mine, parameters) && mine !! visible && s1.mapDepth != 0
  {
    hide *;
    var s1 := DeclareScope(body, EnterCallback(param, s)).scope;
    DeclaredIn(body, EnterCallback(param, s));
    OwnedAreDeclared(body, s1, c);
    DeclaredResolve(param, VarNames(body), s, s1, visible, own, parameters);
  }

  /** What declaring the names of a body leaves of the scope before it. */
  ghost predicate Declared(names: seq<string>, s: Scope, s1: Scope) {
    && s1.mapDepth == s.mapDepth && s1.mapFloor == s.mapFloor && s.slots <= s1.slots
    && (forall n | n in s1.locals && n !in names :: n in s.locals && s1.locals[n] == s.locals[n])
    && (forall n | n in names :: n in s1.locals && s1.locals[n].Slot? && s.slots <= s1.locals[n].index < s1.slots)
  }

  lemma DeclaredIn(body: seq<Stmt>, s: Scope)
    requires DeclareScope(body, s).Accepted?
    ensures Declared(VarNames(body), s, DeclareScope(body, s).scope)
  {
    hide VarNames, DeclareNames, StmtsAssigned;
    DeclareNamesSpec(VarNames(body), {}, {}, s);
  }

  lemma DeclaredResolve(param: string, names: seq<string>, s: Scope, s1: Scope, visible: set<nat>, own: set<nat>, parameters: nat)
    requires Resolves(s, visible, own, parameters) && Declared(names, EnterCallback(param, s), s1) && AllSlots(names, s1.locals)
    ensures var mine := NameSlots(names, s1.locals);
      Resolves(s1, visible + mine, mine, parameters) && mine !! visible && s1.mapDepth != 0
  {
    var mine := NameSlots(names, s1.locals);
    forall n | n in s1.locals && n in names ensures s1.locals[n].index in mine {
      var i :| 0 <= i < |names| && names[i] == n;
    }
  }

  lemma {:induction false} BodyConcat(a: seq<Ir.S>, b: seq<Ir.S>, visible: set<nat>, own: set<nat>, parameters: nat, inMap: bool)
    ensures Ir.ScopedBody(a + b, visible, own, parameters, inMap) <==>
      Ir.ScopedBody(a, visible, own, parameters, inMap) && Ir.ScopedBody(b, visible, own, parameters, inMap)
  {
    hide Ir.ScopedStmt;
    if a == [] { assert a + b == b; }
    else {
      assert (a + b)[1..] == a[1..] + b;
      BodyConcat(a[1..], b, visible, own, parameters, inMap);
    }
  }

  lemma BodyOne(st: Ir.S, visible: set<nat>, own: set<nat>, parameters: nat, inMap: bool)
    ensures Ir.ScopedBody([st], visible, own, parameters, inMap) <==> Ir.ScopedStmt(st, visible, own, parameters, inMap)
  {
    hide Ir.ScopedStmt;
    assert [st][1..] == [];
  }

  lemma {:induction false} StmtsScoped(body: seq<Stmt>, s: Scope, c: Dialect, visible: set<nat>, own: set<nat>, parameters: nat)
    requires LowerStmts(body, s, c).Accepted? && Resolves(s, visible, own, parameters)
    requires Ir.OwnedSlots(LowerStmts(body, s, c).value) <= own
    ensures Ir.ScopedBody(LowerStmts(body, s, c).value, visible, own, parameters, s.mapDepth != 0)
    decreases body, 0
  {
    hide Resolves, Extends, LowerStmt, Ir.ScopedStmt, Ir.OwnedSlots;
    if body != [] {
      var first := LowerStmt(body[0], s, c);
      var rest := LowerStmts(body[1..], first.scope, c);
      OwnedSlotsConcat(first.value, rest.value);
      StmtScoped(body[0], s, c, visible, own, parameters);
      StmtGrows(body[0], s, c);
      ExtendsResolves(s, first.scope, visible, own, parameters);
      StmtsScoped(body[1..], first.scope, c, visible, own, parameters);
      BodyConcat(first.value, rest.value, visible, own, parameters, s.mapDepth != 0);
    }
  }

  lemma {:induction false} StmtScoped(st: Stmt, s: Scope, c: Dialect, visible: set<nat>, own: set<nat>, parameters: nat)
    requires LowerStmt(st, s, c).Accepted? && Resolves(s, visible, own, parameters)
    requires Ir.OwnedSlots(LowerStmt(st, s, c).value) <= own
    ensures Ir.ScopedBody(LowerStmt(st, s, c).value, visible, own, parameters, s.mapDepth != 0)
    decreases st, 1
  {
    hide Resolves, Extends, LowerExpr, Ir.ScopedExpr, LowerStmts, LowerDeclarators;
    match st
    case VarDecl(isVar, ds) => DeclaratorsScoped(ds, isVar, s, c, visible, own, parameters);
    case If(test, yes, no) =>
      var t := LowerExpr(test, s, c);
      var y := LowerStmt(yes, t.scope, c);
      var ir := LowerStmt(st, s, c).value[0];
      OwnedSlotsOne(ir);
      ExprScoped(test, s, c, visible, own, parameters);
      Later(test, s, c, visible, own, parameters);
      StmtScoped(yes, t.scope, c, visible, own, parameters);
      StmtGrows(yes, t.scope, c);
      ExtendsResolves(t.scope, y.scope, visible, own, parameters);
      match no {
        case Some(x) => StmtScoped(x, y.scope, c, visible, own, parameters);
        case None =>
      }
      BodyOne(ir, visible, own, parameters, s.mapDepth != 0);
    case Block(body) => StmtsScoped(body, s, c, visible, own, parameters);
    case Return(v) =>
      ExprScoped(v.value, s, c, visible, own, parameters);
      BodyOne(LowerStmt(st, s, c).value[0], visible, own, parameters, s.mapDepth != 0);
    case ExprStmt(e) =>
      ExprScoped(e, s, c, visible, own, parameters);
      BodyOne(LowerStmt(st, s, c).value[0], visible, own, parameters, s.mapDepth != 0);
    case Throw(e) =>
      ExprScoped(FatalParts(e).value.metric, s, c, visible, own, parameters);
      BodyOne(LowerStmt(st, s, c).value[0], visible, own, parameters, s.mapDepth != 0);
  }

  lemma {:induction false} DeclaratorsScoped(ds: seq<Declarator>, isVar: bool, s: Scope, c: Dialect, visible: set<nat>, own: set<nat>, parameters: nat)
    requires LowerDeclarators(ds, isVar, s, c).Accepted? && Resolves(s, visible, own, parameters)
    requires Ir.OwnedSlots(LowerDeclarators(ds, isVar, s, c).value) <= own
    ensures Ir.ScopedBody(LowerDeclarators(ds, isVar, s, c).value, visible, own, parameters, s.mapDepth != 0)
    decreases ds, 0
  {
    hide Resolves, Extends, LowerDeclarator, Ir.ScopedStmt;
    if ds != [] {
      var first := LowerDeclarator(ds[0], isVar, s, c);
      var rest := LowerDeclarators(ds[1..], isVar, first.scope, c);
      DeclaratorGrows(ds[0], isVar, s, c);
      assert ([first.value] + rest.value)[1..] == rest.value;
      DeclaratorScoped(ds[0], isVar, s, c, visible, own, parameters);
      ExtendsResolves(s, first.scope, visible, own, parameters);
      DeclaratorsScoped(ds[1..], isVar, first.scope, c, visible, own, parameters);
    }
  }

  lemma {:induction false} DeclaratorScoped(d: Declarator, isVar: bool, s: Scope, c: Dialect, visible: set<nat>, own: set<nat>, parameters: nat)
    requires LowerDeclarator(d, isVar, s, c).Accepted? && Resolves(s, visible, own, parameters)
    requires LowerDeclarator(d, isVar, s, c).value.Bind? && LowerDeclarator(d, isVar, s, c).value.slot in own
    ensures Ir.ScopedStmt(LowerDeclarator(d, isVar, s, c).value, visible, own, parameters, s.mapDepth != 0)
    decreases d, 4
  {
    hide Resolves, LowerExpr, Ir.ScopedExpr;
    match d.init case Some(e) => ExprScoped(e, s, c, visible, own, parameters);
  }

  lemma {:induction false} ParamsResolve(params: seq<Param>, i: nat)
    requires i <= |params|
    ensures forall n | n in ParamLocals(params, i) :: ParamLocals(params, i)[n].Argument? && ParamLocals(params, i)[n].index < i
  {
    if i > 0 { ParamsResolve(params, i - 1); }
  }

  /** Accepted validators of at most three parameters compile to well-scoped programs. */
  lemma LoweringWellScoped(fn: Function, c: Dialect)
    requires LowerFunction(fn, c).Accepted? && |fn.params| <= 3
    ensures Ir.WellScoped(LowerFunction(fn, c).value)
  {
    var locals := ParamLocals(fn.params, |fn.params|);
    var s0 := Scope(locals, 0, 0, 0, {}, {});
    var s := DeclareScope(fn.body, s0).scope;
    ParamsResolve(fn.params, |fn.params|);
    DeclareNamesSpec(VarNames(fn.body), {}, {}, s0);
    OwnedAreDeclared(fn.body, s, c);
    var own := Ir.OwnedSlots(LowerStmts(fn.body, s, c).value);
    assert Resolves(s, own, own, |fn.params|) by {
      hide LowerStmts, Ir.OwnedSlots, VarNames, ParamLocals;
    }
    hide Resolves, Ir.ScopedBody, Ir.OwnedSlots, LowerStmts;
    StmtsScoped(fn.body, s, c, own, own, |fn.params|);
  }
}
