/** What compiling leaves alone: frames of the compiler's own state. */
module LoweringFacts {
  import opened Values
  import opened Script
  import opened Lowering
  import Ir

  /** Compiling an expression only uses up slots (and, between callbacks, moves the floor). */
  ghost predicate Extends(s: Scope, s1: Scope) {
    s1 == s.(slots := s1.slots, mapFloor := s1.mapFloor) && s.slots <= s1.slots &&
    (s.mapDepth != 0 ==> s1.mapFloor == s.mapFloor)
  }

  /** Compiling statements may also qualify more slots as arrays, all among `own`. */
  ghost predicate Grows(s: Scope, s1: Scope, own: set<nat>) {
    Extends(s.(arrays := s1.arrays), s1) && s.arrays <= s1.arrays <= s.arrays + own
  }

  lemma {:induction false} ExprExtends(e: Expr, s: Scope, c: Dialect)
    requires LowerExpr(e, s, c).Accepted?
    ensures Extends(s, LowerExpr(e, s, c).scope)
    decreases e, 3
  {
    hide LowerCall, LowerAll, LowerProperties, OrdinaryArray, Numeric, Module, HasEntry, Lowering.SafeInteger;
    match e
    case Paren(x) => ExprExtends(x, s, c);
    case LogicalNot(x) => ExprExtends(x, s, c);
    case Member(base, _, _) => if LowerExpr(base, s, c).Accepted? { ExprExtends(base, s, c); }
    case Logical(_, left, right) => ExprExtends(left, s, c); ExprExtends(right, LowerExpr(left, s, c).scope, c);
    case Binary(op, left, right) =>
      ExprExtends(left, s, c);
      if op.GreaterThan? { ExprExtends(right, LowerExpr(left, s, c).scope, c); }
    case Conditional(test, yes, no) =>
      var s1 := LowerExpr(test, s, c).scope;
      var s2 := LowerExpr(yes, s1, c).scope;
      ExprExtends(test, s, c); ExprExtends(yes, s1, c); ExprExtends(no, s2, c);
    case Assignment(_, _, right) => ExprExtends(right, s, c);
    case Comma(first, rest) => ExprExtends(first, s, c); AllExtends(rest, LowerExpr(first, s, c).scope, c);
    case ObjectLit(ps) => PropertiesExtend(ps, [], s, c);
    case Call(_, _) => CallExtends(e, s, c);
    case _ =>
  }

  lemma {:induction false} AllExtends(es: seq<Expr>, s: Scope, c: Dialect)
    requires LowerAll(es, s, c).Accepted?
    ensures Extends(s, LowerAll(es, s, c).scope)
    decreases es, 0
  {
    if es != [] {
      ExprExtends(es[0], s, c);
      AllExtends(es[1..], LowerExpr(es[0], s, c).scope, c);
    }
  }

  lemma {:induction false} ArgumentExtends(a: Argument, s: Scope, c: Dialect)
    requires LowerArgument(a, s, c).Accepted?
    ensures Extends(s, LowerArgument(a, s, c).scope)
    decreases a, 4
  {
    match a case Plain(e) => ExprExtends(e, s, c); case SpreadArgument =>
  }

  lemma {:induction false} ArgumentsExtend(args: seq<Argument>, s: Scope, c: Dialect)
    requires LowerArguments(args, s, c).Accepted?
    ensures Extends(s, LowerArguments(args, s, c).scope)
    decreases args, 0
  {
    if args != [] {
      ArgumentExtends(args[0], s, c);
      ArgumentsExtend(args[1..], LowerArgument(args[0], s, c).scope, c);
    }
  }

  lemma {:induction false} PropertyExtends(p: Property, entries: seq<Ir.Entry>, s: Scope, c: Dialect)
    requires LowerProperty(p, entries, s, c).Accepted?
    ensures Extends(s, LowerProperty(p, entries, s, c).scope)
    decreases p, 4
  {
    match p case Property(_, _, e) => ExprExtends(e, s, c); case SpreadProperty =>
  }

  lemma {:induction false} PropertiesExtend(ps: seq<Property>, entries: seq<Ir.Entry>, s: Scope, c: Dialect)
    requires LowerProperties(ps, entries, s, c).Accepted?
    ensures Extends(s, LowerProperties(ps, entries, s, c).scope)
    decreases ps, 0
  {
    if ps != [] {
      PropertyExtends(ps[0], entries, s, c);
      var low := LowerProperty(ps[0], entries, s, c);
      PropertiesExtend(ps[1..], entries + [Ir.Entry(ps[0].key.value, low.value)], low.scope, c);
    }
  }

  lemma {:induction false} CallExtends(e: Expr, s: Scope, c: Dialect)
    requires e.Call? && LowerCall(e, s, c).Accepted?
    ensures Extends(s, LowerCall(e, s, c).scope)
    decreases e, 2
  {
    match e case Call(callee, arguments) =>
    match callee case Member(base, name, _) =>
      if name == MAP { MapExtends(e, s, c); }
      else if Module(base, s, c) == Some(c.vocabulary.decodeModule) && name == DECODE {
        ArgumentExtends(arguments[1], s, c);
      } else {
        ArgumentsExtend(arguments, s, c);
      }
  }

  lemma {:induction false} MapExtends(e: Expr, s: Scope, c: Dialect)
    requires e.Call? && e.callee.Member? && LowerMap(e, s, c).Accepted?
    ensures Extends(s, LowerMap(e, s, c).scope)
    decreases e, 1
  {
    match e case Call(callee, arguments) =>
    match callee case Member(base, _, _) =>
    ExprExtends(base, s, c);
    match arguments[0] case Plain(callback) =>
    match callback case FunctionExpr(fn) =>
    CallbackExtends(fn, LowerExpr(base, s, c).scope, c);
  }

  lemma {:induction false} CallbackExtends(f: Function, s: Scope, c: Dialect)
    requires CallbackRefusal(f).None? && LowerCallback(f, s, c).Accepted?
    requires s.mapDepth == 0
    ensures Extends(s, LowerCallback(f, s, c).scope)
    decreases f, 4
  {
    match f case Function(_, _, _, _, params, body) =>
    var s0 := EnterCallback(params[0].name.value, s);
    DeclareNamesSpec(VarNames(body), {}, {}, s0);
    var s1 := DeclareScope(body, s0).scope;
    StmtsGrow(body, s1, c);
  }

  lemma {:induction false} StmtsGrow(body: seq<Stmt>, s: Scope, c: Dialect)
    requires LowerStmts(body, s, c).Accepted?
    ensures Grows(s, LowerStmts(body, s, c).scope, Ir.OwnedSlots(LowerStmts(body, s, c).value))
    decreases body, 0
  {
    if body != [] {
      StmtGrows(body[0], s, c);
      var first := LowerStmt(body[0], s, c);
      StmtsGrow(body[1..], first.scope, c);
      OwnedSlotsConcat(first.value, LowerStmts(body[1..], first.scope, c).value);
    }
  }

  lemma {:induction false} OwnedSlotsConcat(a: seq<Ir.S>, b: seq<Ir.S>)
    ensures Ir.OwnedSlots(a + b) == Ir.OwnedSlots(a) + Ir.OwnedSlots(b)
  {
    if a == [] { assert a + b == b; }
    else {
      assert (a + b)[1..] == a[1..] + b;
      OwnedSlotsConcat(a[1..], b);
    }
  }

  lemma OwnedSlotsOne(st: Ir.S)
    ensures Ir.OwnedSlots([st]) == Ir.StmtSlots(st)
  {
    assert [st][1..] == [];
  }

  lemma {:induction false} StmtGrows(st: Stmt, s: Scope, c: Dialect)
    requires LowerStmt(st, s, c).Accepted?
    ensures Grows(s, LowerStmt(st, s, c).scope, Ir.OwnedSlots(LowerStmt(st, s, c).value))
    decreases st, 1
  {
    match st
    case VarDecl(isVar, ds) => DeclaratorsGrow(ds, isVar, s, c);
    case If(test, yes, no) =>
      ExprExtends(test, s, c);
      var s1 := LowerExpr(test, s, c).scope;
      StmtGrows(yes, s1, c);
      var y := LowerStmt(yes, s1, c);
      match no {
        case Some(x) => StmtGrows(x, y.scope, c);
        case None =>
      }
      OwnedSlotsOne(LowerStmt(st, s, c).value[0]);
    case Block(body) => StmtsGrow(body, s, c);
    case Return(v) => ExprExtends(v.value, s, c);
    case ExprStmt(e) => ExprExtends(e, s, c);
    case Throw(e) =>
      var t := FatalParts(e).value;
      ExprExtends(t.metric, s, c);
      ExprExtends(t.context, LowerExpr(t.metric, s, c).scope, c);
  }

  lemma {:induction false} DeclaratorsGrow(ds: seq<Declarator>, isVar: bool, s: Scope, c: Dialect)
    requires LowerDeclarators(ds, isVar, s, c).Accepted?
    ensures Grows(s, LowerDeclarators(ds, isVar, s, c).scope, Ir.OwnedSlots(LowerDeclarators(ds, isVar, s, c).value))
    decreases ds, 0
  {
    if ds != [] {
      DeclaratorGrows(ds[0], isVar, s, c);
      var first := LowerDeclarator(ds[0], isVar, s, c);
      DeclaratorsGrow(ds[1..], isVar, first.scope, c);
      var rest := LowerDeclarators(ds[1..], isVar, first.scope, c);
      assert ([first.value] + rest.value)[1..] == rest.value;
    }
  }

  lemma {:induction false} DeclaratorGrows(d: Declarator, isVar: bool, s: Scope, c: Dialect)
    requires LowerDeclarator(d, isVar, s, c).Accepted?
    ensures var low := LowerDeclarator(d, isVar, s, c);
      low.value.Bind? && Grows(s, low.scope, {low.value.slot})
    decreases d, 4
  {
    ExprExtends(d.init.value, s, c);
  }

  /** Declaring gives every new name a slot of its own, repeated names are found,
      and no parameter is touched. */
  lemma {:induction false} DeclareNamesSpec(names: seq<string>, own: set<string>, again: set<string>, s: Scope)
    requires forall n | n in own :: n in s.locals && s.locals[n].Slot?
    requires DeclareNames(names, own, again, s).Accepted?
    ensures var (again1, s1) := DeclareNames(names, own, again, s).Extract();
      Declares(names, own, again, s, again1, s1)
  {
    if names != [] {
      var n, rest := names[0], names[1..];
      var (again1, s1) := DeclareNames(names, own, again, s).Extract();
      if n in own {
        assert DeclareNames(names, own, again, s) == DeclareNames(rest, own, again + {n}, s);
        hide DeclareNames, Declares;
        DeclareNamesSpec(rest, own, again + {n}, s);
        DeclaresKnown(names, own, again, s, again1, s1);
      } else {
        var s0 := s.(locals := s.locals[n := Ir.Slot(s.slots)], slots := s.slots + 1);
        assert !(n in s.locals && s.locals[n].Argument?);
        assert DeclareNames(names, own, again, s) == DeclareNames(rest, own + {n}, again, s0);
        hide DeclareNames, Declares;
        DeclareNamesSpec(rest, own + {n}, again, s0);
        DeclaresNew(names, own, again, s, again1, s1);
      }
    }
  }

  /** The scope after declaring `names`, of which `own` were declared before: new names
      get fresh slots of their own, and names met again are collected. */
  ghost predicate Declares(names: seq<string>, own: set<string>, again: set<string>, s: Scope, again1: set<string>, s1: Scope) {
    && s1 == s.(locals := s1.locals, slots := s1.slots) && s.slots <= s1.slots
    && (forall n :: n in s1.locals <==> n in s.locals || n in names)
    && (forall n | n in s.locals && (n in own || n !in names) :: s1.locals[n] == s.locals[n])
    && (forall n | n in names && n !in own ::
          s1.locals[n].Slot? && s.slots <= s1.locals[n].index < s1.slots && !(n in s.locals && s.locals[n].Argument?))
    && (forall n, m | n in names && m in names && n !in own && m !in own && s1.locals[n] == s1.locals[m] :: n == m)
    && again <= again1
    && (forall n | n in names && n in own :: n in again1)
    && (forall i, j | 0 <= i < j < |names| && names[i] == names[j] :: names[i] in again1)
  }

  lemma DeclaresKnown(names: seq<string>, own: set<string>, again: set<string>, s: Scope, again1: set<string>, s1: Scope)
    requires names != [] && names[0] in own && names[0] in s.locals && Declares(names[1..], own, again + {names[0]}, s, again1, s1)
    ensures Declares(names, own, again, s, again1, s1)
  {
    assert forall n :: n in names <==> n == names[0] || n in names[1..];
    RepeatsCollected(names, again1);
  }

  lemma DeclaresNew(names: seq<string>, own: set<string>, again: set<string>, s: Scope, again1: set<string>, s1: Scope)
    requires names != [] && names[0] !in own && !(names[0] in s.locals && s.locals[names[0]].Argument?)
    requires var s0 := s.(locals := s.locals[names[0] := Ir.Slot(s.slots)], slots := s.slots + 1);
      Declares(names[1..], own + {names[0]}, again, s0, again1, s1)
    ensures Declares(names, own, again, s, again1, s1)
  {
    assert forall n :: n in names <==> n == names[0] || n in names[1..];
    RepeatsCollected(names, again1);
  }

  lemma RepeatsCollected(names: seq<string>, again: set<string>)
    requires names != [] && (names[0] in names[1..] ==> names[0] in again)
    requires forall i, j | 0 <= i < j < |names[1..]| && names[1..][i] == names[1..][j] :: names[1..][i] in again
    ensures forall i, j | 0 <= i < j < |names| && names[i] == names[j] :: names[i] in again
  {
    forall i, j | 0 <= i < j < |names| && names[i] == names[j] ensures names[i] in again {
      assert names[j] == names[1..][j - 1];
      if i != 0 { assert names[i] == names[1..][i - 1]; }
    }
  }

  // ---------------------------------------------------------------- slots and names

  /** Every name in the list stands for a slot. */
  ghost predicate AllSlots(names: seq<string>, locals: map<string, Ir.E>) {
    forall n | n in names :: n in locals && locals[n].Slot?
  }

  ghost function NameSlots(names: seq<string>, locals: map<string, Ir.E>): set<nat> {
    set n | n in names && n in locals && locals[n].Slot? :: locals[n].index
  }

  lemma NameSlotsConcat(a: seq<string>, b: seq<string>, locals: map<string, Ir.E>)
    ensures NameSlots(a + b, locals) == NameSlots(a, locals) + NameSlots(b, locals)
    ensures AllSlots(a + b, locals) <==> AllSlots(a, locals) && AllSlots(b, locals)
  {
    assert forall n :: n in a + b <==> n in a || n in b;
  }

  /** The slots a compiled body binds are exactly those of the names it declares. */
  lemma {:induction false} OwnedAreDeclared(body: seq<Stmt>, s: Scope, c: Dialect)
    requires LowerStmts(body, s, c).Accepted?
    ensures AllSlots(VarNames(body), s.locals)
    ensures Ir.OwnedSlots(LowerStmts(body, s, c).value) == NameSlots(VarNames(body), s.locals)
    decreases body, 0
  {
    if body != [] {
      StmtOwnedAreDeclared(body[0], s, c);
      StmtGrows(body[0], s, c);
      var first := LowerStmt(body[0], s, c);
      OwnedAreDeclared(body[1..], first.scope, c);
      OwnedSlotsConcat(first.value, LowerStmts(body[1..], first.scope, c).value);
      NameSlotsConcat(StmtVarNames(body[0]), VarNames(body[1..]), s.locals);
    }
  }

  lemma {:induction false} StmtOwnedAreDeclared(st: Stmt, s: Scope, c: Dialect)
    requires LowerStmt(st, s, c).Accepted?
    ensures AllSlots(StmtVarNames(st), s.locals)
    ensures Ir.OwnedSlots(LowerStmt(st, s, c).value) == NameSlots(StmtVarNames(st), s.locals)
    decreases st, 1
  {
    match st
    case VarDecl(isVar, ds) => DeclaratorsOwnedAreDeclared(ds, isVar, s, c);
    case If(test, yes, no) =>
      ExprExtends(test, s, c);
      var s1 := LowerExpr(test, s, c).scope;
      StmtOwnedAreDeclared(yes, s1, c);
      StmtGrows(yes, s1, c);
      var y := LowerStmt(yes, s1, c);
      match no {
        case Some(x) =>
          StmtOwnedAreDeclared(x, y.scope, c);
          NameSlotsConcat(StmtVarNames(yes), StmtVarNames(x), s.locals);
        case None =>
          NameSlotsConcat(StmtVarNames(yes), [], s.locals);
      }
      OwnedSlotsOne(LowerStmt(st, s, c).value[0]);
    case Block(body) => OwnedAreDeclared(body, s, c);
    case Return(_) => OwnedSlotsOne(LowerStmt(st, s, c).value[0]);
    case ExprStmt(_) => OwnedSlotsOne(LowerStmt(st, s, c).value[0]);
    case Throw(_) => OwnedSlotsOne(LowerStmt(st, s, c).value[0]);
  }

  lemma {:induction false} DeclaratorsOwnedAreDeclared(ds: seq<Declarator>, isVar: bool, s: Scope, c: Dialect)
    requires LowerDeclarators(ds, isVar, s, c).Accepted?
    ensures AllSlots(DeclaratorNames(ds), s.locals)
    ensures Ir.OwnedSlots(LowerDeclarators(ds, isVar, s, c).value) == NameSlots(DeclaratorNames(ds), s.locals)
    decreases ds, 0
  {
    if ds != [] {
      DeclaratorGrows(ds[0], isVar, s, c);
      var first := LowerDeclarator(ds[0], isVar, s, c);
      DeclaratorsOwnedAreDeclared(ds[1..], isVar, first.scope, c);
      var rest := LowerDeclarators(ds[1..], isVar, first.scope, c);
      assert ([first.value] + rest.value)[1..] == rest.value;
      NameSlotsConcat([ds[0].name.value], DeclaratorNames(ds[1..]), s.locals);
    }
  }
}
