/** The updating compiler: one object whose fields change as it walks a validator.
    Every method is tied to the state-passing function of module Lowering. */
module LowerClass {
  import opened Values
  import opened Script
  import opened Lowering
  import Acceptance
  import Ir
  import Qualification

  datatype Result<+T> = Success(value: T) | Rejected(reason: string) {
    predicate IsFailure() { Rejected? }
    function PropagateFailure<U>(): Result<U>
      requires Rejected?
    {
      Rejected(reason)
    }
    function Extract(): T
      requires Success?
    {
      value
    }
  }

  /** The method returned what the function says and left the state the function says. */
  ghost predicate Meets<T>(out: Result<T>, after: Scope, spec: Lowered<T>) {
    match spec
    case Accepted(v, s) => out == Success(v) && after == s
    case Refused(reason) => out == Rejected(reason)
  }

  /** A list already produced, in front of what is still to come. */
  ghost function Produced<T>(done: seq<T>, more: Lowered<seq<T>>): Lowered<seq<T>> {
    match more
    case Accepted(v, s) => Accepted(done + v, s)
    case Refused(reason) => Refused(reason)
  }

  lemma ProducedTwice<T>(a: seq<T>, b: seq<T>, more: Lowered<seq<T>>)
    ensures Produced(a, Produced(b, more)) == Produced(a + b, more)
  {
    if more.Accepted? { assert a + (b + more.value) == (a + b) + more.value; }
  }

  lemma BehindNothing<T>(more: Lowered<seq<T>>)
    ensures Produced([], more) == more
  {
    if more.Accepted? { assert [] + more.value == more.value; }
  }

  lemma BehindAll<T>(done: seq<T>, s: Scope)
    ensures Produced(done, Accepted([], s)) == Accepted(done, s)
  {
    assert done + [] == done;
  }

  lemma StmtsStep(body: seq<Stmt>, s: Scope, c: Dialect)
    requires body != []
    ensures LowerStmts(body, s, c) == match LowerStmt(body[0], s, c)
      case Accepted(first, s1) => Produced(first, LowerStmts(body[1..], s1, c))
      case Refused(reason) => Refused(reason)
  {
    hide LowerStmt;
  }

  lemma AllStep(es: seq<Expr>, s: Scope, c: Dialect)
    requires es != []
    ensures LowerAll(es, s, c) == match LowerExpr(es[0], s, c)
      case Accepted(v, s1) => Produced([v], LowerAll(es[1..], s1, c))
      case Refused(reason) => Refused(reason)
  {
    hide LowerExpr;
  }

  lemma ArgumentsStep(args: seq<Argument>, s: Scope, c: Dialect)
    requires args != []
    ensures LowerArguments(args, s, c) == match LowerArgument(args[0], s, c)
      case Accepted(v, s1) => Produced([v], LowerArguments(args[1..], s1, c))
      case Refused(reason) => Refused(reason)
  {
    hide LowerArgument;
  }

  lemma DeclaratorsStep(ds: seq<Declarator>, isVar: bool, s: Scope, c: Dialect)
    requires ds != []
    ensures LowerDeclarators(ds, isVar, s, c) == match LowerDeclarator(ds[0], isVar, s, c)
      case Accepted(v, s1) => Produced([v], LowerDeclarators(ds[1..], isVar, s1, c))
      case Refused(reason) => Refused(reason)
  {
    hide LowerDeclarator;
  }

  class Lower {
    const dialect: Dialect
    var locals: map<string, Ir.E>
    var slots: nat
    var mapDepth: nat
    var mapFloor: nat
    var arrays: set<nat>
    var mutable: set<nat>

    function State(): Scope
      reads this
    {
      Scope(locals, slots, mapDepth, mapFloor, arrays, mutable)
    }

    /** Refused or not, the enclosing body's names are as they were. */
    twostate predicate Balanced()
      reads this
    {
      locals == old(locals) && mutable == old(mutable) && mapDepth == old(mapDepth)
    }

    constructor (dialect: Dialect)
      ensures this.dialect == dialect && State() == Scope(map[], 0, 0, 0, {}, {})
    {
      this.dialect := dialect;
      locals, slots, mapDepth, mapFloor, arrays, mutable := map[], 0, 0, 0, {}, {};
    }

    method DeclareScope(body: seq<Stmt>) returns (out: Result<()>)
      modifies this
      ensures Meets(out, State(), Lowering.DeclareScope(body, old(State())))
      ensures mapDepth == old(mapDepth)
    {
      hide DeclareNames, SlotsOf, VarNames, StmtsAssigned;
      var again :- Declare(VarNames(body));
      MarkMutable(StmtsAssigned(body) + again);
      return Success(());
    }

    /** Slots for new names; names met again are collected. */
    method Declare(names: seq<string>) returns (out: Result<set<string>>)
      modifies this
      ensures Meets(out, State(), DeclareNames(names, {}, {}, old(State())))
      ensures mapDepth == old(mapDepth)
    {
      var own: set<string>, again: set<string> := {}, {};
      for i := 0 to |names|
        invariant mapDepth == old(mapDepth)
        invariant DeclareNames(names, {}, {}, old(State())) == DeclareNames(names[i..], own, again, State())
      {
        var name := names[i];
        assert names[i..][0] == name && names[i..][1..] == names[i + 1..];
        if name in own {
          again := again + {name};
        } else {
          if name in locals && locals[name].Argument? {
            return Rejected("parameter redeclaration is not qualified");
          }
          locals := locals[name := Ir.Slot(slots)];
          slots := slots + 1;
          own := own + {name};
        }
      }
      return Success(again);
    }

    /** Slots of these names may change after their binding. */
    method MarkMutable(names: set<string>)
      modifies this`mutable
      ensures mutable == old(mutable) + SlotsOf(names, locals)
    {
      var todo := names;
      while todo != {}
        invariant todo <= names && mutable == old(mutable) + SlotsOf(names - todo, locals)
        decreases |todo|
      {
        var name :| name in todo;
        SlotsOfOneMore(names - todo, name, locals);
        assert names - (todo - {name}) == names - todo + {name};
        todo := todo - {name};
        if name in locals && locals[name].Slot? {
          mutable := mutable + {locals[name].index};
        }
      }
      assert names - todo == names;
    }

    method Statements(body: seq<Stmt>) returns (out: Result<seq<Ir.S>>)
      modifies this
      ensures Meets(out, State(), LowerStmts(body, old(State()), dialect))
      ensures Balanced()
      decreases body, 0
    {
      hide LowerStmt;
      var result: seq<Ir.S> := [];
      BehindNothing(LowerStmts(body, State(), dialect));
      for i := 0 to |body|
        invariant Balanced()
        invariant LowerStmts(body, old(State()), dialect) == Produced(result, LowerStmts(body[i..], State(), dialect))
      {
        assert body[i..][0] == body[i] && body[i..][1..] == body[i + 1..];
        StmtsStep(body[i..], State(), dialect);
        var more :- Statement(body[i]);
        ProducedTwice(result, more, LowerStmts(body[i + 1..], State(), dialect));
        result := result + more;
      }
      assert body[|body|..] == [];
      BehindAll(result, State());
      return Success(result);
    }

    method Statement(st: Stmt) returns (out: Result<seq<Ir.S>>)
      modifies this
      ensures Meets(out, State(), LowerStmt(st, old(State()), dialect))
      ensures Balanced()
      decreases st, 1
    {
      hide LowerExpr, LowerThrow, LowerDeclarators, LowerStmts;
      match st
      case VarDecl(isVar, ds) =>
        out := Declarators(ds, isVar);
      case If(test, yes, no) =>
        var t :- Expression(test);
        var y :- Statement(yes);
        var n: seq<Ir.S> := [];
        match no {
          case Some(x) => n :- Statement(x);
          case None =>
        }
        return Success([Ir.If(t, y, n)]);
      case Block(body) =>
        out := Statements(body);
      case Return(value) =>
        if value.None? { return Rejected("bare return"); }
        var v :- Expression(value.value);
        return Success([Ir.Return(v)]);
      case ExprStmt(e) =>
        var v :- Expression(e);
        return Success([Ir.Evaluate(v)]);
      case Throw(e) =>
        out := ThrowStatement(e);
      case OtherStmt =>
        return Rejected("unsupported statement");
    }

    method Declarators(ds: seq<Declarator>, isVar: bool) returns (out: Result<seq<Ir.S>>)
      modifies this
      ensures Meets(out, State(), LowerDeclarators(ds, isVar, old(State()), dialect))
      ensures Balanced()
      decreases ds, 0
    {
      hide LowerDeclarator;
      var result: seq<Ir.S> := [];
      BehindNothing(LowerDeclarators(ds, isVar, State(), dialect));
      for i := 0 to |ds|
        invariant Balanced()
        invariant LowerDeclarators(ds, isVar, old(State()), dialect) ==
                  Produced(result, LowerDeclarators(ds[i..], isVar, State(), dialect))
      {
        assert ds[i..][0] == ds[i] && ds[i..][1..] == ds[i + 1..];
        DeclaratorsStep(ds[i..], isVar, State(), dialect);
        var bind :- Binding(ds[i], isVar);
        ProducedTwice(result, [bind], LowerDeclarators(ds[i + 1..], isVar, State(), dialect));
        result := result + [bind];
      }
      assert ds[|ds|..] == [];
      BehindAll(result, State());
      return Success(result);
    }

    method Binding(d: Declarator, isVar: bool) returns (out: Result<Ir.S>)
      modifies this
      ensures Meets(out, State(), LowerDeclarator(d, isVar, old(State()), dialect))
      ensures Balanced()
      decreases d, 4
    {
      hide LowerExpr;
      if d.name.None? { return Rejected("unsupported binding"); }
      if !isVar { return Rejected("block-scoped declarations are not qualified"); }
      if d.name.value !in locals || !locals[d.name.value].Slot? { return Rejected("unqualified variable binding"); }
      var slot := locals[d.name.value].index;
      match d.init
      case None => return Rejected("uninitialized declarations are not qualified");
      case Some(e) =>
        var value :- Expression(e);
        if slot !in mutable && OrdinaryArray(value, State(), dialect) {
          arrays := arrays + {slot};
        }
        return Success(Ir.Bind(slot, value));
    }

    method ThrowStatement(e: Expr) returns (out: Result<seq<Ir.S>>)
      modifies this
      ensures Meets(out, State(), LowerThrow(e, old(State()), dialect))
      ensures Balanced()
      decreases e, 4
    {
      hide LowerExpr, LowerArgument, LowerThrow, AfterReport, Module, Reports;
      ThrowShape(e, State(), dialect);
      if !e.Comma? { return Rejected("unqualified throw"); }
      if |e.rest| != 1 { return Rejected("unsupported fatal side effects"); }
      if !e.first.Call? { return Rejected("missing fatal metric"); }
      var callee, arguments := e.first.callee, e.first.arguments;
      if !callee.Member? || callee.property != REPORT { return Rejected("wrong fatal reporter"); }
      if Module(callee.base, State(), dialect) != Some(dialect.vocabulary.metricModule) || |arguments| != 2 {
        return Rejected("unqualified fatal reporter");
      }
      assert arguments[0] in arguments && arguments[1] in arguments;
      ReportSteps(e, State(), dialect);
      var metric :- ArgumentValue(arguments[0]);
      var context :- ArgumentValue(arguments[1]);
      if context != Ir.ObjectOf([Ir.Entry(COLLECTION, Ir.Argument(0))]) { return Rejected("unsupported reporting context"); }
      ErrorShape(e.rest[0], metric, State(), dialect);
      if !e.rest[0].New? { return Rejected("missing fatal constructor"); }
      var constructorOf, text := e.rest[0].callee, e.rest[0].arguments;
      if !constructorOf.Member? || constructorOf.property != FATAL { return Rejected("wrong fatal class"); }
      if Module(constructorOf.base, State(), dialect) != Some(dialect.vocabulary.errorModule) || |text| != 1 {
        return Rejected("unqualified fatal class");
      }
      if text[0].SpreadArgument? { return Rejected("spread argument"); }
      if !text[0].expr.StringLit? { return Rejected("dynamic fatal message"); }
      return Success([Ir.Fatal(metric, text[0].expr.text)]);
    }

    method Expression(e: Expr) returns (out: Result<Ir.E>)
      modifies this
      ensures Meets(out, State(), LowerExpr(e, old(State()), dialect))
      ensures Balanced()
      decreases e, 3
    {
      hide Module, Numeric, LowerCall, LowerAll, LowerProperties;
      match e
      case Paren(x) =>
        out := Expression(x);
      case Ident(n) =>
        if n !in locals { return Rejected("unbound " + n); }
        return Success(locals[n]);
      case NullLit =>
        return Success(Ir.NullLit);
      case NumberLit(x) =>
        if !Lowering.SafeInteger(x) { return Rejected("unsupported expression"); }
        return Success(Ir.Integer(x.Floor));
      case StringLit(t) =>
        return Success(Ir.String(t));
      case Void(x) =>
        if x != NumberLit(0.0) { return Rejected("unsupported expression"); }
        return Success(Ir.UndefinedLit);
      case LogicalNot(x) =>
        var v :- Expression(x);
        return Success(Ir.Not(v));
      case Member(_, _, _) =>
        out := MemberExpression(e);
      case Logical(op, left, right) =>
        var v :- Expression(left);
        var w :- Expression(right);
        match op {
          case And => return Success(Ir.And(v, w));
          case Or => return Success(Ir.Or(v, w));
          case Coalesce => return Rejected("unsupported logical operator");
        }
      case Binary(_, _, _) =>
        out := BinaryExpression(e);
      case Conditional(test, yes, no) =>
        var t :- Expression(test);
        var y :- Expression(yes);
        var n :- Expression(no);
        return Success(Ir.Choose(t, y, n));
      case Assignment(_, _, _) =>
        out := AssignmentExpression(e);
      case Comma(first, rest) =>
        var v :- Expression(first);
        var vs :- Expressions(rest);
        return Success(Ir.Sequence([v] + vs));
      case ObjectLit(properties) =>
        var entries :- Properties(properties);
        return Success(Ir.ObjectOf(entries));
      case Call(_, _) =>
        out := CallExpression(e);
      case _ =>
        return Rejected("unsupported expression");
    }

    method MemberExpression(e: Expr) returns (out: Result<Ir.E>)
      requires e.Member?
      modifies this
      ensures Meets(out, State(), LowerExpr(e, old(State()), dialect))
      ensures Balanced()
      decreases e, 2
    {
      hide Module;
      match e case Member(base, property, computed) =>
      if computed { return Rejected("unsupported expression"); }
      if base.Member? && base.property == METRIC_ENUM &&
         Module(base.base, State(), dialect) == Some(dialect.vocabulary.metricModule) {
        if property !in dialect.vocabulary.metrics { return Rejected("unqualified fatal metric identity"); }
        return Success(Ir.Metric(property));
      }
      var object_ :- Expression(base);
      var ownLiteral := object_.ObjectOf? && HasEntry(object_.fields, property);
      if !ownLiteral && property !in dialect.vocabulary.keys {
        return Rejected("unqualified native data property " + property);
      }
      return Success(Ir.FieldOf(object_, property));
    }

    method BinaryExpression(e: Expr) returns (out: Result<Ir.E>)
      requires e.Binary?
      modifies this
      ensures Meets(out, State(), LowerExpr(e, old(State()), dialect))
      ensures Balanced()
      decreases e, 2
    {
      hide Numeric;
      match e case Binary(op, left, right) =>
      if (op.LooseEqual? || op.LooseUnequal?) && right.NullLit? {
        var v :- Expression(left);
        return Success(Ir.IsNullish(v, op.LooseUnequal?));
      }
      if !op.GreaterThan? { return Rejected("unsupported expression"); }
      var v :- Expression(left);
      var w :- Expression(right);
      if !Numeric(v, State(), dialect) || !Numeric(w, State(), dialect) {
        return Rejected("relational operands are not qualified numeric values");
      }
      return Success(Ir.Greater(v, w));
    }

    method AssignmentExpression(e: Expr) returns (out: Result<Ir.E>)
      requires e.Assignment?
      modifies this
      ensures Meets(out, State(), LowerExpr(e, old(State()), dialect))
      ensures Balanced()
      decreases e, 2
    {
      match e case Assignment(simple, target, right) =>
      if !target.NameTarget? { return Rejected("unsupported assignment target"); }
      if !simple { return Rejected("compound assignment"); }
      if target.name !in locals || !locals[target.name].Slot? { return Rejected("assignment outside local"); }
      var slot := locals[target.name].index;
      if mapDepth != 0 && slot < mapFloor { return Rejected("callback assignment to a captured slot is not qualified"); }
      var value :- Expression(right);
      return Success(Ir.Assign(slot, value));
    }

    method Expressions(es: seq<Expr>) returns (out: Result<seq<Ir.E>>)
      modifies this
      ensures Meets(out, State(), LowerAll(es, old(State()), dialect))
      ensures Balanced()
      decreases es, 0
    {
      hide LowerExpr;
      var result: seq<Ir.E> := [];
      BehindNothing(LowerAll(es, State(), dialect));
      for i := 0 to |es|
        invariant Balanced()
        invariant LowerAll(es, old(State()), dialect) == Produced(result, LowerAll(es[i..], State(), dialect))
      {
        assert es[i..][0] == es[i] && es[i..][1..] == es[i + 1..];
        AllStep(es[i..], State(), dialect);
        var value :- Expression(es[i]);
        ProducedTwice(result, [value], LowerAll(es[i + 1..], State(), dialect));
        result := result + [value];
      }
      assert es[|es|..] == [];
      BehindAll(result, State());
      return Success(result);
    }

    method ArgumentValue(a: Argument) returns (out: Result<Ir.E>)
      modifies this
      ensures Meets(out, State(), LowerArgument(a, old(State()), dialect))
      ensures Balanced()
      decreases a, 4
    {
      hide LowerExpr;
      match a
      case Plain(e) => out := Expression(e);
      case SpreadArgument => return Rejected("spread argument");
    }

    method Arguments(args: seq<Argument>) returns (out: Result<seq<Ir.E>>)
      modifies this
      ensures Meets(out, State(), LowerArguments(args, old(State()), dialect))
      ensures Balanced()
      decreases args, 0
    {
      hide LowerArgument;
      var result: seq<Ir.E> := [];
      BehindNothing(LowerArguments(args, State(), dialect));
      for i := 0 to |args|
        invariant Balanced()
        invariant LowerArguments(args, old(State()), dialect) == Produced(result, LowerArguments(args[i..], State(), dialect))
      {
        assert args[i..][0] == args[i] && args[i..][1..] == args[i + 1..];
        ArgumentsStep(args[i..], State(), dialect);
        var value :- ArgumentValue(args[i]);
        ProducedTwice(result, [value], LowerArguments(args[i + 1..], State(), dialect));
        result := result + [value];
      }
      assert args[|args|..] == [];
      BehindAll(result, State());
      return Success(result);
    }

    method Properties(ps: seq<Property>) returns (out: Result<seq<Ir.Entry>>)
      modifies this
      ensures Meets(out, State(), LowerProperties(ps, [], old(State()), dialect))
      ensures Balanced()
      decreases ps, 0
    {
      hide LowerProperty;
      var fields: seq<Ir.Entry> := [];
      for i := 0 to |ps|
        invariant Balanced()
        invariant LowerProperties(ps, [], old(State()), dialect) == LowerProperties(ps[i..], fields, State(), dialect)
      {
        assert ps[i..][0] == ps[i] && ps[i..][1..] == ps[i + 1..];
        var value :- PropertyValue(ps[i], fields);
        fields := fields + [Ir.Entry(ps[i].key.value, value)];
      }
      return Success(fields);
    }

    method PropertyValue(p: Property, fields: seq<Ir.Entry>) returns (out: Result<Ir.E>)
      modifies this
      ensures Meets(out, State(), LowerProperty(p, fields, old(State()), dialect))
      ensures Balanced()
      decreases p, 4
    {
      hide LowerExpr, HasEntry;
      match p
      case SpreadProperty => return Rejected("object spread");
      case Property(key, plain, e) =>
        if !plain { return Rejected("unsupported object property"); }
        if key.None? { return Rejected("dynamic object key"); }
        if key.value == "__proto__" || key.value == "toString" || key.value == "valueOf" {
          return Rejected("prototype-setting or coercion-override object properties are not qualified");
        }
        if HasEntry(fields, key.value) { return Rejected("duplicate object property"); }
        out := Expression(e);
    }

    /** The callback body sees its own names and analyses; only the slot count
        and the floor outlive it. */
    method Callback(f: Function) returns (out: Result<seq<Ir.S>>)
      requires CallbackRefusal(f).None?
      modifies this
      ensures Meets(out, State(), LowerCallback(f, old(State()), dialect))
      ensures Balanced()
      decreases f, 4
    {
      assert |f.params| == 1 && f.params[0].name.Some?;
      hide LowerStmts, Lowering.DeclareScope, CallbackRefusal;
      match f case Function(_, _, _, _, params, body) =>
      var outer, outerArrays, outerMutable := locals, arrays, mutable;
      locals := locals[params[0].name.value := Ir.Argument(Ir.ITEM)];
      mapFloor := slots;
      mapDepth := mapDepth + 1;
      var declared := DeclareScope(body);
      match declared {
        case Success(_) => out := Statements(body);
        case Rejected(reason) => out := Rejected(reason);
      }
      mapDepth := mapDepth - 1;
      locals, arrays, mutable := outer, outerArrays, outerMutable;
    }

    method MapCall(e: Expr) returns (out: Result<Ir.E>)
      requires e.Call? && e.callee.Member?
      modifies this
      ensures Meets(out, State(), LowerMap(e, old(State()), dialect))
      ensures Balanced()
      decreases e, 1
    {
      hide LowerExpr, LowerCallback, CallbackRefusal, OrdinaryArray;
      match e case Call(callee, arguments) =>
      match callee case Member(base, _, _) =>
      if |arguments| != 1 { return Rejected("map arity"); }
      match arguments[0]
      case SpreadArgument => return Rejected("spread argument");
      case Plain(callback) =>
        match callback
        case FunctionExpr(fn) =>
          var refusal := CallbackRefusal(fn);
          if refusal.Some? { return Rejected(refusal.value); }
          if mapDepth != 0 { return Rejected("nested map capture is not qualified"); }
          var input :- Expression(base);
          if !OrdinaryArray(input, State(), dialect) { return Rejected("map receiver is not a qualified ordinary array"); }
          var body :- Callback(fn);
          return Success(Ir.Map(input, body));
        case _ => return Rejected("map callback");
    }

    method CallExpression(e: Expr) returns (out: Result<Ir.E>)
      requires e.Call?
      modifies this
      ensures Meets(out, State(), LowerCall(e, old(State()), dialect))
      ensures Balanced()
      decreases e, 2
    {
      hide Module, LowerMap, LowerArguments, LowerArgument;
      match e case Call(callee, arguments) =>
      match callee
      case Member(base, name, _) =>
        if name == MAP {
          out := MapCall(e);
          return;
        }
        if Module(base, State(), dialect) == Some(dialect.vocabulary.decodeModule) && name == DECODE {
          if |arguments| != 2 { return Rejected("unqualified decoder arity"); }
          if arguments[0].SpreadArgument? { return Rejected("spread argument"); }
          var spec := arguments[0].expr;
          if !spec.Member? || spec.computed { return Rejected("unqualified decoder spec"); }
          if Module(spec.base, State(), dialect) != Some(dialect.vocabulary.specModule) { return Rejected("unqualified decoder module"); }
          if spec.property !in dialect.vocabulary.specs { return Rejected("unknown decoded spec"); }
          var v :- ArgumentValue(arguments[1]);
          return Success(Ir.Apply(dialect.vocabulary.specs[spec.property], [v]));
        }
        var values :- Arguments(arguments);
        if name in dialect.vocabulary.validators && base == Ident(dialect.receiver) && dialect.receiver !in locals {
          return Success(Ir.Validate(name, values));
        }
        var loaded := Module(base, State(), dialect);
        if loaded.Some? && (loaded.value, name) in dialect.vocabulary.transforms {
          return Success(Ir.Apply(dialect.vocabulary.transforms[(loaded.value, name)], values));
        }
        return Rejected("unsupported dependency " + name);
      case _ => return Rejected("unsupported callee");
    }
  }

  lemma SlotsOfOneMore(names: set<string>, name: string, locals: map<string, Ir.E>)
    ensures SlotsOf(names + {name}, locals) ==
            SlotsOf(names, locals) + if name in locals && locals[name].Slot? then {locals[name].index} else {}
  {}

  /** A throw whose first part is a report to the metric module. */
  predicate Reports(e: Expr, s: Scope, c: Dialect) {
    e.Comma? && |e.rest| == 1 && e.first.Call? && e.first.callee.Member? && e.first.callee.property == REPORT &&
    Module(e.first.callee.base, s, c) == Some(c.vocabulary.metricModule) && |e.first.arguments| == 2
  }

  lemma ThrowShape(e: Expr, s: Scope, c: Dialect)
    ensures !Reports(e, s, c) ==> LowerThrow(e, s, c) == Refused(
      if !e.Comma? then "unqualified throw"
      else if |e.rest| != 1 then "unsupported fatal side effects"
      else if !e.first.Call? then "missing fatal metric"
      else if !e.first.callee.Member? || e.first.callee.property != REPORT then "wrong fatal reporter"
      else "unqualified fatal reporter")
    ensures e.Comma? && |e.rest| == 1 && e.first.Call? && e.first.callee.Member? && e.first.callee.property == REPORT ==>
      (Reports(e, s, c) <==> Module(e.first.callee.base, s, c) == Some(c.vocabulary.metricModule) && |e.first.arguments| == 2)
    ensures Reports(e, s, c) ==>
      e.Comma? && |e.rest| == 1 && e.first.Call? && e.first.callee.Member? && e.first.callee.property == REPORT
  {
    hide LowerExpr, Module;
  }

  /** The second part once the first one is compiled. */
  function AfterReport(error: Expr, metric: Ir.E, s: Scope, c: Dialect): Lowered<seq<Ir.S>> {
    if error.New? && error.callee.Member? && error.callee.property == FATAL && |error.arguments| == 1 &&
       Module(error.callee.base, s, c) == Some(c.vocabulary.errorModule) && error.arguments[0].Plain? && error.arguments[0].expr.StringLit?
    then Accepted([Ir.Fatal(metric, error.arguments[0].expr.text)], s)
    else Refused(ErrorRefusal(error, s, c))
  }

  lemma ErrorShape(error: Expr, metric: Ir.E, s: Scope, c: Dialect)
    ensures AfterReport(error, metric, s, c) ==
      if !error.New? then Refused("missing fatal constructor")
      else if !error.callee.Member? || error.callee.property != FATAL then Refused("wrong fatal class")
      else if Module(error.callee.base, s, c) != Some(c.vocabulary.errorModule) || |error.arguments| != 1 then Refused("unqualified fatal class")
      else if error.arguments[0].SpreadArgument? then Refused("spread argument")
      else if !error.arguments[0].expr.StringLit? then Refused("dynamic fatal message")
      else Accepted([Ir.Fatal(metric, error.arguments[0].expr.text)], s)
  {
    hide Module;
  }

  lemma ReportSteps(e: Expr, s: Scope, c: Dialect)
    requires Reports(e, s, c)
    ensures LowerThrow(e, s, c) == match LowerArgument(e.first.arguments[0], s, c)
      case Refused(reason) => Refused(reason)
      case Accepted(metric, s1) =>
        match LowerArgument(e.first.arguments[1], s1, c)
        case Refused(reason) => Refused(reason)
        case Accepted(context, s2) =>
          if context != Ir.ObjectOf([Ir.Entry(COLLECTION, Ir.Argument(0))]) then Refused("unsupported reporting context")
          else AfterReport(e.rest[0], metric, s2, c)
  {
    hide LowerExpr, Module;
  }

  lemma {:induction false} FirstRefused(params: seq<Param>, i: nat)
    requires i < |params| && (params[i].initialized || params[i].name.None?)
    requires forall k | 0 <= k < i :: !params[k].initialized && params[k].name.Some?
    ensures ParamRefusal(params) == if params[i].initialized then "parameter initializers are not qualified" else "unsupported parameter"
  {
    if i > 0 { FirstRefused(params[1..], i - 1); }
  }

  /** Compile one validator with a fresh compiler object. */
  method Compile(f: Function, dialect: Dialect) returns (out: Result<Ir.Program>)
    ensures match LowerFunction(f, dialect) case Accepted(p, _) => out == Success(p) case Refused(reason) => out == Rejected(reason)
    ensures out.Success? <==> Qualification.Qualified(f, dialect)
  {
    Acceptance.LowersExactly(f, dialect);
    hide LowerStmts, Lowering.DeclareScope, Qualification.Qualified;
    if f.name.Some? { return Rejected("named validator expressions are not qualified"); }
    if f.isAsync || f.isGenerator || f.hasRest {
      return Rejected("asynchronous, generator or rest validator is not qualified");
    }
    var lower := new Lower(dialect);
    for i := 0 to |f.params|
      invariant fresh(lower) && lower.dialect == dialect
      invariant forall k | 0 <= k < i :: !f.params[k].initialized && f.params[k].name.Some?
      invariant lower.State() == Scope(ParamLocals(f.params, i), 0, 0, 0, {}, {})
    {
      if f.params[i].initialized || f.params[i].name.None? {
        assert f.params[i] in f.params;
        FirstRefused(f.params, i);
      }
      if f.params[i].initialized { return Rejected("parameter initializers are not qualified"); }
      if f.params[i].name.None? { return Rejected("unsupported parameter"); }
      lower.locals := lower.locals[f.params[i].name.value := Ir.Argument(i)];
    }
    var ignored :- lower.DeclareScope(f.body);
    var body :- lower.Statements(f.body);
    return Success(Ir.Program(|f.params|, body));
  }
}
