/** The typing rule that every call of a known validator has as many arguments as the
    validator has parameters: a program that keeps it cannot tell what calls of another
    length would answer. */
module CallArity {
  import opened Values
  import Ir

  /** Number of parameters of the validators one module defines. */
  type Arities = map<string, nat>

  predicate Fitting(callee: Callee, args: seq<Value>, arity: Arities) {
    callee.Validator? && callee.name in arity ==> |args| == arity[callee.name]
  }

  // ---------------------------------------------------------------- the rule

  predicate FitsExpr(e: Ir.E, arity: Arities)
    decreases e, 3
  {
    match e
    case FieldOf(x, _) => FitsExpr(x, arity)
    case Not(x) => FitsExpr(x, arity)
    case IsNullish(x, _) => FitsExpr(x, arity)
    case And(x, y) => FitsExpr(x, arity) && FitsExpr(y, arity)
    case Or(x, y) => FitsExpr(x, arity) && FitsExpr(y, arity)
    case Greater(x, y) => FitsExpr(x, arity) && FitsExpr(y, arity)
    case Choose(x, y, z) => FitsExpr(x, arity) && FitsExpr(y, arity) && FitsExpr(z, arity)
    case Assign(_, x) => FitsExpr(x, arity)
    case Sequence(es) => FitsAll(es, arity)
    case ObjectOf(entries) => FitsEntries(entries, arity)
    case Map(x, body) => FitsExpr(x, arity) && FitsBody(body, arity)
    case Validate(name, es) => (name in arity ==> |es| == arity[name]) && FitsAll(es, arity)
    case Apply(_, es) => FitsAll(es, arity)
    case _ => true
  }

  predicate FitsAll(es: seq<Ir.E>, arity: Arities)
    decreases es, 0
  {
    es == [] || (FitsExpr(es[0], arity) && FitsAll(es[1..], arity))
  }

  predicate FitsEntry(entry: Ir.Entry, arity: Arities)
    decreases entry, 4
  {
    FitsExpr(entry.value, arity)
  }

  predicate FitsEntries(entries: seq<Ir.Entry>, arity: Arities)
    decreases entries, 0
  {
    entries == [] || (FitsEntry(entries[0], arity) && FitsEntries(entries[1..], arity))
  }

  predicate FitsStmt(s: Ir.S, arity: Arities)
    decreases s, 4
  {
    match s
    case Bind(_, x) => FitsExpr(x, arity)
    case If(x, yes, no) => FitsExpr(x, arity) && FitsBody(yes, arity) && FitsBody(no, arity)
    case Evaluate(x) => FitsExpr(x, arity)
    case Fatal(x, _) => FitsExpr(x, arity)
    case Return(x) => FitsExpr(x, arity)
  }

  predicate FitsBody(body: seq<Ir.S>, arity: Arities)
    decreases body, 0
  {
    body == [] || (FitsStmt(body[0], arity) && FitsBody(body[1..], arity))
  }

  // ---------------------------------------------------------------- what it gives

  /** The same answers to all calls of the right length. */
  ghost predicate AlikeOn(a: Oracle, b: Oracle, arity: Arities) {
    forall log, callee, args | Fitting(callee, args, arity) :: a(log, callee, args) == b(log, callee, args)
  }

  ghost predicate Twins(f: Ir.Frame, g: Ir.Frame, arity: Arities) {
    f.args == g.args && f.item == g.item && AlikeOn(f.oracle, g.oracle, arity)
  }

  lemma CallWithAlike(callee: Callee, args: Out<seq<Value>, Ir.Slots>, f: Ir.Frame, g: Ir.Frame, arity: Arities)
    requires Twins(f, g, arity) && (args.Val? ==> Fitting(callee, args.value, arity))
    ensures Ir.CallWith(callee, args, f.oracle) == Ir.CallWith(callee, args, g.oracle)
  {}

  lemma {:induction false} EvalAlike(e: Ir.E, store: Ir.Slots, log: Log, f: Ir.Frame, g: Ir.Frame, arity: Arities)
    requires FitsExpr(e, arity) && Twins(f, g, arity)
    ensures Ir.Eval(e, store, log, f) == Ir.Eval(e, store, log, g)
    decreases e, 3
  {
    match e
    case And(x, y) => TwoAlike(e, store, log, f, g, arity);
    case Or(x, y) => TwoAlike(e, store, log, f, g, arity);
    case Greater(x, y) => TwoAlike(e, store, log, f, g, arity);
    case Choose(x, y, z) => TwoAlike(e, store, log, f, g, arity);
    case Map(x, body) =>
      hide AlikeOn, FitsBody, Ir.MapOver, Twins;
      EvalAlike(x, store, log, f, g, arity);
      MapOverAlike(Ir.Eval(x, store, log, f), body, f, g, arity);
    case Validate(_, _) => CallingAlike(e, store, log, f, g, arity);
    case Apply(_, _) => CallingAlike(e, store, log, f, g, arity);
    case _ => SimpleAlike(e, store, log, f, g, arity);
  }

  /** Expressions of one part, or of a list. */
  lemma {:induction false} SimpleAlike(e: Ir.E, store: Ir.Slots, log: Log, f: Ir.Frame, g: Ir.Frame, arity: Arities)
    requires !e.And? && !e.Or? && !e.Greater? && !e.Choose? && !e.Map? && !e.Validate? && !e.Apply?
    requires FitsExpr(e, arity) && Twins(f, g, arity)
    ensures Ir.Eval(e, store, log, f) == Ir.Eval(e, store, log, g)
    decreases e, 2
  {
    hide AlikeOn, FitsAll, FitsEntries, Ir.EvalAll, Ir.EvalEntries, Twins;
    TwinsShare(f, g, arity);
    match e
    case FieldOf(x, _) => EvalAlike(x, store, log, f, g, arity);
    case Not(x) => EvalAlike(x, store, log, f, g, arity);
    case IsNullish(x, _) => EvalAlike(x, store, log, f, g, arity);
    case Assign(_, x) => EvalAlike(x, store, log, f, g, arity);
    case Sequence(es) => EvalAllAlike(es, store, log, f, g, arity);
    case ObjectOf(entries) => EvalEntriesAlike(entries, store, log, f, g, arity);
    case _ =>
  }

  lemma {:induction false} TwoAlike(e: Ir.E, store: Ir.Slots, log: Log, f: Ir.Frame, g: Ir.Frame, arity: Arities)
    requires (e.And? || e.Or? || e.Greater? || e.Choose?) && FitsExpr(e, arity) && Twins(f, g, arity)
    ensures Ir.Eval(e, store, log, f) == Ir.Eval(e, store, log, g)
    decreases e, 2
  {
    hide Twins;
    match e
    case And(x, y) => ThenAlike(e, x, y, store, log, f, g, arity);
    case Or(x, y) => ThenAlike(e, x, y, store, log, f, g, arity);
    case Greater(x, y) => ThenAlike(e, x, y, store, log, f, g, arity);
    case Choose(x, y, z) => ThenAlike(e, x, y, store, log, f, g, arity); ThenAlike(e, x, z, store, log, f, g, arity);
  }

  lemma {:induction false} CallingAlike(e: Ir.E, store: Ir.Slots, log: Log, f: Ir.Frame, g: Ir.Frame, arity: Arities)
    requires (e.Validate? || e.Apply?) && FitsExpr(e, arity) && Twins(f, g, arity)
    ensures Ir.Eval(e, store, log, f) == Ir.Eval(e, store, log, g)
    decreases e, 2
  {
    hide FitsAll, Ir.EvalAll, Ir.CallWith, Fitting, Twins;
    var es := e.arguments;
    EvalAllAlike(es, store, log, f, g, arity);
    var callee := if e.Validate? then Validator(e.validator) else Transform(e.transform);
    CallFits(callee, es, Ir.EvalAll(es, store, log, f), arity);
    CallWithAlike(callee, Ir.EvalAll(es, store, log, f), f, g, arity);
  }

  lemma TwinsShare(f: Ir.Frame, g: Ir.Frame, arity: Arities)
    requires Twins(f, g, arity)
    ensures f.args == g.args && f.item == g.item
    ensures forall v :: Twins(f.(item := v), g.(item := v), arity)
  {
    hide AlikeOn;
  }

  lemma CallFits(callee: Callee, es: seq<Ir.E>, args: Out<seq<Value>, Ir.Slots>, arity: Arities)
    requires callee.Validator? && callee.name in arity ==> |es| == arity[callee.name]
    requires args.Val? ==> |args.value| == |es|
    ensures args.Val? ==> Fitting(callee, args.value, arity)
  {}

  /** One part of an expression, then another in whatever state the first one left. */
  lemma {:induction false} ThenAlike(e: Ir.E, x: Ir.E, y: Ir.E, store: Ir.Slots, log: Log, f: Ir.Frame, g: Ir.Frame, arity: Arities)
    requires x < e && y < e && FitsExpr(x, arity) && FitsExpr(y, arity) && Twins(f, g, arity)
    ensures Ir.Eval(x, store, log, f) == Ir.Eval(x, store, log, g)
    ensures var out := Ir.Eval(x, store, log, f);
      out.Val? ==> Ir.Eval(y, out.state, out.log, f) == Ir.Eval(y, out.state, out.log, g)
    decreases e, 1
  {
    hide *;
    EvalAlike(x, store, log, f, g, arity);
    var out := Ir.Eval(x, store, log, f);
    if out.Val? { EvalAlike(y, out.state, out.log, f, g, arity); }
  }

  lemma {:induction false} EvalAllAlike(es: seq<Ir.E>, store: Ir.Slots, log: Log, f: Ir.Frame, g: Ir.Frame, arity: Arities)
    requires FitsAll(es, arity) && Twins(f, g, arity)
    ensures Ir.EvalAll(es, store, log, f) == Ir.EvalAll(es, store, log, g)
    decreases es, 0
  {
    hide Twins, FitsExpr, Ir.Eval;
    if es != [] {
      EvalAlike(es[0], store, log, f, g, arity);
      var out := Ir.Eval(es[0], store, log, f);
      if out.Val? { EvalAllAlike(es[1..], out.state, out.log, f, g, arity); }
    }
  }

  lemma {:induction false} EvalEntryAlike(entry: Ir.Entry, store: Ir.Slots, log: Log, f: Ir.Frame, g: Ir.Frame, arity: Arities)
    requires FitsEntry(entry, arity) && Twins(f, g, arity)
    ensures Ir.EvalEntry(entry, store, log, f) == Ir.EvalEntry(entry, store, log, g)
    decreases entry, 4
  {
    hide Twins, FitsExpr, Ir.Eval;
    match entry case Entry(_, x) => EvalAlike(x, store, log, f, g, arity);
  }

  lemma {:induction false} EvalEntriesAlike(entries: seq<Ir.Entry>, store: Ir.Slots, log: Log, f: Ir.Frame, g: Ir.Frame, arity: Arities)
    requires FitsEntries(entries, arity) && Twins(f, g, arity)
    ensures Ir.EvalEntries(entries, store, log, f) == Ir.EvalEntries(entries, store, log, g)
    decreases entries, 0
  {
    hide Twins, FitsEntry, Ir.EvalEntry;
    if entries != [] {
      EvalEntryAlike(entries[0], store, log, f, g, arity);
      var out := Ir.EvalEntry(entries[0], store, log, f);
      if out.Val? { EvalEntriesAlike(entries[1..], out.state, out.log, f, g, arity); }
    }
  }

  lemma {:induction false} MapOverAlike(input: Out<Value, Ir.Slots>, body: seq<Ir.S>, f: Ir.Frame, g: Ir.Frame, arity: Arities)
    requires FitsBody(body, arity) && Twins(f, g, arity)
    ensures Ir.MapOver(input, body, f) == Ir.MapOver(input, body, g)
    decreases body, 2
  {
    hide Twins, FitsBody, Ir.MapItems;
    if input.Val? && input.value.Array? { MapItemsAlike(body, input.value.items, input.state, input.log, f, g, arity); }
  }

  lemma {:induction false} MapItemsAlike(body: seq<Ir.S>, items: seq<Value>, store: Ir.Slots, log: Log, f: Ir.Frame, g: Ir.Frame, arity: Arities)
    requires FitsBody(body, arity) && Twins(f, g, arity)
    ensures Ir.MapItems(body, items, store, log, f) == Ir.MapItems(body, items, store, log, g)
    decreases body, 1, |items|
  {
    hide Twins, FitsBody, Ir.Run;
    if items != [] {
      TwinsShare(f, g, arity);
      var own := Ir.OwnedSlots(body);
      RunAlike(body, Ir.Declare(store, own), log, f.(item := Some(items[0])), g.(item := Some(items[0])), arity);
      match Ir.Run(body, Ir.Declare(store, own), log, f.(item := Some(items[0])))
      case Raised(_, _) =>
      case Next(store1, log1) => MapItemsAlike(body, items[1..], Ir.Leave(store1, own), log1, f, g, arity);
      case Returned(_, store1, log1) => MapItemsAlike(body, items[1..], Ir.Leave(store1, own), log1, f, g, arity);
    }
  }

  lemma {:induction false} RunAlike(body: seq<Ir.S>, store: Ir.Slots, log: Log, f: Ir.Frame, g: Ir.Frame, arity: Arities)
    requires FitsBody(body, arity) && Twins(f, g, arity)
    ensures Ir.Run(body, store, log, f) == Ir.Run(body, store, log, g)
    decreases body, 0
  {
    hide Twins, FitsStmt, Ir.RunStmt;
    if body != [] {
      RunStmtAlike(body[0], store, log, f, g, arity);
      var out := Ir.RunStmt(body[0], store, log, f);
      if out.Next? { RunAlike(body[1..], out.state, out.log, f, g, arity); }
    }
  }

  lemma {:induction false} RunStmtAlike(s: Ir.S, store: Ir.Slots, log: Log, f: Ir.Frame, g: Ir.Frame, arity: Arities)
    requires FitsStmt(s, arity) && Twins(f, g, arity)
    ensures Ir.RunStmt(s, store, log, f) == Ir.RunStmt(s, store, log, g)
    decreases s, 4
  {
    TwinsShare(f, g, arity);
    hide Twins, FitsExpr, FitsBody, Ir.Eval, Ir.Run;
    match s
    case Bind(_, x) => EvalAlike(x, store, log, f, g, arity);
    case If(x, yes, no) =>
      EvalAlike(x, store, log, f, g, arity);
      var out := Ir.Eval(x, store, log, f);
      if out.Val? {
        RunAlike(yes, out.state, out.log, f, g, arity);
        RunAlike(no, out.state, out.log, f, g, arity);
      }
    case Evaluate(x) => EvalAlike(x, store, log, f, g, arity);
    case Fatal(x, _) => EvalAlike(x, store, log, f, g, arity);
    case Return(x) => EvalAlike(x, store, log, f, g, arity);
  }

  /** A program that keeps the rule runs alike in two worlds that differ only in what they
      answer to calls of the wrong length: it makes none. */
  lemma CallAlike(p: Ir.Program, args: seq<Value>, log: Log, a: Oracle, b: Oracle, arity: Arities)
    requires FitsBody(p.body, arity) && AlikeOn(a, b, arity)
    ensures Ir.Call(p, args, log, a) == Ir.Call(p, args, log, b)
  {
    hide AlikeOn, FitsBody, Ir.Run;
    RunAlike(p.body, Ir.Declare(map[], Ir.OwnedSlots(p.body)), log, Ir.Frame(args, None, a), Ir.Frame(args, None, b), arity);
  }
}
