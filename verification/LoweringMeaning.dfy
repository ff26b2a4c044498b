/** Compiling preserves meaning: an accepted script and its program give the same
    value or failure and make the same dependency calls in the same order. */
module LoweringMeaning {
  import opened Values
  import opened Script
  import opened Lowering
  import opened LoweringFacts
  import Ir

  // ---------------------------------------------------------------- the relation

  /** One body's compile-time and run-time surroundings belong together. */
  ghost predicate SameWorld(r: Realm, c: Dialect, f: Ir.Frame) {
    r.loaders == c.requires_ && r.receiver == c.receiver && r.vocabulary == c.vocabulary &&
    forall log, callee, args :: r.oracle(log, callee, args) == f.oracle(log, callee, args)
  }

  /** The designated argument, or its designated field, is an array (or absent). */
  ghost predicate Conforms(args: seq<Value>, c: Dialect) {
    (c.arrayArgument ==> ArrayOrNullish(ArgAt(args, 1))) &&
    (c.arrayField.Some? ==>
       var x := ReadField(ArgAt(args, 1), c.arrayField.value);
       x.Failed? || ArrayOrNullish(x.value))
  }

  /** The world only ever answers with outcomes the semantics knows. */
  ghost predicate Modelled(oracle: Oracle) {
    forall log, callee, args :: oracle(log, callee, args).answer != Failed(Unmodelled)
  }

  /** Slots below the floor belong to the enclosing body. */
  function Floor(s: Scope): nat {
    if s.mapDepth != 0 then s.mapFloor else 0
  }

  ghost predicate Means(local: Ir.E, v: Value, store: Ir.Slots, f: Ir.Frame) {
    match local
    case Slot(i) => i in store && store[i] == v
    case Argument(i) => if i == Ir.ITEM then f.item == Some(v) else v == ArgAt(f.args, i)
    case _ => false
  }

  /** The scope chain and the slot store hold the same variables. */
  ghost predicate Agrees(env: Env, s: Scope, store: Ir.Slots, f: Ir.Frame) {
    && (forall n :: Bound(env, n) <==> n in s.locals)
    && (forall n | n in s.locals :: Means(s.locals[n], Lookup(env, n), store, f))
    && (forall n, m | n in s.locals && m in s.locals && s.locals[n].Slot? && s.locals[n] == s.locals[m] :: n == m)
    && (forall n | n in s.locals && s.locals[n].Slot? && Floor(s) <= s.locals[n].index :: n in env.frame)
    && (forall i | i in store :: i < s.slots)
    && (forall i | i in s.arrays :: i < s.slots)
    && (s.mapDepth == 0 ==> forall n | n in s.locals :: s.locals[n] != Ir.Argument(Ir.ITEM))
  }

  /** Slots qualified as arrays hold arrays, unless they are still unset. */
  ghost predicate ArraysHold(s: Scope, store: Ir.Slots) {
    forall i | i in s.arrays && i !in s.mutable && i in store :: ArrayOrNullish(store[i])
  }

  /** Every assigned name is known to vary. */
  ghost predicate Varying(names: set<string>, s: Scope) {
    forall n | n in names && n in s.locals && s.locals[n].Slot? :: s.locals[n].index in s.mutable
  }

  ghost predicate SameOuter(env: Env, env1: Env) {
    env1.Inner? == env.Inner? && (env.Inner? ==> env1.outer == env.outer)
  }

  /** Only slots in `touched`, and none below the floor, may have changed. */
  ghost predicate Untouched(store: Ir.Slots, store1: Ir.Slots, touched: set<nat>, floor: nat) {
    store1.Keys == store.Keys && forall i | i in store && (i !in touched || i < floor) :: store1[i] == store[i]
  }

  ghost predicate Fails(f: Failure, g: Failure, oracle: Oracle) {
    f == g && (Modelled(oracle) ==> f != Unmodelled)
  }

  /** Corresponding outcomes of an expression and of its program. */
  ghost predicate SameOut<A>(jo: Out<A, Env>, io: Out<A, Ir.Slots>, env: Env, store: Ir.Slots, s: Scope, s1: Scope, f: Ir.Frame) {
    match (jo, io)
    case (Val(v, env1, log1), Val(w, store1, log2)) =>
      v == w && log1 == log2 && Agrees(env1, s1, store1, f) && ArraysHold(s1, store1) &&
      SameOuter(env, env1) && Untouched(store, store1, s.mutable, Floor(s))
    case (Err(x, log1), Err(y, log2)) => Fails(x, y, f.oracle) && log1 == log2
    case _ => false
  }

  // ---------------------------------------------------------------- facts about scopes

  lemma {:induction false} StoreLookup(env: Env, n: string, v: Value)
    requires Bound(env, n)
    ensures forall m :: Bound(Store(env, n, v), m) <==> Bound(env, m)
    ensures forall m | Bound(env, m) :: Lookup(Store(env, n, v), m) == if m == n then v else Lookup(env, m)
    ensures n in env.frame ==> SameOuter(env, Store(env, n, v)) && Store(env, n, v).frame.Keys == env.frame.Keys
    decreases env
  {
    if n !in env.frame { StoreLookup(env.outer, n, v); }
  }

  /** Writing a variable and its slot keeps the two in step. */
  lemma StoreAgrees(env: Env, s: Scope, store: Ir.Slots, f: Ir.Frame, n: string, v: Value)
    requires Agrees(env, s, store, f) && n in s.locals && s.locals[n].Slot? && Floor(s) <= s.locals[n].index
    ensures Bound(env, n) && s.locals[n].index in store
    ensures Agrees(Store(env, n, v), s, store[s.locals[n].index := v], f)
    ensures SameOuter(env, Store(env, n, v))
  {
    assert Bound(env, n);
    assert Means(s.locals[n], Lookup(env, n), store, f);
    StoreLookup(env, n, v);
    var store1 := store[s.locals[n].index := v];
    forall m | m in s.locals
      ensures Means(s.locals[m], Lookup(Store(env, n, v), m), store1, f)
    {
      assert Means(s.locals[m], Lookup(env, m), store, f);
    }
  }

  /** What the array analysis calls an ordinary array evaluates to one, or to
      nothing at all because its only binding has not run. */
  lemma OrdinaryArrayIsArray(v: Ir.E, s: Scope, c: Dialect, store: Ir.Slots, log: Log, f: Ir.Frame)
    requires OrdinaryArray(v, s, c) && Conforms(f.args, c) && ArraysHold(s, store)
    ensures var out := Ir.Eval(v, store, log, f);
      out.Val? ==> ArrayOrNullish(out.value)
  {
    if v.FieldOf? { assert v.base == Ir.Argument(1); }
  }

  lemma NumericIsNumber(v: Ir.E, s: Scope, c: Dialect, store: Ir.Slots, log: Log, f: Ir.Frame)
    requires Numeric(v, s, c) && Conforms(f.args, c) && ArraysHold(s, store)
    ensures var out := Ir.Eval(v, store, log, f);
      out.Val? ==> out.value.Number?
  {
    if v.FieldOf? { OrdinaryArrayIsArray(v.base, s, c, store, log, f); }
  }

  lemma NumericReady(v: Ir.E, s: Scope, s1: Scope, env: Env, names: set<string>, c: Dialect, store: Ir.Slots, log: Log, r: Realm, f: Ir.Frame)
    requires Numeric(v, s1, c) && Extends(s, s1) && Ready(env, s, store, names, c, r, f)
    ensures var out := Ir.Eval(v, store, log, f);
      out.Val? ==> out.value.Number?
  {
    NumericIsNumber(v, s, c, store, log, f);
  }

  lemma ModuleReady(e: Expr, env: Env, s: Scope, store: Ir.Slots, names: set<string>, c: Dialect, r: Realm, f: Ir.Frame)
    requires Ready(env, s, store, names, c, r, f)
    ensures LoadedModule(e, env, r.loaders) == Module(e, s, c)
    ensures r.vocabulary == c.vocabulary && r.receiver == c.receiver
    ensures Bound(env, c.receiver) <==> c.receiver in s.locals
  {
  }

  /** Everything the simulation of a piece of code that assigns `names` starts from. */
  ghost predicate Ready(env: Env, s: Scope, store: Ir.Slots, names: set<string>, c: Dialect, r: Realm, f: Ir.Frame) {
    SameWorld(r, c, f) && Conforms(f.args, c) && Agrees(env, s, store, f) && ArraysHold(s, store) && Varying(names, s)
  }

  /** A step followed by a step is a step. */
  lemma Then<A>(jo: Out<A, Env>, io: Out<A, Ir.Slots>, env: Env, store: Ir.Slots, s: Scope, env1: Env, store1: Ir.Slots, s1: Scope, s2: Scope, f: Ir.Frame)
    requires Extends(s, s1)
    requires SameOuter(env, env1) && Untouched(store, store1, s.mutable, Floor(s))
    requires SameOut(jo, io, env1, store1, s1, s2, f)
    ensures SameOut(jo, io, env, store, s, s2, f)
  {}

  /** Ready for a whole is ready for its parts, also after more compiling. */
  lemma Narrow(env: Env, s: Scope, s1: Scope, store: Ir.Slots, names: set<string>, part: set<string>, c: Dialect, r: Realm, f: Ir.Frame)
    requires Ready(env, s, store, names, c, r, f) && part <= names && (s == s1 || Extends(s, s1))
    ensures Ready(env, s1, store, part, c, r, f)
  {}

  /** A value computed without touching anything. */
  lemma Unchanged<A>(v: A, env: Env, s: Scope, s1: Scope, store: Ir.Slots, log: Log, names: set<string>, c: Dialect, r: Realm, f: Ir.Frame)
    requires Ready(env, s, store, names, c, r, f) && (s == s1 || Extends(s, s1))
    ensures SameOut<A>(Val(v, env, log), Val(v, store, log), env, store, s, s1, f)
  {}

  /** A further value computed from an outcome without touching anything. */
  lemma Onward<A>(v: A, env: Env, store: Ir.Slots, s: Scope, env1: Env, store1: Ir.Slots, s1: Scope, s2: Scope, log: Log, f: Ir.Frame)
    requires Agrees(env1, s1, store1, f) && ArraysHold(s1, store1) && SameOuter(env, env1) && Untouched(store, store1, s.mutable, Floor(s))
    requires Extends(s1, s2)
    ensures SameOut<A>(Val(v, env1, log), Val(v, store1, log), env, store, s, s2, f)
  {}

  lemma ExtendsTransitive(s: Scope, s1: Scope, s2: Scope)
    requires Extends(s, s1) && Extends(s1, s2)
    ensures Extends(s, s2)
  {}

  /** The state after the first of two steps is ready for the second. */
  lemma StillReady<A>(jo: Out<A, Env>, io: Out<A, Ir.Slots>, env: Env, store: Ir.Slots, s: Scope, s1: Scope,
                      names: set<string>, rest: set<string>, c: Dialect, r: Realm, f: Ir.Frame)
    requires Ready(env, s, store, names, c, r, f) && rest <= names && Extends(s, s1)
    requires SameOut(jo, io, env, store, s, s1, f)
    ensures jo.Val? ==> Ready(jo.state, s1, io.state, rest, c, r, f)
  {}

  // ---------------------------------------------------------------- expressions

  lemma {:induction false} ExprSame(e: Expr, s: Scope, c: Dialect, env: Env, store: Ir.Slots, log: Log, r: Realm, f: Ir.Frame)
    requires LowerExpr(e, s, c).Accepted? && Ready(env, s, store, Assigned(e), c, r, f)
    ensures var low := LowerExpr(e, s, c);
      SameOut(Eval(e, env, log, r), Ir.Eval(low.value, store, log, f), env, store, s, low.scope, f)
    decreases e, 3
  {
    hide *;
    match e
    case Member(_, _, _) => MemberSame(e, s, c, env, store, log, r, f);
    case Logical(_, _, _) => LogicalSame(e, s, c, env, store, log, r, f);
    case Binary(_, _, _) => BinarySame(e, s, c, env, store, log, r, f);
    case Conditional(_, _, _) => ConditionalSame(e, s, c, env, store, log, r, f);
    case Assignment(_, _, _) => AssignmentSame(e, s, c, env, store, log, r, f);
    case Comma(_, _) => CommaSame(e, s, c, env, store, log, r, f);
    case ObjectLit(_) => ObjectSame(e, s, c, env, store, log, r, f);
    case Call(_, _) => CallSame(e, s, c, env, store, log, r, f);
    case _ => SimpleSame(e, s, c, env, store, log, r, f);
  }

  lemma {:induction false} SimpleSame(e: Expr, s: Scope, c: Dialect, env: Env, store: Ir.Slots, log: Log, r: Realm, f: Ir.Frame)
    requires e.Paren? || e.Ident? || e.NullLit? || e.NumberLit? || e.StringLit? || e.Void? || e.LogicalNot? || e.New? || e.FunctionExpr? || e.OtherExpr?
    requires LowerExpr(e, s, c).Accepted? && Ready(env, s, store, Assigned(e), c, r, f)
    ensures var low := LowerExpr(e, s, c);
      SameOut(Eval(e, env, log, r), Ir.Eval(low.value, store, log, f), env, store, s, low.scope, f)
    decreases e, 2
  {
    hide Ready, Agrees, ArraysHold, SameWorld, Conforms, Varying, SameOuter, Untouched, Extends, Modelled, LowerCall, LowerAll, LowerProperties, EvalCall, EvalAll, EvalProperties, OrdinaryArray, Ir.EvalAll, Ir.EvalEntries, Ir.MapOver, Ir.CallWith, Numeric, Module, LoadedModule, GetProperty, HasEntry;
    match e
    case Paren(x) => ExprSame(x, s, c, env, store, log, r, f);
    case Ident(n) => IdentSame(n, s, c, env, store, log, Assigned(e), r, f);
    case NullLit => Unchanged(Null, env, s, s, store, log, Assigned(e), c, r, f);
    case NumberLit(x) => Unchanged(Number(Finite(x)), env, s, s, store, log, Assigned(e), c, r, f);
    case StringLit(t) => Unchanged(Text(t), env, s, s, store, log, Assigned(e), c, r, f);
    case Void(_) => VoidSame(e, s, c, env, store, log, r, f);
    case LogicalNot(_) => NotSame(e, s, c, env, store, log, r, f);
  }

  lemma {:induction false} NotSame(e: Expr, s: Scope, c: Dialect, env: Env, store: Ir.Slots, log: Log, r: Realm, f: Ir.Frame)
    requires e.LogicalNot? && LowerExpr(e, s, c).Accepted? && Ready(env, s, store, Assigned(e), c, r, f)
    ensures var low := LowerExpr(e, s, c);
      SameOut(Eval(e, env, log, r), Ir.Eval(low.value, store, log, f), env, store, s, low.scope, f)
    decreases e, 1
  {
    hide Ready, Agrees, ArraysHold, SameWorld, Conforms, Varying, SameOuter, Untouched, Extends, Modelled, LowerCall, LowerAll, LowerProperties, EvalCall, EvalAll, EvalProperties, OrdinaryArray, Ir.EvalAll, Ir.EvalEntries, Ir.MapOver, Ir.CallWith, Numeric, Module, LoadedModule, GetProperty, HasEntry;
    match e case LogicalNot(x) =>
    ExprSame(x, s, c, env, store, log, r, f);
  }

  lemma VoidSame(e: Expr, s: Scope, c: Dialect, env: Env, store: Ir.Slots, log: Log, r: Realm, f: Ir.Frame)
    requires e.Void? && LowerExpr(e, s, c).Accepted? && Ready(env, s, store, Assigned(e), c, r, f)
    ensures var low := LowerExpr(e, s, c);
      SameOut(Eval(e, env, log, r), Ir.Eval(low.value, store, log, f), env, store, s, low.scope, f)
    decreases e, 1
  {
    hide Ready, Agrees, ArraysHold, SameWorld, Conforms, Varying, SameOuter, Untouched, Extends, Modelled, LowerCall, LowerAll, LowerProperties, EvalCall, EvalAll, EvalProperties, OrdinaryArray, Ir.EvalAll, Ir.EvalEntries, Ir.MapOver, Ir.CallWith, Numeric, Module, LoadedModule, GetProperty, HasEntry;
    match e case Void(x) =>
    assert Eval(x, env, log, r) == Val(Number(Finite(0.0)), env, log);
    Unchanged(Undefined, env, s, s, store, log, Assigned(e), c, r, f);
  }

  lemma {:induction false} ObjectSame(e: Expr, s: Scope, c: Dialect, env: Env, store: Ir.Slots, log: Log, r: Realm, f: Ir.Frame)
    requires e.ObjectLit? && LowerExpr(e, s, c).Accepted? && Ready(env, s, store, Assigned(e), c, r, f)
    ensures var low := LowerExpr(e, s, c);
      SameOut(Eval(e, env, log, r), Ir.Eval(low.value, store, log, f), env, store, s, low.scope, f)
    decreases e, 2
  {
    hide Ready, Agrees, ArraysHold, SameWorld, Conforms, Varying, SameOuter, Untouched, Extends, Modelled, LowerCall, LowerAll, EvalCall, EvalAll, OrdinaryArray, Ir.MapOver, Ir.CallWith, Numeric, Module, LoadedModule, GetProperty, HasEntry, Lowering.SafeInteger;
    match e case ObjectLit(ps) =>
    PropertiesSame(ps, [], [], Assigned(e), s, c, env, store, log, r, f);
    var entries := LowerProperties(ps, [], s, c).value;
    assert entries[0..] == entries;
    var io := Ir.EvalEntries(entries, store, log, f);
    if io.Val? { assert [] + io.value == io.value; }
  }

  lemma IdentSame(n: string, s: Scope, c: Dialect, env: Env, store: Ir.Slots, log: Log, names: set<string>, r: Realm, f: Ir.Frame)
    requires n in s.locals && Ready(env, s, store, names, c, r, f)
    ensures SameOut(Eval(Ident(n), env, log, r), Ir.Eval(s.locals[n], store, log, f), env, store, s, s, f)
  {
    assert Means(s.locals[n], Lookup(env, n), store, f);
  }

  lemma {:induction false} LogicalSame(e: Expr, s: Scope, c: Dialect, env: Env, store: Ir.Slots, log: Log, r: Realm, f: Ir.Frame)
    requires e.Logical? && LowerExpr(e, s, c).Accepted? && Ready(env, s, store, Assigned(e), c, r, f)
    ensures var low := LowerExpr(e, s, c);
      SameOut(Eval(e, env, log, r), Ir.Eval(low.value, store, log, f), env, store, s, low.scope, f)
    decreases e, 2
  {
    hide Ready, Agrees, ArraysHold, SameWorld, Conforms, Varying, SameOuter, Untouched, Extends, Modelled, LowerCall, LowerAll, LowerProperties, EvalCall, EvalAll, EvalProperties, OrdinaryArray, Ir.EvalAll, Ir.EvalEntries, Ir.MapOver, Ir.CallWith, Numeric, Module, LoadedModule, GetProperty, HasEntry, Lowering.SafeInteger;
    match e case Logical(op, left, right) =>
    var v := LowerExpr(left, s, c);
    var w := LowerExpr(right, v.scope, c);
    Narrow(env, s, s, store, Assigned(e), Assigned(left), c, r, f);
    ExprSame(left, s, c, env, store, log, r, f);
    ExprExtends(left, s, c);
    ExprExtends(right, v.scope, c);
    var jo, io := Eval(left, env, log, r), Ir.Eval(v.value, store, log, f);
    StillReady(jo, io, env, store, s, v.scope, Assigned(e), Assigned(right), c, r, f);
    if jo.Val? {
      ExprSame(right, v.scope, c, jo.state, io.state, jo.log, r, f);
      Onward(jo.value, env, store, s, jo.state, io.state, v.scope, w.scope, jo.log, f);
      Then(Eval(right, jo.state, jo.log, r), Ir.Eval(w.value, io.state, io.log, f), env, store, s, jo.state, io.state, v.scope, w.scope, f);
    }
  }

  lemma {:induction false} BinarySame(e: Expr, s: Scope, c: Dialect, env: Env, store: Ir.Slots, log: Log, r: Realm, f: Ir.Frame)
    requires e.Binary? && LowerExpr(e, s, c).Accepted? && Ready(env, s, store, Assigned(e), c, r, f)
    ensures var low := LowerExpr(e, s, c);
      SameOut(Eval(e, env, log, r), Ir.Eval(low.value, store, log, f), env, store, s, low.scope, f)
    decreases e, 2
  {
    hide *;
    if e.binaryOp.GreaterThan? {
      GreaterSame(e, s, c, env, store, log, r, f);
    } else {
      NullTestSame(e, s, c, env, store, log, r, f);
    }
  }

  lemma {:induction false} NullTestSame(e: Expr, s: Scope, c: Dialect, env: Env, store: Ir.Slots, log: Log, r: Realm, f: Ir.Frame)
    requires e.Binary? && !e.binaryOp.GreaterThan? && LowerExpr(e, s, c).Accepted? && Ready(env, s, store, Assigned(e), c, r, f)
    ensures var low := LowerExpr(e, s, c);
      SameOut(Eval(e, env, log, r), Ir.Eval(low.value, store, log, f), env, store, s, low.scope, f)
    decreases e, 1
  {
    hide Ready, Agrees, ArraysHold, SameWorld, Conforms, Varying, SameOuter, Untouched, Extends, Modelled, LowerCall, LowerAll, LowerProperties, EvalCall, EvalAll, EvalProperties, OrdinaryArray, Ir.EvalAll, Ir.EvalEntries, Ir.MapOver, Ir.CallWith, Numeric, Module, LoadedModule, GetProperty, HasEntry, Lowering.SafeInteger;
    match e case Binary(op, left, right) =>
    Narrow(env, s, s, store, Assigned(e), Assigned(left), c, r, f);
    ExprSame(left, s, c, env, store, log, r, f);
  }

  lemma {:induction false} GreaterSame(e: Expr, s: Scope, c: Dialect, env: Env, store: Ir.Slots, log: Log, r: Realm, f: Ir.Frame)
    requires e.Binary? && e.binaryOp.GreaterThan? && LowerExpr(e, s, c).Accepted? && Ready(env, s, store, Assigned(e), c, r, f)
    ensures var low := LowerExpr(e, s, c);
      SameOut(Eval(e, env, log, r), Ir.Eval(low.value, store, log, f), env, store, s, low.scope, f)
    decreases e, 1
  {
    hide Ready, Agrees, ArraysHold, SameWorld, Conforms, Varying, SameOuter, Untouched, Extends, Modelled, LowerCall, LowerAll, LowerProperties, EvalCall, EvalAll, EvalProperties, OrdinaryArray, Ir.EvalAll, Ir.EvalEntries, Ir.MapOver, Ir.CallWith, Numeric, Module, LoadedModule, GetProperty, HasEntry, Lowering.SafeInteger;
    match e case Binary(op, left, right) =>
    var v := LowerExpr(left, s, c);
    Narrow(env, s, s, store, Assigned(e), Assigned(left), c, r, f);
    ExprSame(left, s, c, env, store, log, r, f);
    ExprExtends(left, s, c);
    var jo, io := Eval(left, env, log, r), Ir.Eval(v.value, store, log, f);
    StillReady(jo, io, env, store, s, v.scope, Assigned(e), Assigned(right), c, r, f);
    var w := LowerExpr(right, v.scope, c);
    ExprExtends(right, v.scope, c);
    ExtendsTransitive(s, v.scope, w.scope);
    NumericReady(v.value, s, w.scope, env, Assigned(e), c, store, log, r, f);
    if jo.Val? {
      ExprSame(right, v.scope, c, jo.state, io.state, jo.log, r, f);
      NumericReady(w.value, v.scope, w.scope, jo.state, Assigned(right), c, io.state, io.log, r, f);
      Then(Eval(right, jo.state, jo.log, r), Ir.Eval(w.value, io.state, io.log, f), env, store, s, jo.state, io.state, v.scope, w.scope, f);
    }
  }

  lemma {:induction false} ConditionalSame(e: Expr, s: Scope, c: Dialect, env: Env, store: Ir.Slots, log: Log, r: Realm, f: Ir.Frame)
    requires e.Conditional? && LowerExpr(e, s, c).Accepted? && Ready(env, s, store, Assigned(e), c, r, f)
    ensures var low := LowerExpr(e, s, c);
      SameOut(Eval(e, env, log, r), Ir.Eval(low.value, store, log, f), env, store, s, low.scope, f)
    decreases e, 2
  {
    hide Ready, Agrees, ArraysHold, SameWorld, Conforms, Varying, SameOuter, Untouched, Extends, Modelled, LowerCall, LowerAll, LowerProperties, EvalCall, EvalAll, EvalProperties, OrdinaryArray, Ir.EvalAll, Ir.EvalEntries, Ir.MapOver, Ir.CallWith, Numeric, Module, LoadedModule, GetProperty, HasEntry, Lowering.SafeInteger;
    match e case Conditional(test, yes, no) =>
    var t := LowerExpr(test, s, c);
    var y := LowerExpr(yes, t.scope, c);
    var n := LowerExpr(no, y.scope, c);
    Narrow(env, s, s, store, Assigned(e), Assigned(test), c, r, f);
    ExprSame(test, s, c, env, store, log, r, f);
    ExprExtends(test, s, c);
    ExprExtends(yes, t.scope, c);
    ExprExtends(no, y.scope, c);
    var jo, io := Eval(test, env, log, r), Ir.Eval(t.value, store, log, f);
    StillReady(jo, io, env, store, s, t.scope, Assigned(e), Assigned(yes), c, r, f);
    StillReady(jo, io, env, store, s, t.scope, Assigned(e), Assigned(no), c, r, f);
    if jo.Val? {
      var env1, store1 := jo.state, io.state;
      if Truthy(jo.value) {
        ExprSame(yes, t.scope, c, env1, store1, jo.log, r, f);
        var jy, iy := Eval(yes, env1, jo.log, r), Ir.Eval(y.value, store1, io.log, f);
        if jy.Val? { Onward(jy.value, env1, store1, t.scope, jy.state, iy.state, y.scope, n.scope, jy.log, f); }
        Then(jy, iy, env, store, s, env1, store1, t.scope, n.scope, f);
      } else {
        Narrow(env1, t.scope, y.scope, store1, Assigned(no), Assigned(no), c, r, f);
        ExtendsTransitive(s, t.scope, y.scope);
        ExprSame(no, y.scope, c, env1, store1, jo.log, r, f);
        var jn, inn := Eval(no, env1, jo.log, r), Ir.Eval(n.value, store1, io.log, f);
        Then(jn, inn, env, store, s, env1, store1, y.scope, n.scope, f);
      }
    }
  }

  lemma {:induction false} AssignmentSame(e: Expr, s: Scope, c: Dialect, env: Env, store: Ir.Slots, log: Log, r: Realm, f: Ir.Frame)
    requires e.Assignment? && LowerExpr(e, s, c).Accepted? && Ready(env, s, store, Assigned(e), c, r, f)
    ensures var low := LowerExpr(e, s, c);
      SameOut(Eval(e, env, log, r), Ir.Eval(low.value, store, log, f), env, store, s, low.scope, f)
    decreases e, 2
  {
    hide Ready, Agrees, ArraysHold, SameWorld, Conforms, Varying, SameOuter, Untouched, Extends, Modelled, LowerCall, LowerAll, LowerProperties, EvalCall, EvalAll, EvalProperties, OrdinaryArray, Ir.EvalAll, Ir.EvalEntries, Ir.MapOver, Ir.CallWith, Numeric, Module, LoadedModule, GetProperty, HasEntry, Lowering.SafeInteger;
    match e case Assignment(_, target, right) =>
    var v := LowerExpr(right, s, c);
    Narrow(env, s, s, store, Assigned(e), Assigned(right), c, r, f);
    ExprSame(right, s, c, env, store, log, r, f);
    ExprExtends(right, s, c);
    var jo, io := Eval(right, env, log, r), Ir.Eval(v.value, store, log, f);
    assert target.name in Assigned(e);
    AssignReady(target.name, jo, io, s, v.scope, env, store, Assigned(e), c, r, f);
  }

  /** The write at the end of an assignment, to a slot known to vary. */
  lemma AssignReady(n: string, jo: Out<Value, Env>, io: Out<Value, Ir.Slots>, s: Scope, s1: Scope, env: Env, store: Ir.Slots, names: set<string>, c: Dialect, r: Realm, f: Ir.Frame)
    requires Ready(env, s, store, names, c, r, f) && Extends(s, s1) && SameOut(jo, io, env, store, s, s1, f)
    requires n in names && n in s.locals && s.locals[n].Slot? && (s.mapDepth == 0 || s.mapFloor <= s.locals[n].index)
    ensures Bound(env, n)
    ensures jo.Val? ==>
      Bound(jo.state, n) && s.locals[n].index in io.state &&
      SameOut(Val(jo.value, Store(jo.state, n, jo.value), jo.log),
              Val(io.value, io.state[s.locals[n].index := io.value], io.log), env, store, s, s1, f)
  {
    assert Bound(env, n);
    if jo.Val? {
      StoreAgrees(jo.state, s1, io.state, f, n, jo.value);
    }
  }

  lemma {:induction false} MemberSame(e: Expr, s: Scope, c: Dialect, env: Env, store: Ir.Slots, log: Log, r: Realm, f: Ir.Frame)
    requires e.Member? && LowerExpr(e, s, c).Accepted? && Ready(env, s, store, Assigned(e), c, r, f)
    ensures var low := LowerExpr(e, s, c);
      SameOut(Eval(e, env, log, r), Ir.Eval(low.value, store, log, f), env, store, s, low.scope, f)
    decreases e, 2
  {
    hide *;
    if IsMetric(e, s, c) {
      MetricSame(e, s, c, env, store, log, r, f);
    } else {
      ReadSame(e, s, c, env, store, log, r, f);
    }
  }

  /** A member of the fatal-metric enum rather than a data read. */
  predicate IsMetric(e: Expr, s: Scope, c: Dialect)
    requires e.Member?
  {
    e.base.Member? && e.base.property == METRIC_ENUM && Module(e.base.base, s, c) == Some(c.vocabulary.metricModule)
  }

  lemma MetricSame(e: Expr, s: Scope, c: Dialect, env: Env, store: Ir.Slots, log: Log, r: Realm, f: Ir.Frame)
    requires e.Member? && IsMetric(e, s, c) && LowerExpr(e, s, c).Accepted? && Ready(env, s, store, Assigned(e), c, r, f)
    ensures var low := LowerExpr(e, s, c);
      SameOut(Eval(e, env, log, r), Ir.Eval(low.value, store, log, f), env, store, s, low.scope, f)
  {
    hide Ready, Agrees, ArraysHold, SameWorld, Conforms, Varying, SameOuter, Untouched, Extends, Modelled, LowerCall, LowerAll, LowerProperties, EvalCall, EvalAll, EvalProperties, OrdinaryArray, Ir.EvalAll, Ir.EvalEntries, Ir.MapOver, Ir.CallWith, Module, LoadedModule, Numeric, Lowering.SafeInteger;
    match e case Member(base, property, _) =>
    ModuleReady(base.base, env, s, store, Assigned(e), c, r, f);
    Unchanged(Text(property), env, s, s, store, log, Assigned(e), c, r, f);
  }

  lemma {:induction false} ReadSame(e: Expr, s: Scope, c: Dialect, env: Env, store: Ir.Slots, log: Log, r: Realm, f: Ir.Frame)
    requires e.Member? && !IsMetric(e, s, c) && LowerExpr(e, s, c).Accepted? && Ready(env, s, store, Assigned(e), c, r, f)
    ensures var low := LowerExpr(e, s, c);
      SameOut(Eval(e, env, log, r), Ir.Eval(low.value, store, log, f), env, store, s, low.scope, f)
    decreases e, 1
  {
    hide Ready, Agrees, ArraysHold, SameWorld, Conforms, Varying, SameOuter, Untouched, Extends, Modelled, LowerCall, LowerAll, LowerProperties, EvalCall, EvalAll, EvalProperties, OrdinaryArray, Ir.EvalAll, Ir.EvalEntries, Ir.MapOver, Ir.CallWith, Module, LoadedModule, Numeric, Lowering.SafeInteger;
    match e case Member(base, property, _) =>
    if base.Member? { ModuleReady(base.base, env, s, store, Assigned(e), c, r, f); }
    ModuleReady(base, env, s, store, Assigned(e), c, r, f);
    var v := LowerExpr(base, s, c);
    ExprSame(base, s, c, env, store, log, r, f);
    var jo, io := Eval(base, env, log, r), Ir.Eval(v.value, store, log, f);
    if v.value.ObjectOf? && HasEntry(v.value.fields, property) { EntriesOwned(v.value.fields, property, store, log, f); }
    ReadStep(jo, io, property, c.vocabulary.keys, env, store, s, v.scope, f);
  }

  /** The property read at the end of a member expression. */
  lemma ReadStep(jo: Out<Value, Env>, io: Out<Value, Ir.Slots>, key: string, keys: set<string>, env: Env, store: Ir.Slots, s: Scope, s1: Scope, f: Ir.Frame)
    requires SameOut(jo, io, env, store, s, s1, f)
    requires io.Val? ==> (io.value.Object? && Own(io.value.fields, key).Some?) || key in keys
    ensures jo.Val? ==> GetProperty(jo.value, key, keys) == ReadField(io.value, key)
    ensures io.Val? ==> match ReadField(io.value, key)
      case Done(x) => SameOut(Val(x, jo.state, jo.log), Val(x, io.state, io.log), env, store, s, s1, f)
      case Failed(x) => SameOut<Value>(Err(x, jo.log), Err(x, io.log), env, store, s, s1, f)
  {
    hide Agrees, ArraysHold, SameOuter, Untouched, Modelled;
  }

  /** An object literal owns the properties it spells out. */
  lemma {:induction false} EntriesOwned(entries: seq<Ir.Entry>, key: string, store: Ir.Slots, log: Log, f: Ir.Frame)
    requires HasEntry(entries, key)
    ensures var out := Ir.EvalEntries(entries, store, log, f);
      out.Val? ==> Own(out.value, key).Some?
  {
    var i :| 0 <= i < |entries| && entries[i].key == key;
    var first := Ir.EvalEntry(entries[0], store, log, f);
    if first.Val? {
      var rest := Ir.EvalEntries(entries[1..], first.state, first.log, f);
      if i != 0 && rest.Val? {
        assert entries[1..][i - 1].key == key;
        EntriesOwned(entries[1..], key, first.state, first.log, f);
      }
      if rest.Val? {
        assert ([Field(entries[0].key, first.value)] + rest.value)[1..] == rest.value;
      }
    }
  }

  /** The last of some values, or the first one where there are none. */
  ghost function Last<S>(v: Value, all: Out<seq<Value>, S>): Out<Value, S> {
    if all.Val? then Val(if all.value == [] then v else all.value[|all.value| - 1], all.state, all.log) else Err(all.failure, all.log)
  }

  lemma LastSame(v: Value, jo: Out<seq<Value>, Env>, io: Out<seq<Value>, Ir.Slots>, env: Env, store: Ir.Slots, s: Scope, s1: Scope, f: Ir.Frame)
    requires SameOut(jo, io, env, store, s, s1, f)
    ensures SameOut(Last(v, jo), Last(v, io), env, store, s, s1, f)
  {
    hide Agrees, ArraysHold, SameOuter, Untouched, Modelled;
  }

  lemma CommaLowers(first: Expr, rest: seq<Expr>, s: Scope, c: Dialect)
    requires LowerExpr(Comma(first, rest), s, c).Accepted?
    ensures var e, v := Comma(first, rest), LowerExpr(first, s, c);
      v.Accepted? && LowerAll(rest, v.scope, c).Accepted? &&
      LowerExpr(e, s, c) == Accepted(Ir.Sequence([v.value] + LowerAll(rest, v.scope, c).value), LowerAll(rest, v.scope, c).scope) &&
      Assigned(e) == Assigned(first) + AssignedAll(rest)
  {
    hide LowerAll, LowerCall, LowerProperties, AssignedAll;
  }

  lemma CommaRuns(first: Expr, rest: seq<Expr>, env: Env, log: Log, r: Realm)
    ensures var jo := Eval(first, env, log, r);
      Eval(Comma(first, rest), env, log, r) == if jo.Val? then Last(jo.value, EvalAll(rest, jo.state, jo.log, r)) else jo
  {
    hide EvalAll, EvalCall, EvalProperties;
  }

  lemma SequenceRuns(v: Ir.E, vs: seq<Ir.E>, store: Ir.Slots, log: Log, f: Ir.Frame)
    ensures var io := Ir.Eval(v, store, log, f);
      Ir.Eval(Ir.Sequence([v] + vs), store, log, f) == if io.Val? then Last(io.value, Ir.EvalAll(vs, io.state, io.log, f)) else io
  {
    assert ([v] + vs)[0] == v && ([v] + vs)[1..] == vs;
    hide Ir.EvalEntries, Ir.MapOver, Ir.CallWith;
  }

  lemma {:induction false} CommaSame(e: Expr, s: Scope, c: Dialect, env: Env, store: Ir.Slots, log: Log, r: Realm, f: Ir.Frame)
    requires e.Comma? && LowerExpr(e, s, c).Accepted? && Ready(env, s, store, Assigned(e), c, r, f)
    ensures var low := LowerExpr(e, s, c);
      SameOut(Eval(e, env, log, r), Ir.Eval(low.value, store, log, f), env, store, s, low.scope, f)
    decreases e, 2
  {
    hide *;
    match e case Comma(first, rest) =>
    CommaLowers(first, rest, s, c);
    var v := LowerExpr(first, s, c);
    var vs := LowerAll(rest, v.scope, c);
    CommaRuns(first, rest, env, log, r);
    SequenceRuns(v.value, vs.value, store, log, f);
    Narrow(env, s, s, store, Assigned(e), Assigned(first), c, r, f);
    ExprSame(first, s, c, env, store, log, r, f);
    ExprExtends(first, s, c);
    var jo, io := Eval(first, env, log, r), Ir.Eval(v.value, store, log, f);
    StillReady(jo, io, env, store, s, v.scope, Assigned(e), AssignedAll(rest), c, r, f);
    OutParts(jo, io, env, store, s, v.scope, f);
    if jo.Val? {
      AllSame(rest, v.scope, c, jo.state, io.state, jo.log, r, f);
      Then(EvalAll(rest, jo.state, jo.log, r), Ir.EvalAll(vs.value, io.state, io.log, f), env, store, s, jo.state, io.state, v.scope, vs.scope, f);
      LastSame(jo.value, EvalAll(rest, jo.state, jo.log, r), Ir.EvalAll(vs.value, io.state, io.log, f), env, store, s, vs.scope, f);
    } else {
      ErrStays(jo, io, env, store, s, v.scope, vs.scope, f);
    }
  }

  lemma OutParts<A>(jo: Out<A, Env>, io: Out<A, Ir.Slots>, env: Env, store: Ir.Slots, s: Scope, s1: Scope, f: Ir.Frame)
    requires SameOut(jo, io, env, store, s, s1, f)
    ensures jo.Val? <==> io.Val?
    ensures jo.Val? ==> jo.value == io.value && jo.log == io.log && SameOuter(env, jo.state) && Untouched(store, io.state, s.mutable, Floor(s))
  {
    hide Agrees, ArraysHold, SameOuter, Untouched, Modelled;
  }

  lemma ErrStays<A>(jo: Out<A, Env>, io: Out<A, Ir.Slots>, env: Env, store: Ir.Slots, s: Scope, s1: Scope, s2: Scope, f: Ir.Frame)
    requires jo.Err? && SameOut(jo, io, env, store, s, s1, f)
    ensures SameOut(jo, io, env, store, s, s2, f)
  {
    hide Agrees, ArraysHold, SameOuter, Untouched, Modelled;
  }

  lemma {:induction false} AllSame(es: seq<Expr>, s: Scope, c: Dialect, env: Env, store: Ir.Slots, log: Log, r: Realm, f: Ir.Frame)
    requires LowerAll(es, s, c).Accepted? && Ready(env, s, store, AssignedAll(es), c, r, f)
    ensures var low := LowerAll(es, s, c);
      SameOut(EvalAll(es, env, log, r), Ir.EvalAll(low.value, store, log, f), env, store, s, low.scope, f)
    decreases es, 0
  {
    hide Ready, Agrees, ArraysHold, SameWorld, Conforms, Varying, SameOuter, Untouched, Extends, Modelled;
    if es == [] {
      Unchanged<seq<Value>>([], env, s, s, store, log, {}, c, r, f);
    } else {
      var v := LowerExpr(es[0], s, c);
      var vs := LowerAll(es[1..], v.scope, c);
      Narrow(env, s, s, store, AssignedAll(es), Assigned(es[0]), c, r, f);
      ExprSame(es[0], s, c, env, store, log, r, f);
      ExprExtends(es[0], s, c);
      var jo, io := Eval(es[0], env, log, r), Ir.Eval(v.value, store, log, f);
      StillReady(jo, io, env, store, s, v.scope, AssignedAll(es), AssignedAll(es[1..]), c, r, f);
      assert ([v.value] + vs.value)[1..] == vs.value;
      if jo.Val? {
        AllSame(es[1..], v.scope, c, jo.state, io.state, jo.log, r, f);
        Then(EvalAll(es[1..], jo.state, jo.log, r), Ir.EvalAll(vs.value, io.state, io.log, f), env, store, s, jo.state, io.state, v.scope, vs.scope, f);
      }
    }
  }

  lemma {:induction false} ArgumentSame(a: Argument, s: Scope, c: Dialect, env: Env, store: Ir.Slots, log: Log, r: Realm, f: Ir.Frame)
    requires LowerArgument(a, s, c).Accepted? && Ready(env, s, store, AssignedArgument(a), c, r, f)
    ensures var low := LowerArgument(a, s, c);
      SameOut(EvalArgument(a, env, log, r), Ir.Eval(low.value, store, log, f), env, store, s, low.scope, f)
    decreases a, 4
  {
    hide Ready, Agrees, ArraysHold, SameWorld, Conforms, Varying, SameOuter, Untouched, Extends, Modelled;
    match a case Plain(e) => ExprSame(e, s, c, env, store, log, r, f);
  }

  lemma {:induction false} ArgumentsSame(args: seq<Argument>, s: Scope, c: Dialect, env: Env, store: Ir.Slots, log: Log, r: Realm, f: Ir.Frame)
    requires LowerArguments(args, s, c).Accepted? && Ready(env, s, store, AssignedArguments(args), c, r, f)
    ensures var low := LowerArguments(args, s, c);
      SameOut(EvalArguments(args, env, log, r), Ir.EvalAll(low.value, store, log, f), env, store, s, low.scope, f)
    decreases args, 0
  {
    hide Ready, Agrees, ArraysHold, SameWorld, Conforms, Varying, SameOuter, Untouched, Extends, Modelled;
    if args == [] {
      Unchanged<seq<Value>>([], env, s, s, store, log, {}, c, r, f);
    } else {
      var v := LowerArgument(args[0], s, c);
      var vs := LowerArguments(args[1..], v.scope, c);
      Narrow(env, s, s, store, AssignedArguments(args), AssignedArgument(args[0]), c, r, f);
      ArgumentSame(args[0], s, c, env, store, log, r, f);
      ArgumentExtends(args[0], s, c);
      var jo, io := EvalArgument(args[0], env, log, r), Ir.Eval(v.value, store, log, f);
      StillReady(jo, io, env, store, s, v.scope, AssignedArguments(args), AssignedArguments(args[1..]), c, r, f);
      assert ([v.value] + vs.value)[1..] == vs.value;
      if jo.Val? {
        ArgumentsSame(args[1..], v.scope, c, jo.state, io.state, jo.log, r, f);
        Then(EvalArguments(args[1..], jo.state, jo.log, r), Ir.EvalAll(vs.value, io.state, io.log, f), env, store, s, jo.state, io.state, v.scope, vs.scope, f);
      }
    }
  }

  /** The fields already defined, ahead of those still to come. */
  function Prefixed(fields: seq<Field>, out: Out<seq<Field>, Ir.Slots>): Out<seq<Field>, Ir.Slots> {
    if out.Val? then out.(value := fields + out.value) else out
  }

  ghost predicate SameKeys(entries: seq<Ir.Entry>, fields: seq<Field>) {
    |entries| == |fields| && forall i | 0 <= i < |entries| :: entries[i].key == fields[i].key
  }

  lemma {:induction false} PutFresh(fields: seq<Field>, key: string, v: Value)
    requires forall i | 0 <= i < |fields| :: fields[i].key != key
    ensures PutField(fields, key, v) == fields + [Field(key, v)]
  {
    if fields != [] {
      PutFresh(fields[1..], key, v);
      assert [fields[0]] + (fields[1..] + [Field(key, v)]) == fields + [Field(key, v)];
    }
  }

  lemma {:induction false} LoweredPropertiesExtend(ps: seq<Property>, entries: seq<Ir.Entry>, s: Scope, c: Dialect)
    requires LowerProperties(ps, entries, s, c).Accepted?
    ensures entries <= LowerProperties(ps, entries, s, c).value
    decreases ps
  {
    if ps != [] {
      var v := LowerProperty(ps[0], entries, s, c);
      LoweredPropertiesExtend(ps[1..], entries + [Ir.Entry(ps[0].key.value, v.value)], v.scope, c);
    }
  }

  lemma {:induction false} PropertiesSame(ps: seq<Property>, entries: seq<Ir.Entry>, fields: seq<Field>, names: set<string>, s: Scope, c: Dialect, env: Env, store: Ir.Slots, log: Log, r: Realm, f: Ir.Frame)
    requires LowerProperties(ps, entries, s, c).Accepted? && SameKeys(entries, fields)
    requires Ready(env, s, store, names, c, r, f) && AssignedProperties(ps) <= names
    ensures var low := LowerProperties(ps, entries, s, c);
      entries <= low.value &&
      SameOut(EvalProperties(ps, fields, env, log, r),
              Prefixed(fields, Ir.EvalEntries(low.value[|entries|..], store, log, f)), env, store, s, low.scope, f)
    decreases ps, 0
  {
    hide Ready, Agrees, ArraysHold, SameWorld, Conforms, Varying, SameOuter, Untouched, Extends, Modelled, LowerProperty, EvalProperty, PutField, Ir.Eval;
    LoweredPropertiesExtend(ps, entries, s, c);
    if ps == [] {
      Unchanged(fields, env, s, s, store, log, names, c, r, f);
      assert fields + [] == fields;
    } else {
      var key := ps[0].key.value;
      var v := LowerProperty(ps[0], entries, s, c);
      var entries1 := entries + [Ir.Entry(key, v.value)];
      var rest := LowerProperties(ps[1..], entries1, v.scope, c);
      Narrow(env, s, s, store, names, AssignedProperty(ps[0]), c, r, f);
      PropertySame(ps[0], entries, s, c, env, store, log, r, f);
      PropertyExtends(ps[0], entries, s, c);
      LoweredPropertiesExtend(ps[1..], entries1, v.scope, c);
      var jo, io := EvalProperty(ps[0], env, log, r), Ir.Eval(v.value, store, log, f);
      StillReady(jo, io, env, store, s, v.scope, names, AssignedProperties(ps[1..]), c, r, f);
      var tail := rest.value[|entries|..];
      assert tail[0] == entries1[|entries|] == Ir.Entry(key, v.value);
      assert tail[1..] == rest.value[|entries1|..];
      if jo.Val? {
        var fields1 := fields + [Field(key, jo.value)];
        PutFresh(fields, key, jo.value);
        PropertiesSame(ps[1..], entries1, fields1, AssignedProperties(ps[1..]), v.scope, c, jo.state, io.state, jo.log, r, f);
        var out := Ir.EvalEntries(tail[1..], io.state, io.log, f);
        if out.Val? { assert fields1 + out.value == fields + ([Field(key, io.value)] + out.value); }
        Then(EvalProperties(ps[1..], fields1, jo.state, jo.log, r), Prefixed(fields1, out), env, store, s, jo.state, io.state, v.scope, rest.scope, f);
      }
    }
  }

  lemma {:induction false} PropertySame(p: Property, entries: seq<Ir.Entry>, s: Scope, c: Dialect, env: Env, store: Ir.Slots, log: Log, r: Realm, f: Ir.Frame)
    requires LowerProperty(p, entries, s, c).Accepted? && Ready(env, s, store, AssignedProperty(p), c, r, f)
    ensures var low := LowerProperty(p, entries, s, c);
      SameOut(EvalProperty(p, env, log, r), Ir.Eval(low.value, store, log, f), env, store, s, low.scope, f)
    decreases p, 4
  {
    hide Ready, Agrees, ArraysHold, SameWorld, Conforms, Varying, SameOuter, Untouched, Extends, Modelled;
    match p case Property(_, _, e) => ExprSame(e, s, c, env, store, log, r, f);
  }

  // ---------------------------------------------------------------- calls

  lemma CallStep(callee: Callee, jo: Out<seq<Value>, Env>, io: Out<seq<Value>, Ir.Slots>, env: Env, store: Ir.Slots, s: Scope, s1: Scope,
                 names: set<string>, c: Dialect, r: Realm, f: Ir.Frame)
    requires Ready(env, s, store, names, c, r, f) && SameOut(jo, io, env, store, s, s1, f)
    ensures SameOut(Script.CallWith(callee, jo, r.oracle), Ir.CallWith(callee, io, f.oracle), env, store, s, s1, f)
  {
    hide Agrees, ArraysHold, Conforms, Varying, SameOuter, Untouched;
    if jo.Val? {
      var log1 := jo.log + [Event(callee, jo.value)];
      assert r.oracle(log1, callee, jo.value) == f.oracle(log1, callee, jo.value);
      if Modelled(f.oracle) { assert f.oracle(log1, callee, jo.value).answer != Failed(Unmodelled); }
    }
  }

  /** A module reference is not a value: the compiler refuses it as one. */
  lemma {:induction false} ModuleNotAValue(e: Expr, s: Scope, c: Dialect)
    requires ModuleCall(e).Some?
    ensures LowerExpr(e, s, c).Refused?
    decreases e
  {
    if e.Paren? { ModuleNotAValue(e.inner, s, c); }
  }

  lemma {:induction false} CallSame(e: Expr, s: Scope, c: Dialect, env: Env, store: Ir.Slots, log: Log, r: Realm, f: Ir.Frame)
    requires e.Call? && LowerExpr(e, s, c).Accepted? && Ready(env, s, store, Assigned(e), c, r, f)
    ensures var low := LowerExpr(e, s, c);
      SameOut(Eval(e, env, log, r), Ir.Eval(low.value, store, log, f), env, store, s, low.scope, f)
    decreases e, 2
  {
    assert LowerExpr(e, s, c) == LowerCall(e, s, c);
    assert Eval(e, env, log, r) == EvalCall(e, env, log, r);
    assert e.callee.Member?;
    hide *;
    if e.callee.property == MAP {
      MapSame(e, s, c, env, store, log, r, f);
    } else if Module(e.callee.base, s, c) == Some(c.vocabulary.decodeModule) && e.callee.property == DECODE {
      DecoderSame(e, s, c, env, store, log, r, f);
    } else {
      NamedCallSame(e, s, c, env, store, log, r, f);
    }
  }

  lemma {:induction false} DecoderSame(e: Expr, s: Scope, c: Dialect, env: Env, store: Ir.Slots, log: Log, r: Realm, f: Ir.Frame)
    requires e.Call? && LowerCall(e, s, c).Accepted? && Ready(env, s, store, Assigned(e), c, r, f)
    requires e.callee.Member? && e.callee.property != MAP && e.callee.property == DECODE
    requires Module(e.callee.base, s, c) == Some(c.vocabulary.decodeModule)
    ensures var low := LowerCall(e, s, c);
      SameOut(EvalCall(e, env, log, r), Ir.Eval(low.value, store, log, f), env, store, s, low.scope, f)
    decreases e, 1
  {
    hide Ready, Agrees, ArraysHold, SameWorld, Conforms, Varying, SameOuter, Untouched, Extends, Modelled, LowerMap, Module, LoadedModule, Script.CallWith, Ir.CallWith;
    match e case Call(callee, arguments) =>
    match callee case Member(base, name, _) =>
    ModuleReady(base, env, s, store, Assigned(e), c, r, f);
    ModuleReady(arguments[0].expr.base, env, s, store, Assigned(e), c, r, f);
    assert arguments[1..][0] == arguments[1];
    assert AssignedArgument(arguments[1]) <= AssignedArguments(arguments[1..]);
    Narrow(env, s, s, store, Assigned(e), AssignedArgument(arguments[1]), c, r, f);
    ArgumentSame(arguments[1], s, c, env, store, log, r, f);
    var v := LowerArgument(arguments[1], s, c);
    var jo, io := EvalArgument(arguments[1], env, log, r), Ir.Eval(v.value, store, log, f);
    SingleSame(v.value, jo, store, log, f, env, s, v.scope);
    CallStep(Transform(c.vocabulary.specs[arguments[0].expr.property]), Single(jo), Ir.EvalAll([v.value], store, log, f), env, store, s, v.scope, Assigned(e), c, r, f);
  }

  lemma SingleSame(v: Ir.E, jo: Out<Value, Env>, store: Ir.Slots, log: Log, f: Ir.Frame, env: Env, s: Scope, s1: Scope)
    requires SameOut(jo, Ir.Eval(v, store, log, f), env, store, s, s1, f)
    ensures SameOut(Single(jo), Ir.EvalAll([v], store, log, f), env, store, s, s1, f)
  {
    hide Agrees, ArraysHold, SameOuter, Untouched, Modelled;
    var io := Ir.Eval(v, store, log, f);
    assert [v][1..] == [];
    if io.Val? {
      assert Ir.EvalAll([v][1..], io.state, io.log, f) == Val([], io.state, io.log);
      assert [io.value] + [] == [io.value];
    }
  }

  lemma {:induction false} NamedCallSame(e: Expr, s: Scope, c: Dialect, env: Env, store: Ir.Slots, log: Log, r: Realm, f: Ir.Frame)
    requires e.Call? && LowerCall(e, s, c).Accepted? && Ready(env, s, store, Assigned(e), c, r, f)
    requires e.callee.Member? && e.callee.property != MAP
    requires !(e.callee.property == DECODE && Module(e.callee.base, s, c) == Some(c.vocabulary.decodeModule))
    ensures var low := LowerCall(e, s, c);
      SameOut(EvalCall(e, env, log, r), Ir.Eval(low.value, store, log, f), env, store, s, low.scope, f)
    decreases e, 1
  {
    hide Ready, Agrees, ArraysHold, SameWorld, Conforms, Varying, SameOuter, Untouched, Modelled, LowerMap, Script.CallWith, Ir.CallWith, SameOut, LowerArguments, EvalArguments, Ir.EvalAll, LowerExpr, Eval;
    match e case Call(callee, arguments) =>
    match callee case Member(base, name, _) =>
    ModuleReady(base, env, s, store, Assigned(e), c, r, f);
    Narrow(env, s, s, store, Assigned(e), AssignedArguments(arguments), c, r, f);
    ArgumentsSame(arguments, s, c, env, store, log, r, f);
    ArgumentsExtend(arguments, s, c);
    var vs := LowerArguments(arguments, s, c);
    var jo, io := EvalArguments(arguments, env, log, r), Ir.EvalAll(vs.value, store, log, f);
    if name in c.vocabulary.validators && base == Ident(c.receiver) && c.receiver !in s.locals {
      CallStep(Validator(name), jo, io, env, store, s, vs.scope, Assigned(e), c, r, f);
    } else {
      CallStep(Transform(c.vocabulary.transforms[(Module(base, s, c).value, name)]), jo, io, env, store, s, vs.scope, Assigned(e), c, r, f);
    }
  }

  // ---------------------------------------------------------------- callbacks

  lemma ArrayReady(v: Ir.E, s: Scope, s1: Scope, env: Env, names: set<string>, c: Dialect, store: Ir.Slots, log: Log, r: Realm, f: Ir.Frame)
    requires OrdinaryArray(v, s1, c) && Extends(s, s1) && Ready(env, s, store, names, c, r, f)
    ensures var out := Ir.Eval(v, store, log, f);
      out.Val? ==> ArrayOrNullish(out.value)
  {
    OrdinaryArrayIsArray(v, s, c, store, log, f);
  }

  lemma MapLowers(base: Expr, computed: bool, arguments: seq<Argument>, s: Scope, c: Dialect)
    requires LowerCall(Call(Member(base, MAP, computed), arguments), s, c).Accepted?
    ensures |arguments| == 1 && arguments[0].Plain? && arguments[0].expr.FunctionExpr? && s.mapDepth == 0
    ensures var e, v, fn := Call(Member(base, MAP, computed), arguments), LowerExpr(base, s, c), arguments[0].expr.fn;
      CallbackRefusal(fn).None? && v.Accepted? && OrdinaryArray(v.value, v.scope, c) && LowerCallback(fn, v.scope, c).Accepted? &&
      LowerCall(e, s, c) == Accepted(Ir.Map(v.value, LowerCallback(fn, v.scope, c).value), LowerCallback(fn, v.scope, c).scope) &&
      Assigned(base) <= Assigned(e)
  {
    hide LowerExpr, LowerCallback, OrdinaryArray, CallbackRefusal, LowerArguments, AssignedArguments, Module;
  }

  /** A call of `map` on something that is neither a module nor the class. */
  lemma MapRuns(base: Expr, computed: bool, fn: Function, env: Env, log: Log, r: Realm)
    requires LoadedModule(base, env, r.loaders).None? && !(base == Ident(r.receiver) && !Bound(env, r.receiver))
    ensures var callback := Plain(FunctionExpr(fn));
      EvalCall(Call(Member(base, MAP, computed), [callback]), env, log, r) == Script.MapOver(Eval(base, env, log, r), callback, r)
  {
    hide Eval, Script.MapOver, LoadedModule, EvalArguments, Bound;
  }

  /** The class is not a value. */
  lemma ReceiverIsLocal(base: Expr, s: Scope, c: Dialect)
    requires LowerExpr(base, s, c).Accepted?
    ensures base == Ident(c.receiver) ==> c.receiver in s.locals
  {
    hide LowerAll, LowerCall, LowerProperties;
  }

  lemma {:induction false} MapSame(e: Expr, s: Scope, c: Dialect, env: Env, store: Ir.Slots, log: Log, r: Realm, f: Ir.Frame)
    requires e.Call? && e.callee.Member? && e.callee.property == MAP
    requires LowerCall(e, s, c).Accepted? && Ready(env, s, store, Assigned(e), c, r, f)
    ensures var low := LowerCall(e, s, c);
      SameOut(EvalCall(e, env, log, r), Ir.Eval(low.value, store, log, f), env, store, s, low.scope, f)
    decreases e, 1
  {
    hide *;
    match e case Call(callee, arguments) =>
    match callee case Member(base, _, computed) =>
    MapLowers(base, computed, arguments, s, c);
    match arguments[0] case Plain(callback) =>
    match callback case FunctionExpr(fn) =>
    assert arguments == [Plain(FunctionExpr(fn))];
    ModuleReady(base, env, s, store, Assigned(e), c, r, f);
    NotAModule(base, s, c);
    ReceiverIsLocal(base, s, c);
    MapRuns(base, computed, fn, env, log, r);
    var v := LowerExpr(base, s, c);
    Narrow(env, s, s, store, Assigned(e), Assigned(base), c, r, f);
    ExprSame(base, s, c, env, store, log, r, f);
    ExprExtends(base, s, c);
    SameDepth(s, v.scope);
    ArrayReady(v.value, s, v.scope, env, Assigned(e), c, store, log, r, f);
    MapOverSame(fn, Eval(base, env, log, r), Ir.Eval(v.value, store, log, f), Assigned(e), s, v.scope, c, env, store, r, f);
    MapMeans(v.value, LowerCallback(fn, v.scope, c).value, store, log, f);
  }

  lemma NotAModule(base: Expr, s: Scope, c: Dialect)
    requires LowerExpr(base, s, c).Accepted?
    ensures Module(base, s, c).None?
  {
    hide LowerExpr, ModuleCall;
    if ModuleCall(base).Some? { ModuleNotAValue(base, s, c); }
  }

  lemma SameDepth(s: Scope, s1: Scope)
    requires Extends(s, s1)
    ensures s1.mapDepth == s.mapDepth
  {}

  lemma MapMeans(v: Ir.E, body: seq<Ir.S>, store: Ir.Slots, log: Log, f: Ir.Frame)
    ensures Ir.Eval(Ir.Map(v, body), store, log, f) == Ir.MapOver(Ir.Eval(v, store, log, f), body, f)
  {
    hide Ir.MapOver, Ir.EvalAll, Ir.EvalEntries, Ir.CallWith;
  }

  lemma {:induction false} MapOverSame(fn: Function, jo: Out<Value, Env>, io: Out<Value, Ir.Slots>, names: set<string>, s: Scope, s1: Scope, c: Dialect, env: Env, store: Ir.Slots, r: Realm, f: Ir.Frame)
    requires CallbackRefusal(fn).None? && LowerCallback(fn, s1, c).Accepted? && s1.mapDepth == 0
    requires Ready(env, s, store, names, c, r, f) && Extends(s, s1) && SameOut(jo, io, env, store, s, s1, f)
    requires io.Val? ==> ArrayOrNullish(io.value)
    ensures var low := LowerCallback(fn, s1, c);
      SameOut(Script.MapOver(jo, Plain(FunctionExpr(fn)), r), Ir.MapOver(io, low.value, f), env, store, s, low.scope, f)
    decreases fn, 1
  {
    hide Ready, Agrees, ArraysHold, SameWorld, Conforms, Varying, SameOuter, Untouched, Modelled, LowerCallback, Extends;
    var low := LowerCallback(fn, s1, c);
    CallbackExtends(fn, s1, c);
    StillReady(jo, io, env, store, s, s1, names, {}, c, r, f);
    if jo.Val? && jo.value.Array? {
      ItemsSame(fn, jo.value.items, s1, c, jo.state, io.state, jo.log, r, f);
      var ji := Script.MapItems(fn, jo.value.items, jo.state, jo.log, r);
      if ji.Val? { Onward(Array(ji.value), env, store, s, jo.state, io.state, s1, low.scope, ji.log, f); }
    } else if jo.Val? {
      assert TypeError != Unmodelled;
    }
  }

  /** Corresponding outcomes of running a callback over elements: the enclosing
      variables are exactly as they were. */
  ghost predicate SameItems(jo: Out<seq<Value>, Env>, io: Out<seq<Value>, Ir.Slots>, env: Env, store: Ir.Slots, oracle: Oracle) {
    match (jo, io)
    case (Val(vs, env1, log1), Val(ws, store1, log2)) => vs == ws && log1 == log2 && env1 == env && store1 == store
    case (Err(x, log1), Err(y, log2)) => Fails(x, y, oracle) && log1 == log2
    case _ => false
  }

  lemma {:induction false} ItemsSame(fn: Function, items: seq<Value>, s: Scope, c: Dialect, env: Env, store: Ir.Slots, log: Log, r: Realm, f: Ir.Frame)
    requires CallbackRefusal(fn).None? && LowerCallback(fn, s, c).Accepted? && s.mapDepth == 0
    requires Ready(env, s, store, {}, c, r, f)
    ensures var low := LowerCallback(fn, s, c);
      SameItems(Script.MapItems(fn, items, env, log, r), Ir.MapItems(low.value, items, store, log, f), env, store, f.oracle)
    decreases fn, 0, |items|
  {
    hide Ready, Agrees, ArraysHold, SameWorld, Conforms, Varying, SameOuter, Untouched, Modelled, DeclareScope, Hoist, Ir.Declare, Ir.Leave, Pending;
    if items != [] {
      match fn case Function(_, _, _, _, params, body) =>
      var p := params[0].name.value;
      var s1 := DeclareScope(body, EnterCallback(p, s)).scope;
      var low := LowerStmts(body, s1, c);
      var own := Ir.OwnedSlots(low.value);
      var env1 := Inner(Hoist(map[p := items[0]], body), env);
      var store1 := Ir.Declare(store, own);
      var f1 := f.(item := Some(items[0]));
      EnterReady(fn, items[0], s, c, env, store, r, f);
      StmtsSame(body, s1, c, env1, store1, log, r, f1);
      var jf, io := Script.Run(body, env1, log, r), Ir.Run(low.value, store1, log, f1);
      if !jf.Raised? {
        LeaveReady(fn, items[0], s, c, jf.state, io.state, env, store, r, f);
        ItemsSame(fn, items[1..], s, c, env, store, jf.log, r, f);
      }
    }
  }

  /** What declaring a callback's names does to the compiler's state. */
  ghost predicate Entered(p: string, names: seq<string>, written: set<string>, s: Scope, s1: Scope) {
    && s1.mapDepth != 0 && s1.mapFloor == s.slots <= s1.slots && s1.arrays == s.arrays && s.mutable <= s1.mutable
    && p !in names
    && (forall n :: n in s1.locals <==> n in s.locals || n == p || n in names)
    && s1.locals[p] == Ir.Argument(Ir.ITEM)
    && (forall n | n in s.locals && n != p && n !in names :: s1.locals[n] == s.locals[n])
    && (forall n | n in names :: s1.locals[n].Slot? && s.slots <= s1.locals[n].index < s1.slots)
    && (forall n, m | n in names && m in names && s1.locals[n] == s1.locals[m] :: n == m)
    && Varying(written, s1)
    && (forall i, j | 0 <= i < j < |names| && names[i] == names[j] :: s1.locals[names[i]].index in s1.mutable)
  }

  lemma DeclareEnters(p: string, body: seq<Stmt>, s: Scope)
    requires DeclareScope(body, EnterCallback(p, s)).Accepted?
    ensures Entered(p, VarNames(body), StmtsAssigned(body), s, DeclareScope(body, EnterCallback(p, s)).scope)
  {
    hide Assigned, StmtsAssigned, VarNames, DeclareNames, Declares, Entered, SlotsOf;
    var s0 := EnterCallback(p, s);
    DeclareNamesSpec(VarNames(body), {}, {}, s0);
    var (again, s1) := DeclareNames(VarNames(body), {}, {}, s0).Extract();
    DeclaredEnters(p, VarNames(body), StmtsAssigned(body), s, again, s1);
  }

  lemma DeclaredEnters(p: string, names: seq<string>, written: set<string>, s: Scope, again: set<string>, s1: Scope)
    requires Declares(names, {}, {}, EnterCallback(p, s), again, s1)
    ensures Entered(p, names, written, s, s1.(mutable := s1.mutable + SlotsOf(written + again, s1.locals)))
  {}

  /** Entering a callback: its variables start undefined, in slots of their own. */
  lemma EnterReady(fn: Function, item: Value, s: Scope, c: Dialect, env: Env, store: Ir.Slots, r: Realm, f: Ir.Frame)
    requires CallbackRefusal(fn).None? && LowerCallback(fn, s, c).Accepted? && s.mapDepth == 0
    requires Ready(env, s, store, {}, c, r, f)
    ensures var p := fn.params[0].name.value;
      var s1 := DeclareScope(fn.body, EnterCallback(p, s)).scope;
      var store1 := Ir.Declare(store, Ir.OwnedSlots(LowerStmts(fn.body, s1, c).value));
      Ready(Inner(Hoist(map[p := item], fn.body), env), s1, store1, StmtsAssigned(fn.body), c, r, f.(item := Some(item))) &&
      Pending(VarNames(fn.body), s1, store1)
  {
    var p := fn.params[0].name.value;
    var s1 := DeclareScope(fn.body, EnterCallback(p, s)).scope;
    DeclareEnters(p, fn.body, s);
    OwnedAreDeclared(fn.body, s1, c);
    var own := Ir.OwnedSlots(LowerStmts(fn.body, s1, c).value);
    hide DeclareScope, LowerCallback, StmtsAssigned, VarNames, LowerStmts, Ir.OwnedSlots, EnterCallback;
    EnterAgrees(p, fn.body, own, item, s, s1, env, store, f);
    EnterPending(p, fn.body, own, s, s1, store);
  }

  lemma HoistSpec(p: string, item: Value, body: seq<Stmt>)
    requires p !in VarNames(body)
    ensures var frame := Hoist(map[p := item], body);
      (forall n :: n in frame <==> n == p || n in VarNames(body)) && frame[p] == item &&
      forall n | n in VarNames(body) :: frame[n] == Undefined
  {
    hide VarNames;
  }

  lemma EnterMeans(n: string, p: string, names: seq<string>, written: set<string>, own: set<nat>, frame: map<string, Value>, item: Value, s: Scope, s1: Scope, env: Env, store: Ir.Slots, f: Ir.Frame)
    requires Entered(p, names, written, s, s1) && own == NameSlots(names, s1.locals)
    requires (forall n :: n in frame <==> n == p || n in names) && frame[p] == item && forall n | n in names :: frame[n] == Undefined
    requires Agrees(env, s, store, f) && s.mapDepth == 0
    ensures var env1 := Inner(frame, env);
      (Bound(env1, n) <==> n in s1.locals) &&
      (n in s1.locals ==> Means(s1.locals[n], Lookup(env1, n), Ir.Declare(store, own), f.(item := Some(item))))
  {
    hide Varying;
    assert Bound(env, n) <==> n in s.locals;
    if n in names {
      assert s1.locals[n].index in own;
    } else if n in s1.locals && n != p {
      assert Means(s.locals[n], Lookup(env, n), store, f);
      if s.locals[n].Slot? { assert s.locals[n].index !in own; }
    }
  }

  lemma EnterDistinct(n: string, m: string, p: string, names: seq<string>, written: set<string>, s: Scope, s1: Scope, env: Env, store: Ir.Slots, f: Ir.Frame)
    requires Entered(p, names, written, s, s1) && Agrees(env, s, store, f)
    requires n in s1.locals && m in s1.locals && s1.locals[n].Slot? && s1.locals[n] == s1.locals[m]
    ensures n == m
    ensures s.slots <= s1.locals[n].index ==> n in names
  {
    hide Varying, Bound, Lookup;
    if n !in names {
      assert Means(s.locals[n], Lookup(env, n), store, f);
    }
    if m !in names {
      assert Means(s.locals[m], Lookup(env, m), store, f);
    }
  }

  lemma EnterSlots(p: string, names: seq<string>, written: set<string>, own: set<nat>, s: Scope, s1: Scope, env: Env, store: Ir.Slots, f: Ir.Frame)
    requires Entered(p, names, written, s, s1) && own == NameSlots(names, s1.locals)
    requires Agrees(env, s, store, f) && ArraysHold(s, store)
    ensures ArraysHold(s1, Ir.Declare(store, own))
    ensures forall i | i in Ir.Declare(store, own) :: i < s1.slots
    ensures forall i | i in s1.arrays :: i < s1.slots
  {
    hide Varying, Bound, Lookup, Means;
    assert forall i | i in own :: s.slots <= i < s1.slots;
  }

  lemma EnterAgrees(p: string, body: seq<Stmt>, own: set<nat>, item: Value, s: Scope, s1: Scope, env: Env, store: Ir.Slots, f: Ir.Frame)
    requires Entered(p, VarNames(body), StmtsAssigned(body), s, s1) && own == NameSlots(VarNames(body), s1.locals)
    requires Agrees(env, s, store, f) && ArraysHold(s, store) && s.mapDepth == 0
    ensures Agrees(Inner(Hoist(map[p := item], body), env), s1, Ir.Declare(store, own), f.(item := Some(item)))
    ensures ArraysHold(s1, Ir.Declare(store, own))
  {
    hide *;
    var names, written := VarNames(body), StmtsAssigned(body);
    var frame := Hoist(map[p := item], body);
    EnteredParts(p, names, written, s, s1);
    HoistSpec(p, item, body);
    EnterSlots(p, names, written, own, s, s1, env, store, f);
    forall n
      ensures (Bound(Inner(frame, env), n) <==> n in s1.locals) &&
        (n in s1.locals ==> Means(s1.locals[n], Lookup(Inner(frame, env), n), Ir.Declare(store, own), f.(item := Some(item))))
    {
      EnterMeans(n, p, names, written, own, frame, item, s, s1, env, store, f);
    }
    forall n, m | n in s1.locals && m in s1.locals && s1.locals[n].Slot? && s1.locals[n] == s1.locals[m]
      ensures n == m && (s.slots <= s1.locals[n].index ==> n in frame)
    {
      EnterDistinct(n, m, p, names, written, s, s1, env, store, f);
    }
    AgreesInner(frame, env, s.slots, s1, Ir.Declare(store, own), f.(item := Some(item)));
  }

  lemma EnteredParts(p: string, names: seq<string>, written: set<string>, s: Scope, s1: Scope)
    requires Entered(p, names, written, s, s1)
    ensures p !in names && s1.mapDepth != 0 && s1.mapFloor == s.slots
  {}

  /** A frame around which another one stands; slots from `floor` on are its own. */
  lemma AgreesInner(frame: map<string, Value>, env: Env, floor: nat, s: Scope, store: Ir.Slots, f: Ir.Frame)
    requires s.mapDepth != 0 && s.mapFloor == floor
    requires forall n :: Bound(Inner(frame, env), n) <==> n in s.locals
    requires forall n | n in s.locals :: Means(s.locals[n], Lookup(Inner(frame, env), n), store, f)
    requires forall n, m | n in s.locals && m in s.locals && s.locals[n].Slot? && s.locals[n] == s.locals[m] :: n == m
    requires forall n | n in s.locals && s.locals[n].Slot? && floor <= s.locals[n].index :: n in frame
    requires (forall i | i in store :: i < s.slots) && forall i | i in s.arrays :: i < s.slots
    ensures Agrees(Inner(frame, env), s, store, f)
  {
    hide Means, Bound, Lookup;
  }

  lemma EnterPending(p: string, body: seq<Stmt>, own: set<nat>, s: Scope, s1: Scope, store: Ir.Slots)
    requires Entered(p, VarNames(body), StmtsAssigned(body), s, s1) && own == NameSlots(VarNames(body), s1.locals)
    requires forall i | i in s.arrays :: i < s.slots
    ensures Pending(VarNames(body), s1, Ir.Declare(store, own))
  {
    hide StmtsAssigned, VarNames, Varying;
    var names := VarNames(body);
    forall i | 0 <= i < |names|
      ensures s1.locals[names[i]].index in own
    {}
  }

  /** Leaving a callback: the enclosing variables are as they were. */
  lemma LeaveReady(fn: Function, item: Value, s: Scope, c: Dialect, env2: Env, store2: Ir.Slots, env: Env, store: Ir.Slots, r: Realm, f: Ir.Frame)
    requires CallbackRefusal(fn).None? && LowerCallback(fn, s, c).Accepted? && s.mapDepth == 0
    requires Ready(env, s, store, {}, c, r, f)
    requires var p := fn.params[0].name.value;
      var s1 := DeclareScope(fn.body, EnterCallback(p, s)).scope;
      var own := Ir.OwnedSlots(LowerStmts(fn.body, s1, c).value);
      SameOuter(Inner(Hoist(map[p := item], fn.body), env), env2) &&
      Untouched(Ir.Declare(store, own), store2, s1.mutable + own, Floor(s1))
    ensures var p := fn.params[0].name.value;
      var s1 := DeclareScope(fn.body, EnterCallback(p, s)).scope;
      Enclosing(env2) == env && Ir.Leave(store2, Ir.OwnedSlots(LowerStmts(fn.body, s1, c).value)) == store
  {
    CallbackParts(fn, s, c);
    hide *;
    var p := fn.params[0].name.value;
    var s1 := DeclareScope(fn.body, EnterCallback(p, s)).scope;
    DeclareEnters(p, fn.body, s);
    OwnedAreDeclared(fn.body, s1, c);
    var own := Ir.OwnedSlots(LowerStmts(fn.body, s1, c).value);
    LeaveFacts(p, VarNames(fn.body), StmtsAssigned(fn.body), own, s, s1, c, env, store, r, f);
    LeaveRestores(store, store2, own, s1.mutable + own, s.slots);
    SameEnclosing(Hoist(map[p := item], fn.body), env, env2);
  }

  lemma CallbackParts(fn: Function, s: Scope, c: Dialect)
    requires CallbackRefusal(fn).None? && LowerCallback(fn, s, c).Accepted?
    ensures |fn.params| > 0 && fn.params[0].name.Some?
    ensures var declared := DeclareScope(fn.body, EnterCallback(fn.params[0].name.value, s));
      declared.Accepted? && LowerStmts(fn.body, declared.scope, c).Accepted?
  {
    hide DeclareScope, LowerStmts;
  }

  lemma LeaveFacts(p: string, names: seq<string>, written: set<string>, own: set<nat>, s: Scope, s1: Scope, c: Dialect, env: Env, store: Ir.Slots, r: Realm, f: Ir.Frame)
    requires Entered(p, names, written, s, s1) && own == NameSlots(names, s1.locals) && Ready(env, s, store, {}, c, r, f)
    ensures Floor(s1) == s.slots && (forall i | i in store :: i < s.slots) && forall i | i in own :: s.slots <= i
  {
    hide Varying, Bound, Lookup, Means, Conforms, SameWorld, ArraysHold;
  }

  lemma SameEnclosing(frame: map<string, Value>, env: Env, env2: Env)
    requires SameOuter(Inner(frame, env), env2)
    ensures Enclosing(env2) == env
  {}

  lemma LeaveRestores(store: Ir.Slots, store2: Ir.Slots, own: set<nat>, touched: set<nat>, floor: nat)
    requires Untouched(Ir.Declare(store, own), store2, touched, floor)
    requires (forall i | i in store :: i < floor) && (forall i | i in own :: floor <= i)
    ensures Ir.Leave(store2, own) == store
  {
    assert Ir.Declare(store, own).Keys == store.Keys + own;
    assert Ir.Leave(store2, own).Keys == store.Keys;
  }

  // ---------------------------------------------------------------- statements

  /** Names still to be bound: each is a slot of this body, and unless it varies it
      is unset, not yet qualified, and bound only once. */
  ghost predicate Pending(names: seq<string>, s: Scope, store: Ir.Slots) {
    forall i | 0 <= i < |names| ::
      names[i] in s.locals && s.locals[names[i]].Slot? &&
      var k := s.locals[names[i]].index;
      Floor(s) <= k && k in store &&
      (k !in s.mutable ==> store[k] == Undefined && k !in s.arrays &&
                           forall j | 0 <= j < |names| && names[j] == names[i] :: j == i)
  }

  /** Corresponding outcomes of statements that bind the slots `own`. */
  ghost predicate FlowSame(jf: Flow<Env>, io: Flow<Ir.Slots>, env: Env, store: Ir.Slots, s: Scope, s1: Scope, own: set<nat>, f: Ir.Frame) {
    match (jf, io)
    case (Next(env1, log1), Next(store1, log2)) =>
      log1 == log2 && Agrees(env1, s1, store1, f) && ArraysHold(s1, store1) &&
      SameOuter(env, env1) && Untouched(store, store1, s.mutable + own, Floor(s))
    case (Returned(v, env1, log1), Returned(w, store1, log2)) =>
      v == w && log1 == log2 && SameOuter(env, env1) && Untouched(store, store1, s.mutable + own, Floor(s))
    case (Raised(x, log1), Raised(y, log2)) => Fails(x, y, f.oracle) && log1 == log2
    case _ => false
  }

  lemma {:induction false} RunConcat(a: seq<Ir.S>, b: seq<Ir.S>, store: Ir.Slots, log: Log, f: Ir.Frame)
    ensures Ir.Run(a + b, store, log, f) ==
      match Ir.Run(a, store, log, f)
      case Next(store1, log1) => Ir.Run(b, store1, log1, f)
      case other => other
  {
    if a == [] { assert a + b == b; }
    else {
      assert (a + b)[1..] == a[1..] + b;
      var first := Ir.RunStmt(a[0], store, log, f);
      if first.Next? { RunConcat(a[1..], b, first.state, first.log, f); }
    }
  }

  lemma RunOne(st: Ir.S, store: Ir.Slots, log: Log, f: Ir.Frame)
    ensures Ir.Run([st], store, log, f) == Ir.RunStmt(st, store, log, f)
  {
    assert [st][1..] == [];
  }

  lemma PendingParts(a: seq<string>, b: seq<string>, s: Scope, store: Ir.Slots)
    requires Pending(a + b, s, store)
    ensures Pending(a, s, store)
  {
    forall i | 0 <= i < |a| ensures (a + b)[i] == a[i] {}
    forall j | 0 <= j < |a| ensures (a + b)[j] == a[j] {}
  }

  /** A name of one part is not a name of the other, unless its slot varies. */
  lemma PendingApart(a: seq<string>, b: seq<string>, s: Scope, store: Ir.Slots, j: nat)
    requires Pending(a + b, s, store) && j < |b|
    requires forall n, m | n in s.locals && m in s.locals && s.locals[n].Slot? && s.locals[n] == s.locals[m] :: n == m
    ensures b[j] in s.locals && s.locals[b[j]].Slot? && s.locals[b[j]].index in store
    ensures s.locals[b[j]].index in s.mutable || s.locals[b[j]].index !in NameSlots(a, s.locals)
  {
    assert (a + b)[|a| + j] == b[j];
    var k := s.locals[b[j]].index;
    if k in NameSlots(a, s.locals) {
      var n :| n in a && n in s.locals && s.locals[n].Slot? && s.locals[n].index == k;
      var i :| 0 <= i < |a| && a[i] == n;
      assert (a + b)[i] == (a + b)[|a| + j];
    }
  }

  /** What is still to be bound stays so while other names are bound or skipped. */
  lemma PendingRest(a: seq<string>, b: seq<string>, s: Scope, s1: Scope, store: Ir.Slots, store1: Ir.Slots)
    requires Pending(a + b, s, store) && Grows(s, s1, NameSlots(a, s.locals))
    requires forall n, m | n in s.locals && m in s.locals && s.locals[n].Slot? && s.locals[n] == s.locals[m] :: n == m
    requires Untouched(store, store1, s.mutable + NameSlots(a, s.locals), Floor(s))
    ensures Pending(b, s1, store1)
  {
    hide NameSlots;
    forall j | 0 <= j < |b|
      ensures b[j] in s1.locals && s1.locals[b[j]].Slot? &&
        var k := s1.locals[b[j]].index;
        Floor(s1) <= k && k in store1 &&
        (k !in s1.mutable ==> store1[k] == Undefined && k !in s1.arrays &&
                              forall i | 0 <= i < |b| && b[i] == b[j] :: i == j)
    {
      PendingApart(a, b, s, store, j);
      assert (a + b)[|a| + j] == b[j];
      forall i | 0 <= i < |b| && b[i] == b[j] ensures s.locals[b[j]].index !in s.mutable ==> i == j {
        assert (a + b)[|a| + i] == b[i];
      }
    }
  }

  /** After a statement has run to its end, the rest of the body can be simulated. */
  lemma NextReady(a: seq<string>, b: seq<string>, names: set<string>, rest: set<string>, jf: Flow<Env>, io: Flow<Ir.Slots>, env: Env, store: Ir.Slots, s: Scope, s1: Scope, c: Dialect, r: Realm, f: Ir.Frame)
    requires Ready(env, s, store, names, c, r, f) && rest <= names && Pending(a + b, s, store)
    requires Grows(s, s1, NameSlots(a, s.locals))
    requires FlowSame(jf, io, env, store, s, s1, NameSlots(a, s.locals), f)
    ensures jf.Next? ==> Ready(jf.state, s1, io.state, rest, c, r, f) && Pending(b, s1, io.state)
  {
    if jf.Next? { PendingRest(a, b, s, s1, store, io.state); }
  }

  /** Code that was compiled but not run: its slots are still unset. */
  lemma SkipReady(a: seq<string>, b: seq<string>, names: set<string>, rest: set<string>, env: Env, store: Ir.Slots, s: Scope, s1: Scope, c: Dialect, r: Realm, f: Ir.Frame)
    requires Ready(env, s, store, names, c, r, f) && rest <= names && Pending(a + b, s, store)
    requires Grows(s, s1, NameSlots(a, s.locals))
    ensures Ready(env, s1, store, rest, c, r, f) && Pending(b, s1, store)
  {
    PendingRest(a, b, s, s1, store, store);
    PendingParts(a, b, s, store);
    SkippedArrays(a, s, s1, store);
    {
      hide Pending, ArraysHold, Means, Bound, Lookup;
      assert Agrees(env, s1, store, f) by { SkippedAgrees(a, env, s, s1, store, f); }
    }
  }

  lemma SkippedArrays(a: seq<string>, s: Scope, s1: Scope, store: Ir.Slots)
    requires ArraysHold(s, store) && Pending(a, s, store) && Grows(s, s1, NameSlots(a, s.locals))
    ensures ArraysHold(s1, store)
  {
    forall i | i in s1.arrays && i !in s1.mutable && i in store ensures ArrayOrNullish(store[i]) {
      if i !in s.arrays {
        var n :| n in a && n in s.locals && s.locals[n].Slot? && s.locals[n].index == i;
        var j :| 0 <= j < |a| && a[j] == n;
      }
    }
  }

  lemma SkippedAgrees(a: seq<string>, env: Env, s: Scope, s1: Scope, store: Ir.Slots, f: Ir.Frame)
    requires Agrees(env, s, store, f) && Pending(a, s, store) && Grows(s, s1, NameSlots(a, s.locals))
    ensures Agrees(env, s1, store, f)
  {
    hide Means, Bound, Lookup;
    forall i | i in s1.arrays ensures i < s1.slots {
      if i !in s.arrays {
        var n :| n in a && n in s.locals && s.locals[n].Slot? && s.locals[n].index == i;
        var j :| 0 <= j < |a| && a[j] == n;
      }
    }
  }

  /** Running on after a first part. */
  lemma FlowThen(jf: Flow<Env>, io: Flow<Ir.Slots>, env: Env, store: Ir.Slots, s: Scope, own: set<nat>, env1: Env, store1: Ir.Slots, s1: Scope, s2: Scope, own1: set<nat>, f: Ir.Frame)
    requires Grows(s, s1, own)
    requires SameOuter(env, env1) && Untouched(store, store1, s.mutable + own, Floor(s))
    requires FlowSame(jf, io, env1, store1, s1, s2, own1, f)
    ensures FlowSame(jf, io, env, store, s, s2, own + own1, f)
  {
    hide Agrees, ArraysHold, Modelled;
  }

  lemma {:induction false} StmtsSame(body: seq<Stmt>, s: Scope, c: Dialect, env: Env, store: Ir.Slots, log: Log, r: Realm, f: Ir.Frame)
    requires LowerStmts(body, s, c).Accepted?
    requires Ready(env, s, store, StmtsAssigned(body), c, r, f) && Pending(VarNames(body), s, store)
    ensures var low := LowerStmts(body, s, c);
      FlowSame(Script.Run(body, env, log, r), Ir.Run(low.value, store, log, f), env, store, s, low.scope, Ir.OwnedSlots(low.value), f)
    decreases body, 0
  {
    hide Ready, Agrees, ArraysHold, SameWorld, Conforms, Varying, SameOuter, Untouched, Extends, Grows, Modelled, Pending, NameSlots, Ir.OwnedSlots;
    if body == [] {
      NothingSame(env, s, store, log, StmtsAssigned(body), c, r, f);
    } else {
      var first := LowerStmt(body[0], s, c);
      var rest := LowerStmts(body[1..], first.scope, c);
      var a, b := StmtVarNames(body[0]), VarNames(body[1..]);
      Narrow(env, s, s, store, StmtsAssigned(body), StmtAssigned(body[0]), c, r, f);
      PendingParts(a, b, s, store);
      StmtSame(body[0], s, c, env, store, log, r, f);
      StmtGrows(body[0], s, c);
      StmtOwnedAreDeclared(body[0], s, c);
      var jf, io := Script.RunStmt(body[0], env, log, r), Ir.Run(first.value, store, log, f);
      NextReady(a, b, StmtsAssigned(body), StmtsAssigned(body[1..]), jf, io, env, store, s, first.scope, c, r, f);
      RunConcat(first.value, rest.value, store, log, f);
      OwnedSlotsConcat(first.value, rest.value);
      SequelSame(body[1..], jf, io, env, store, s, Ir.OwnedSlots(first.value), first.scope, c, r, f);
    }
  }

  lemma NothingSame(env: Env, s: Scope, store: Ir.Slots, log: Log, names: set<string>, c: Dialect, r: Realm, f: Ir.Frame)
    requires Ready(env, s, store, names, c, r, f)
    ensures FlowSame(Next(env, log), Next(store, log), env, store, s, s, Ir.OwnedSlots([]), f)
  {}

  /** The rest of a body after its first statement, whatever that came to. */
  lemma {:induction false} SequelSame(body: seq<Stmt>, jf: Flow<Env>, io: Flow<Ir.Slots>, env: Env, store: Ir.Slots, s: Scope, own: set<nat>, s1: Scope, c: Dialect, r: Realm, f: Ir.Frame)
    requires LowerStmts(body, s1, c).Accepted? && Grows(s, s1, own) && FlowSame(jf, io, env, store, s, s1, own, f)
    requires jf.Next? ==> Ready(jf.state, s1, io.state, StmtsAssigned(body), c, r, f) && Pending(VarNames(body), s1, io.state)
    ensures var low := LowerStmts(body, s1, c);
      FlowSame(if jf.Next? then Script.Run(body, jf.state, jf.log, r) else jf,
               if io.Next? then Ir.Run(low.value, io.state, io.log, f) else io,
               env, store, s, low.scope, own + Ir.OwnedSlots(low.value), f)
    decreases body, 1
  {
    hide Ready, Agrees, ArraysHold, SameOuter, Modelled, Pending, Ir.OwnedSlots, Script.Run, Ir.Run, LowerStmts, StmtsAssigned, VarNames, Extends;
    if jf.Next? {
      StmtsSame(body, s1, c, jf.state, io.state, jf.log, r, f);
      var low := LowerStmts(body, s1, c);
      FlowThen(Script.Run(body, jf.state, jf.log, r), Ir.Run(low.value, io.state, io.log, f), env, store, s, own, jf.state, io.state, s1, low.scope, Ir.OwnedSlots(low.value), f);
    }
  }

  lemma {:induction false} StmtSame(st: Stmt, s: Scope, c: Dialect, env: Env, store: Ir.Slots, log: Log, r: Realm, f: Ir.Frame)
    requires LowerStmt(st, s, c).Accepted?
    requires Ready(env, s, store, StmtAssigned(st), c, r, f) && Pending(StmtVarNames(st), s, store)
    ensures var low := LowerStmt(st, s, c);
      FlowSame(Script.RunStmt(st, env, log, r), Ir.Run(low.value, store, log, f), env, store, s, low.scope, Ir.OwnedSlots(low.value), f)
    decreases st, 1
  {
    hide Ready, Agrees, ArraysHold, SameWorld, Conforms, Varying, SameOuter, Untouched, Extends, Grows, Modelled, Pending, NameSlots, Ir.OwnedSlots;
    match st
    case VarDecl(isVar, ds) => DeclaratorsSame(ds, isVar, s, c, env, store, log, r, f);
    case If(_, _, _) => IfSame(st, s, c, env, store, log, r, f);
    case Block(body) => StmtsSame(body, s, c, env, store, log, r, f);
    case Return(v) => ReturnSame(v.value, s, c, env, store, log, r, f);
    case ExprStmt(e) => EvaluateSame(e, s, c, env, store, log, r, f);
    case Throw(e) => ThrowSame(e, s, c, env, store, log, r, f);
  }

  lemma Returning(jo: Out<Value, Env>, io: Out<Value, Ir.Slots>, env: Env, store: Ir.Slots, s: Scope, s1: Scope, own: set<nat>, f: Ir.Frame)
    requires SameOut(jo, io, env, store, s, s1, f)
    ensures FlowSame(match jo case Val(v, env1, log1) => Returned(v, env1, log1) case Err(x, log1) => Raised(x, log1),
                     match io case Val(v, store1, log1) => Returned(v, store1, log1) case Err(x, log1) => Raised(x, log1),
                     env, store, s, s1, own, f)
    ensures FlowSame(match jo case Val(_, env1, log1) => Next(env1, log1) case Err(x, log1) => Raised(x, log1),
                     match io case Val(_, store1, log1) => Next(store1, log1) case Err(x, log1) => Raised(x, log1),
                     env, store, s, s1, own, f)
  {
    hide Agrees, ArraysHold, SameOuter, Modelled;
  }

  lemma {:induction false} ReturnSame(e: Expr, s: Scope, c: Dialect, env: Env, store: Ir.Slots, log: Log, r: Realm, f: Ir.Frame)
    requires LowerExpr(e, s, c).Accepted? && Ready(env, s, store, Assigned(e), c, r, f)
    ensures var low := LowerExpr(e, s, c);
      var ir := [Ir.Return(low.value)];
      FlowSame(Script.RunStmt(Return(Some(e)), env, log, r), Ir.Run(ir, store, log, f), env, store, s, low.scope, Ir.OwnedSlots(ir), f)
    decreases e, 5
  {
    hide Ready, Agrees, ArraysHold, SameWorld, Conforms, Varying, SameOuter, Untouched, Extends, Grows, Modelled, Pending, NameSlots, Ir.OwnedSlots;
    var low := LowerExpr(e, s, c);
    ExprSame(e, s, c, env, store, log, r, f);
    RunOne(Ir.Return(low.value), store, log, f);
    Returning(Eval(e, env, log, r), Ir.Eval(low.value, store, log, f), env, store, s, low.scope, Ir.OwnedSlots([Ir.Return(low.value)]), f);
  }

  lemma {:induction false} EvaluateSame(e: Expr, s: Scope, c: Dialect, env: Env, store: Ir.Slots, log: Log, r: Realm, f: Ir.Frame)
    requires LowerExpr(e, s, c).Accepted? && Ready(env, s, store, Assigned(e), c, r, f)
    ensures var low := LowerExpr(e, s, c);
      var ir := [Ir.Evaluate(low.value)];
      FlowSame(Script.RunStmt(ExprStmt(e), env, log, r), Ir.Run(ir, store, log, f), env, store, s, low.scope, Ir.OwnedSlots(ir), f)
    decreases e, 5
  {
    hide Ready, Agrees, ArraysHold, SameWorld, Conforms, Varying, SameOuter, Untouched, Extends, Grows, Modelled, Pending, NameSlots, Ir.OwnedSlots;
    var low := LowerExpr(e, s, c);
    ExprSame(e, s, c, env, store, log, r, f);
    RunOne(Ir.Evaluate(low.value), store, log, f);
    Returning(Eval(e, env, log, r), Ir.Eval(low.value, store, log, f), env, store, s, low.scope, Ir.OwnedSlots([Ir.Evaluate(low.value)]), f);
  }

  lemma {:induction false} ThrowSame(e: Expr, s: Scope, c: Dialect, env: Env, store: Ir.Slots, log: Log, r: Realm, f: Ir.Frame)
    requires LowerThrow(e, s, c).Accepted? && Ready(env, s, store, Assigned(e), c, r, f)
    ensures var low := LowerThrow(e, s, c);
      FlowSame(Script.RunStmt(Throw(e), env, log, r), Ir.Run(low.value, store, log, f), env, store, s, low.scope, Ir.OwnedSlots(low.value), f)
    decreases e, 4
  {
    hide *;
    ThrowLowers(e, s, c);
    ThrowAssigned(e);
    var t := FatalParts(e).value;
    ModuleReady(t.reporter, env, s, store, Assigned(e), c, r, f);
    ModuleReady(t.constructorOf, env, s, store, Assigned(e), c, r, f);
    ThrowRuns(e, env, log, r);
    var m := LowerExpr(t.metric, s, c);
    var x := LowerExpr(t.context, m.scope, c);
    Narrow(env, s, s, store, Assigned(e), Assigned(t.metric), c, r, f);
    ExprSame(t.metric, s, c, env, store, log, r, f);
    ExprExtends(t.metric, s, c);
    var jo, io := Eval(t.metric, env, log, r), Ir.Eval(m.value, store, log, f);
    StillReady(jo, io, env, store, s, m.scope, Assigned(e), Assigned(t.context), c, r, f);
    if jo.Val? {
      SameVal(jo, io, env, store, s, m.scope, f);
      ExprSame(t.context, m.scope, c, jo.state, io.state, jo.log, r, f);
    }
    FatalSame(jo, io, t.context, t.message, m.value, m.scope, x.scope, log, r, env, store, s, f);
  }

  /** What an accepted throw is made of and compiles to. */
  lemma ThrowLowers(e: Expr, s: Scope, c: Dialect)
    requires LowerThrow(e, s, c).Accepted?
    ensures FatalParts(e).Some?
    ensures var t := FatalParts(e).value;
      var m := LowerExpr(t.metric, s, c);
      t.metric < e && t.context < e && m.Accepted? &&
      var x := LowerExpr(t.context, m.scope, c);
      x.Accepted? && x.value == Ir.ObjectOf([Ir.Entry(COLLECTION, Ir.Argument(0))]) &&
      Module(t.reporter, s, c) == Some(c.vocabulary.metricModule) &&
      Module(t.constructorOf, s, c) == Some(c.vocabulary.errorModule) &&
      LowerThrow(e, s, c) == Accepted([Ir.Fatal(m.value, t.message)], x.scope)
  {
    hide Module, LowerExpr, Extends;
    var t := FatalParts(e).value;
    assert t.metric == e.first.arguments[0].expr && t.context == e.first.arguments[1].expr;
    var m := LowerExpr(t.metric, s, c);
    var x := LowerExpr(t.context, m.scope, c);
    ExprExtends(t.metric, s, c);
    ExprExtends(t.context, m.scope, c);
    ModuleKept(t.constructorOf, s, m.scope, x.scope, c);
  }

  /** What the script does on a throw whose two modules are the expected ones. */
  lemma ThrowRuns(e: Expr, env: Env, log: Log, r: Realm)
    requires FatalParts(e).Some?
    requires var t := FatalParts(e).value;
      LoadedModule(t.reporter, env, r.loaders) == Some(r.vocabulary.metricModule) &&
      LoadedModule(t.constructorOf, env, r.loaders) == Some(r.vocabulary.errorModule)
    ensures var t := FatalParts(e).value;
      Script.RunStmt(Throw(e), env, log, r) == Reported(Eval(t.metric, env, log, r), t.context, t.message, r)
  {
    hide Eval, LoadedModule;
    assert Script.RunStmt(Throw(e), env, log, r) == Script.RunFatal(e, env, log, r);
  }

  /** The context evaluated after the metric, and both raised with the message. */
  ghost function Reported(metric: Out<Value, Env>, context: Expr, message: string, r: Realm): Flow<Env> {
    match metric
    case Err(x, log1) => Raised(x, log1)
    case Val(m, env1, log1) =>
      match Eval(context, env1, log1, r)
      case Err(x, log2) => Raised(x, log2)
      case Val(v, _, log2) => Raised(Fatal(m, v, message), log2)
  }

  lemma SameVal<A>(jo: Out<A, Env>, io: Out<A, Ir.Slots>, env: Env, store: Ir.Slots, s: Scope, s1: Scope, f: Ir.Frame)
    requires SameOut(jo, io, env, store, s, s1, f)
    ensures jo.Val? == io.Val? && jo.log == io.log && (jo.Val? ==> jo.value == io.value)
    ensures jo.Err? ==> Fails(jo.failure, io.failure, f.oracle)
  {
    hide Agrees, ArraysHold, SameOuter, Untouched, Fails;
  }

  /** Both sides raise alike once the metric is there: the context can only be the one
      the compiler lets through. */
  lemma FatalSame(jo: Out<Value, Env>, io: Out<Value, Ir.Slots>, context: Expr, message: string, metric: Ir.E, s1: Scope, s2: Scope,
                  log: Log, r: Realm, env: Env, store: Ir.Slots, s: Scope, f: Ir.Frame)
    requires SameOut(jo, io, env, store, s, s1, f) && io == Ir.Eval(metric, store, log, f)
    requires jo.Val? ==> (io.Val? &&
      SameOut(Eval(context, jo.state, jo.log, r), Ir.Eval(Ir.ObjectOf([Ir.Entry(COLLECTION, Ir.Argument(0))]), io.state, jo.log, f), jo.state, io.state, s1, s2, f))
    ensures var ir := [Ir.Fatal(metric, message)];
      FlowSame(Reported(jo, context, message, r), Ir.Run(ir, store, log, f), env, store, s, s2, Ir.OwnedSlots(ir), f)
  {
    hide Ir.Eval, Eval, Agrees, ArraysHold, SameOuter, Untouched, Modelled, Ir.OwnedSlots, Ir.Run;
    RunOne(Ir.Fatal(metric, message), store, log, f);
    if jo.Val? {
      ContextEvaluates(io.state, io.log, f);
    }
  }

  lemma ModuleKept(e: Expr, s: Scope, s1: Scope, s2: Scope, c: Dialect)
    requires Extends(s, s1) && Extends(s1, s2)
    ensures Module(e, s, c) == Module(e, s2, c)
  {}

  lemma ThrowAssigned(e: Expr)
    requires FatalParts(e).Some?
    ensures Assigned(FatalParts(e).value.metric) <= Assigned(e)
    ensures Assigned(FatalParts(e).value.context) <= Assigned(e)
  {
    var args := e.first.arguments;
    assert AssignedArguments(args) == AssignedArgument(args[0]) + AssignedArguments(args[1..]);
    assert args[1..][0] == args[1];
    assert AssignedArgument(args[1]) <= AssignedArguments(args[1..]);
  }

  /** The one reporting context the compiler lets through. */
  lemma ContextEvaluates(store: Ir.Slots, log: Log, f: Ir.Frame)
    ensures Ir.Eval(Ir.ObjectOf([Ir.Entry(COLLECTION, Ir.Argument(0))]), store, log, f) == Val(Ir.Context(f.args), store, log)
  {
    var entries := [Ir.Entry(COLLECTION, Ir.Argument(0))];
    assert entries[1..] == [];
    assert Ir.EvalEntries(entries[1..], store, log, f) == Val([], store, log);
    assert Ir.EvalEntry(entries[0], store, log, f) == Val(ArgAt(f.args, 0), store, log);
    assert [Field(COLLECTION, ArgAt(f.args, 0))] + [] == [Field(COLLECTION, ArgAt(f.args, 0))];
  }

  lemma {:induction false} DeclaratorsSame(ds: seq<Declarator>, isVar: bool, s: Scope, c: Dialect, env: Env, store: Ir.Slots, log: Log, r: Realm, f: Ir.Frame)
    requires LowerDeclarators(ds, isVar, s, c).Accepted?
    requires Ready(env, s, store, DeclaratorsAssigned(ds), c, r, f) && Pending(DeclaratorNames(ds), s, store)
    ensures var low := LowerDeclarators(ds, isVar, s, c);
      FlowSame(Script.RunDeclarators(ds, isVar, env, log, r), Ir.Run(low.value, store, log, f), env, store, s, low.scope, Ir.OwnedSlots(low.value), f)
    decreases ds, 0
  {
    hide Ready, Agrees, ArraysHold, SameWorld, Conforms, Varying, SameOuter, Untouched, Extends, Grows, Modelled, Pending, NameSlots, Ir.OwnedSlots;
    if ds == [] {
      NothingSame(env, s, store, log, DeclaratorsAssigned(ds), c, r, f);
    } else {
      var first := LowerDeclarator(ds[0], isVar, s, c);
      var rest := LowerDeclarators(ds[1..], isVar, first.scope, c);
      var a, b := [ds[0].name.value], DeclaratorNames(ds[1..]);
      Narrow(env, s, s, store, DeclaratorsAssigned(ds), DeclaratorAssigned(ds[0]), c, r, f);
      PendingParts(a, b, s, store);
      DeclaratorSame(ds[0], isVar, s, c, env, store, log, r, f);
      DeclaratorGrows(ds[0], isVar, s, c);
      OneNameSlot(ds[0].name.value, s.locals);
      var jf, io := RunDeclarator(ds[0], isVar, env, log, r), Ir.RunStmt(first.value, store, log, f);
      NextReady(a, b, DeclaratorsAssigned(ds), DeclaratorsAssigned(ds[1..]), jf, io, env, store, s, first.scope, c, r, f);
      assert ([first.value] + rest.value)[1..] == rest.value;
      OwnedSlotsConcat([first.value], rest.value);
      OwnedSlotsOne(first.value);
      if jf.Next? {
        DeclaratorsSame(ds[1..], isVar, first.scope, c, jf.state, io.state, jf.log, r, f);
        FlowThen(RunDeclarators(ds[1..], isVar, jf.state, jf.log, r), Ir.Run(rest.value, io.state, io.log, f), env, store, s, {first.value.slot}, jf.state, io.state, first.scope, rest.scope, Ir.OwnedSlots(rest.value), f);
      } else {
        FlowEnds(jf, io, env, store, s, first.scope, rest.scope, {first.value.slot}, {first.value.slot} + Ir.OwnedSlots(rest.value), f);
      }
    }
  }

  lemma OneNameSlot(n: string, locals: map<string, Ir.E>)
    requires n in locals && locals[n].Slot?
    ensures NameSlots([n], locals) == {locals[n].index}
  {}

  /** A flow that did not run to its end cares neither for later state nor for fewer bound slots. */
  lemma FlowEnds(jf: Flow<Env>, io: Flow<Ir.Slots>, env: Env, store: Ir.Slots, s: Scope, s1: Scope, s2: Scope, own: set<nat>, own1: set<nat>, f: Ir.Frame)
    requires FlowSame(jf, io, env, store, s, s1, own, f) && own <= own1 && !jf.Next?
    ensures FlowSame(jf, io, env, store, s, s2, own1, f)
  {
    hide Agrees, ArraysHold, SameOuter, Modelled;
  }

  lemma {:induction false} DeclaratorSame(d: Declarator, isVar: bool, s: Scope, c: Dialect, env: Env, store: Ir.Slots, log: Log, r: Realm, f: Ir.Frame)
    requires LowerDeclarator(d, isVar, s, c).Accepted?
    requires Ready(env, s, store, DeclaratorAssigned(d), c, r, f) && Pending([d.name.value], s, store)
    ensures var low := LowerDeclarator(d, isVar, s, c);
      low.value.Bind? &&
      FlowSame(RunDeclarator(d, isVar, env, log, r), Ir.RunStmt(low.value, store, log, f), env, store, s, low.scope, {low.value.slot}, f)
    decreases d, 4
  {
    hide Ready, Agrees, ArraysHold, SameWorld, Conforms, Varying, SameOuter, Untouched, Extends, Modelled, Pending, OrdinaryArray;
    match d.init case Some(e) =>
    var v := LowerExpr(e, s, c);
    ExprSame(e, s, c, env, store, log, r, f);
    ExprExtends(e, s, c);
    var jo, io := Eval(e, env, log, r), Ir.Eval(v.value, store, log, f);
    BindReady(d.name.value, v.value, jo, s, v.scope, env, store, log, DeclaratorAssigned(d), c, r, f);
  }

  /** The write at the end of a declaration, and what it teaches the array analysis. */
  lemma BindReady(n: string, v: Ir.E, jo: Out<Value, Env>, s: Scope, s1: Scope, env: Env, store: Ir.Slots, log: Log, names: set<string>, c: Dialect, r: Realm, f: Ir.Frame)
    requires Ready(env, s, store, names, c, r, f) && Extends(s, s1) && Pending([n], s, store)
    requires SameOut(jo, Ir.Eval(v, store, log, f), env, store, s, s1, f)
    requires n in s.locals && s.locals[n].Slot?
    ensures jo.Val? ==>
      var io := Ir.Eval(v, store, log, f);
      var k := s.locals[n].index;
      var s2 := if k !in s1.mutable && OrdinaryArray(v, s1, c) then s1.(arrays := s1.arrays + {k}) else s1;
      Bound(jo.state, n) && k in io.state &&
      FlowSame(Next(Store(jo.state, n, jo.value), jo.log), Next(io.state[k := io.value], io.log), env, store, s, s2, {k}, f)
  {
    hide Means, Bound, Lookup, Store, OrdinaryArray, Ir.Eval;
    var k := s.locals[n].index;
    assert [n][0] == n;
    var io := Ir.Eval(v, store, log, f);
    if OrdinaryArray(v, s1, c) { ArrayReady(v, s, s1, env, names, c, store, log, r, f); }
    if jo.Val? {
      StoreAgrees(jo.state, s1, io.state, f, n, jo.value);
      var s2 := if k !in s1.mutable && OrdinaryArray(v, s1, c) then s1.(arrays := s1.arrays + {k}) else s1;
      MoreArraysAgrees(Store(jo.state, n, jo.value), s1, s2, io.state[k := io.value], f);
      BindArrays(k, io.value, s1, s2, io.state);
      BindTouches(k, io.value, store, io.state, s.mutable, Floor(s));
      hide Agrees, ArraysHold, Untouched, Conforms, SameWorld, Varying, Pending;
      OuterTransitive(env, jo.state, Store(jo.state, n, jo.value));
    }
  }

  lemma OuterTransitive(env: Env, env1: Env, env2: Env)
    requires SameOuter(env, env1) && SameOuter(env1, env2)
    ensures SameOuter(env, env2)
  {}

  lemma MoreArraysAgrees(env: Env, s1: Scope, s2: Scope, store: Ir.Slots, f: Ir.Frame)
    requires Agrees(env, s1, store, f) && s2 == s1.(arrays := s2.arrays) && (forall i | i in s2.arrays :: i < s2.slots)
    ensures Agrees(env, s2, store, f)
  {
    hide Means, Bound, Lookup;
  }

  lemma BindArrays(k: nat, v: Value, s1: Scope, s2: Scope, store: Ir.Slots)
    requires ArraysHold(s1, store) && (s2 == s1 || s2 == s1.(arrays := s1.arrays + {k}))
    requires k in s1.mutable || (if s2 == s1 then k !in s1.arrays else ArrayOrNullish(v))
    ensures ArraysHold(s2, store[k := v])
  {}

  lemma BindTouches(k: nat, v: Value, store: Ir.Slots, store1: Ir.Slots, mutable: set<nat>, floor: nat)
    requires Untouched(store, store1, mutable, floor) && k in store1 && floor <= k
    ensures Untouched(store, store1[k := v], mutable + {k}, floor)
  {}

  // ---------------------------------------------------------------- branches

  lemma PendingAfter(names: seq<string>, s: Scope, s1: Scope, store: Ir.Slots, store1: Ir.Slots)
    requires Pending(names, s, store) && Extends(s, s1) && Untouched(store, store1, s.mutable, Floor(s))
    ensures Pending(names, s1, store1)
  {}

  /** A branch that ran, followed by one that was only compiled. */
  lemma BranchThenSkip(jf: Flow<Env>, io: Flow<Ir.Slots>, env: Env, store: Ir.Slots, s: Scope, s1: Scope, s2: Scope, own: set<nat>, own1: set<nat>, names: set<string>, c: Dialect, r: Realm, f: Ir.Frame)
    requires FlowSame(jf, io, env, store, s, s1, own, f)
    requires jf.Next? ==> Ready(jf.state, s2, io.state, names, c, r, f)
    ensures FlowSame(jf, io, env, store, s, s2, own + own1, f)
  {
    hide SameWorld, Conforms, Varying, SameOuter, Modelled;
  }

  /** A flow seen from an earlier point of the compilation. */
  lemma FlowFrom(jf: Flow<Env>, io: Flow<Ir.Slots>, env: Env, store: Ir.Slots, s: Scope, s1: Scope, s2: Scope, own: set<nat>, own1: set<nat>, f: Ir.Frame)
    requires FlowSame(jf, io, env, store, s1, s2, own1, f) && Grows(s, s1, own)
    ensures FlowSame(jf, io, env, store, s, s2, own + own1, f)
  {
    hide Agrees, ArraysHold, SameOuter, Modelled;
  }

  /** A flow after an expression, from before the expression. */
  lemma FlowAfter(jo: Out<Value, Env>, ie: Out<Value, Ir.Slots>, jf: Flow<Env>, io: Flow<Ir.Slots>, env: Env, store: Ir.Slots, s: Scope, s1: Scope, s2: Scope, own: set<nat>, f: Ir.Frame)
    requires Extends(s, s1) && SameOut(jo, ie, env, store, s, s1, f) && jo.Val?
    requires FlowSame(jf, io, jo.state, ie.state, s1, s2, own, f)
    ensures FlowSame(jf, io, env, store, s, s2, own, f)
  {
    hide Agrees, ArraysHold, Modelled;
  }

  /** Running one of two compiled branches. */
  lemma {:induction false} YesSame(yes: Stmt, noNames: seq<string>, noSet: set<string>, n: seq<Ir.S>, s: Scope, s2: Scope, c: Dialect, env: Env, store: Ir.Slots, log: Log, r: Realm, f: Ir.Frame)
    requires LowerStmt(yes, s, c).Accepted?
    requires Ready(env, s, store, StmtAssigned(yes) + noSet, c, r, f) && Pending(StmtVarNames(yes) + noNames, s, store)
    requires Grows(LowerStmt(yes, s, c).scope, s2, Ir.OwnedSlots(n)) && Ir.OwnedSlots(n) == NameSlots(noNames, s.locals)
    ensures var low := LowerStmt(yes, s, c);
      FlowSame(Script.RunStmt(yes, env, log, r), Ir.Run(low.value, store, log, f), env, store, s, s2, Ir.OwnedSlots(low.value) + Ir.OwnedSlots(n), f)
    decreases yes, 8
  {
    hide Ready, Agrees, ArraysHold, SameOuter, Untouched, Extends, Modelled, Pending, NameSlots, Ir.OwnedSlots, LowerStmt, Script.RunStmt, Ir.Run, StmtAssigned, StmtVarNames;
    var low := LowerStmt(yes, s, c);
    var both := StmtAssigned(yes) + noSet;
    Narrow(env, s, s, store, both, StmtAssigned(yes), c, r, f);
    PendingParts(StmtVarNames(yes), noNames, s, store);
    StmtSame(yes, s, c, env, store, log, r, f);
    StmtGrows(yes, s, c);
    StmtOwnedAreDeclared(yes, s, c);
    var jf, io := Script.RunStmt(yes, env, log, r), Ir.Run(low.value, store, log, f);
    NextReady(StmtVarNames(yes), noNames, both, noSet, jf, io, env, store, s, low.scope, c, r, f);
    if jf.Next? {
      assert noNames + [] == noNames;
      GrowsLocals(s, low.scope, Ir.OwnedSlots(low.value));
      SkipReady(noNames, [], noSet, {}, jf.state, io.state, low.scope, s2, c, r, f);
    }
    BranchThenSkip(jf, io, env, store, s, low.scope, s2, Ir.OwnedSlots(low.value), Ir.OwnedSlots(n), {}, c, r, f);
  }

  lemma GrowsLocals(s: Scope, s1: Scope, own: set<nat>)
    requires Grows(s, s1, own)
    ensures s1.locals == s.locals
  {}

  ghost function ElseNames(no: Option<Stmt>): seq<string> {
    match no case Some(x) => StmtVarNames(x) case None => []
  }

  ghost function ElseAssigned(no: Option<Stmt>): set<string> {
    match no case Some(x) => StmtAssigned(x) case None => {}
  }

  ghost function LowerElse(no: Option<Stmt>, s: Scope, c: Dialect): Lowered<seq<Ir.S>> {
    match no case Some(x) => LowerStmt(x, s, c) case None => Accepted([], s)
  }

  ghost function RunElse(no: Option<Stmt>, env: Env, log: Log, r: Realm): Flow<Env> {
    match no case Some(x) => Script.RunStmt(x, env, log, r) case None => Next(env, log)
  }

  lemma ElseGrows(no: Option<Stmt>, s: Scope, c: Dialect)
    requires LowerElse(no, s, c).Accepted?
    ensures var n := LowerElse(no, s, c);
      Grows(s, n.scope, Ir.OwnedSlots(n.value)) && Ir.OwnedSlots(n.value) == NameSlots(ElseNames(no), s.locals)
  {
    hide LowerStmt, StmtVarNames;
    match no
    case Some(x) => StmtGrows(x, s, c); StmtOwnedAreDeclared(x, s, c);
    case None =>
  }

  lemma {:induction false} ElseSame(no: Option<Stmt>, s: Scope, c: Dialect, env: Env, store: Ir.Slots, log: Log, r: Realm, f: Ir.Frame)
    requires LowerElse(no, s, c).Accepted?
    requires Ready(env, s, store, ElseAssigned(no), c, r, f) && Pending(ElseNames(no), s, store)
    ensures var n := LowerElse(no, s, c);
      FlowSame(RunElse(no, env, log, r), Ir.Run(n.value, store, log, f), env, store, s, n.scope, Ir.OwnedSlots(n.value), f)
    decreases no, 9
  {
    hide Ready, Agrees, ArraysHold, SameOuter, Untouched, Extends, Modelled, Pending, FlowSame, LowerStmt, Script.RunStmt, StmtAssigned, StmtVarNames;
    match no
    case Some(x) => StmtSame(x, s, c, env, store, log, r, f);
    case None => NothingSame(env, s, store, log, {}, c, r, f);
  }

  /** The branch not taken was compiled first: the other runs from after it. */
  lemma {:induction false} NoSame(yes: Stmt, no: Option<Stmt>, s: Scope, c: Dialect, env: Env, store: Ir.Slots, log: Log, r: Realm, f: Ir.Frame)
    requires LowerStmt(yes, s, c).Accepted? && LowerElse(no, LowerStmt(yes, s, c).scope, c).Accepted?
    requires Ready(env, s, store, StmtAssigned(yes) + ElseAssigned(no), c, r, f) && Pending(StmtVarNames(yes) + ElseNames(no), s, store)
    ensures var y := LowerStmt(yes, s, c);
      var n := LowerElse(no, y.scope, c);
      FlowSame(RunElse(no, env, log, r), Ir.Run(n.value, store, log, f), env, store, s, n.scope, Ir.OwnedSlots(y.value) + Ir.OwnedSlots(n.value), f)
    decreases no, 10
  {
    hide Ready, Agrees, ArraysHold, SameOuter, Untouched, Extends, Grows, Modelled, Pending, NameSlots, FlowSame, Ir.OwnedSlots, LowerStmt, LowerElse, RunElse, Ir.Run, StmtAssigned, StmtVarNames, ElseNames, ElseAssigned;
    var y := LowerStmt(yes, s, c);
    var n := LowerElse(no, y.scope, c);
    StmtGrows(yes, s, c);
    StmtOwnedAreDeclared(yes, s, c);
    SkipReady(StmtVarNames(yes), ElseNames(no), StmtAssigned(yes) + ElseAssigned(no), ElseAssigned(no), env, store, s, y.scope, c, r, f);
    ElseSame(no, y.scope, c, env, store, log, r, f);
    FlowFrom(RunElse(no, env, log, r), Ir.Run(n.value, store, log, f), env, store, s, y.scope, n.scope, Ir.OwnedSlots(y.value), Ir.OwnedSlots(n.value), f);
  }

  lemma {:induction false} IfSame(st: Stmt, s: Scope, c: Dialect, env: Env, store: Ir.Slots, log: Log, r: Realm, f: Ir.Frame)
    requires st.If? && LowerStmt(st, s, c).Accepted?
    requires Ready(env, s, store, StmtAssigned(st), c, r, f) && Pending(StmtVarNames(st), s, store)
    ensures var low := LowerStmt(st, s, c);
      FlowSame(Script.RunStmt(st, env, log, r), Ir.Run(low.value, store, log, f), env, store, s, low.scope, Ir.OwnedSlots(low.value), f)
    decreases st, 0
  {
    hide Ready, Agrees, ArraysHold, SameWorld, Conforms, Varying, SameOuter, Untouched, Extends, Grows, Modelled, Pending, NameSlots, FlowSame;
    match st case If(test, yes, no) =>
    var t := LowerExpr(test, s, c);
    var y := LowerStmt(yes, t.scope, c);
    var n := LowerElse(no, y.scope, c);
    Narrow(env, s, s, store, StmtAssigned(st), Assigned(test), c, r, f);
    ExprSame(test, s, c, env, store, log, r, f);
    ExprExtends(test, s, c);
    var jo, ie := Eval(test, env, log, r), Ir.Eval(t.value, store, log, f);
    var ir := Ir.If(t.value, y.value, n.value);
    assert LowerStmt(st, s, c) == Accepted([ir], n.scope);
    OwnedSlotsOne(ir);
    RunOne(ir, store, log, f);
    if jo.Val? {
      var both := StmtAssigned(yes) + ElseAssigned(no);
      StillReady(jo, ie, env, store, s, t.scope, StmtAssigned(st), both, c, r, f);
      PendingAfter(StmtVarNames(st), s, t.scope, store, ie.state);
      assert StmtVarNames(st) == StmtVarNames(yes) + ElseNames(no);
      ElseGrows(no, y.scope, c);
      StmtGrows(yes, t.scope, c);
      GrowsLocals(t.scope, y.scope, Ir.OwnedSlots(y.value));
      var own := Ir.OwnedSlots(y.value) + Ir.OwnedSlots(n.value);
      if Truthy(jo.value) {
        YesSame(yes, ElseNames(no), ElseAssigned(no), n.value, t.scope, n.scope, c, jo.state, ie.state, jo.log, r, f);
        FlowAfter(jo, ie, Script.RunStmt(yes, jo.state, jo.log, r), Ir.Run(y.value, ie.state, ie.log, f), env, store, s, t.scope, n.scope, own, f);
      } else {
        NoSame(yes, no, t.scope, c, jo.state, ie.state, jo.log, r, f);
        FlowAfter(jo, ie, RunElse(no, jo.state, jo.log, r), Ir.Run(n.value, ie.state, ie.log, f), env, store, s, t.scope, n.scope, own, f);
      }
    } else {
      FlowFails(jo, ie, env, store, s, t.scope, n.scope, Ir.OwnedSlots([ir]), f);
    }
  }

  lemma FlowFails(jo: Out<Value, Env>, ie: Out<Value, Ir.Slots>, env: Env, store: Ir.Slots, s: Scope, s1: Scope, s2: Scope, own: set<nat>, f: Ir.Frame)
    requires SameOut(jo, ie, env, store, s, s1, f) && jo.Err?
    ensures ie.Err? && FlowSame(Raised(jo.failure, jo.log), Raised(ie.failure, ie.log), env, store, s, s2, own, f)
  {}

  // ---------------------------------------------------------------- whole validators

  lemma {:induction false} ParamsAgree(params: seq<Param>, args: seq<Value>, i: nat)
    requires i <= |params|
    ensures var locals, frame := ParamLocals(params, i), ParamFrame(params, args, i);
      locals.Keys == frame.Keys &&
      forall n | n in locals :: locals[n].Argument? && locals[n].index < i && frame[n] == ArgAt(args, locals[n].index)
  {
    if i > 0 { ParamsAgree(params, args, i - 1); }
  }

  /** What declaring a validator's names does to a compiler that knows its parameters. */
  ghost predicate Started(names: seq<string>, written: set<string>, locals: map<string, Ir.E>, s: Scope) {
    && s.mapDepth == 0 && s.arrays == {}
    && (forall n :: n in s.locals <==> n in locals || n in names)
    && (forall n | n in locals :: n !in names && s.locals[n] == locals[n])
    && (forall n | n in names :: s.locals[n].Slot? && s.locals[n].index < s.slots)
    && (forall n, m | n in names && m in names && s.locals[n] == s.locals[m] :: n == m)
    && Varying(written, s)
    && (forall i, j | 0 <= i < j < |names| && names[i] == names[j] :: s.locals[names[i]].index in s.mutable)
  }

  lemma DeclareStarts(body: seq<Stmt>, locals: map<string, Ir.E>)
    requires forall n | n in locals :: locals[n].Argument?
    requires DeclareScope(body, Scope(locals, 0, 0, 0, {}, {})).Accepted?
    ensures Started(VarNames(body), StmtsAssigned(body), locals, DeclareScope(body, Scope(locals, 0, 0, 0, {}, {})).scope)
  {
    hide StmtsAssigned, VarNames;
    DeclareNamesSpec(VarNames(body), {}, {}, Scope(locals, 0, 0, 0, {}, {}));
  }

  lemma StartAgrees(body: seq<Stmt>, params: seq<Param>, args: seq<Value>, s: Scope, f: Ir.Frame)
    requires Started(VarNames(body), StmtsAssigned(body), ParamLocals(params, |params|), s)
    requires |params| <= 3 && f.args == args
    ensures var store := Ir.Declare(map[], NameSlots(VarNames(body), s.locals));
      Agrees(Top(Hoist(ParamFrame(params, args, |params|), body)), s, store, f) && ArraysHold(s, store) && Pending(VarNames(body), s, store)
  {
    var locals, frame := ParamLocals(params, |params|), ParamFrame(params, args, |params|);
    ParamsAgree(params, args, |params|);
    StartAgreesAt(body, VarNames(body), StmtsAssigned(body), |params|, locals, frame, s, f);
    StartPending(VarNames(body), StmtsAssigned(body), locals, s);
  }

  lemma StartPending(names: seq<string>, written: set<string>, locals: map<string, Ir.E>, s: Scope)
    requires Started(names, written, locals, s)
    ensures Pending(names, s, Ir.Declare(map[], NameSlots(names, s.locals)))
  {
    hide Varying;
    forall i | 0 <= i < |names| ensures s.locals[names[i]].index in NameSlots(names, s.locals) {}
  }

  lemma StartMeans(n: string, names: seq<string>, written: set<string>, count: nat, locals: map<string, Ir.E>, params: map<string, Value>, frame: map<string, Value>, s: Scope, f: Ir.Frame)
    requires Started(names, written, locals, s) && count <= 3 && locals.Keys == params.Keys
    requires n in locals ==> locals[n].Argument? && locals[n].index < count && params[n] == ArgAt(f.args, locals[n].index)
    requires n in frame <==> n in params || n in names
    requires (n in params ==> frame[n] == params[n]) && (n in names && n !in params ==> frame[n] == Undefined)
    ensures n in frame <==> n in s.locals
    ensures n in s.locals ==> Means(s.locals[n], frame[n], Ir.Declare(map[], NameSlots(names, s.locals)), f) && s.locals[n] != Ir.Argument(Ir.ITEM)
  {
    hide Varying;
    if n in names { assert s.locals[n].index in NameSlots(names, s.locals); }
  }

  lemma StartDistinct(names: seq<string>, written: set<string>, locals: map<string, Ir.E>, s: Scope)
    requires Started(names, written, locals, s) && forall n | n in locals :: locals[n].Argument?
    ensures forall n, m | n in s.locals && m in s.locals && s.locals[n].Slot? && s.locals[n] == s.locals[m] :: n == m
    ensures forall i | i in Ir.Declare(map[], NameSlots(names, s.locals)) :: i < s.slots
  {
    hide Varying;
    forall n, m | n in s.locals && m in s.locals && s.locals[n].Slot? && s.locals[n] == s.locals[m]
      ensures n == m
    {
      assert n in names && m in names;
    }
    assert Ir.Declare(map[], NameSlots(names, s.locals)).Keys == NameSlots(names, s.locals);
  }

  lemma StartAgreesAt(body: seq<Stmt>, names: seq<string>, written: set<string>, count: nat, locals: map<string, Ir.E>, params: map<string, Value>, s: Scope, f: Ir.Frame)
    requires Started(names, written, locals, s) && count <= 3 && names == VarNames(body)
    requires locals.Keys == params.Keys
    requires forall n | n in locals :: locals[n].Argument? && locals[n].index < count && params[n] == ArgAt(f.args, locals[n].index)
    ensures Agrees(Top(Hoist(params, body)), s, Ir.Declare(map[], NameSlots(names, s.locals)), f)
  {
    hide *;
    HoistedTop(body, params);
    StartDistinct(names, written, locals, s);
    StartedParts(names, written, locals, s);
    var frame, store := Hoist(params, body), Ir.Declare(map[], NameSlots(names, s.locals));
    forall n
      ensures n in frame <==> n in s.locals
      ensures n in s.locals ==> Means(s.locals[n], frame[n], store, f) && s.locals[n] != Ir.Argument(Ir.ITEM)
    {
      StartMeans(n, names, written, count, locals, params, frame, s, f);
    }
    AgreesTop(frame, s, store, f);
  }

  lemma StartedParts(names: seq<string>, written: set<string>, locals: map<string, Ir.E>, s: Scope)
    requires Started(names, written, locals, s)
    ensures s.mapDepth == 0 && s.arrays == {}
  {}

  /** A frame with nothing around it. */
  lemma AgreesTop(frame: map<string, Value>, s: Scope, store: Ir.Slots, f: Ir.Frame)
    requires s.mapDepth == 0 && s.arrays == {}
    requires forall n :: n in frame <==> n in s.locals
    requires forall n | n in s.locals :: Means(s.locals[n], frame[n], store, f) && s.locals[n] != Ir.Argument(Ir.ITEM)
    requires forall n, m | n in s.locals && m in s.locals && s.locals[n].Slot? && s.locals[n] == s.locals[m] :: n == m
    requires forall i | i in store :: i < s.slots
    ensures Agrees(Top(frame), s, store, f)
  {
    hide Means;
  }

  lemma HoistedTop(body: seq<Stmt>, params: map<string, Value>)
    ensures var frame := Hoist(params, body);
      (forall n :: n in frame <==> n in params || n in VarNames(body)) &&
      (forall n | n in params :: frame[n] == params[n]) &&
      (forall n | n in VarNames(body) && n !in params :: frame[n] == Undefined)
  {
    hide VarNames;
  }

  /** An accepted validator of at most three parameters means what its program means:
      same result or failure, same dependency calls in the same order, and nothing
      outside the modelled language is ever reached. */
  lemma LoweringPreserves(fn: Function, args: seq<Value>, log: Log, c: Dialect, r: Realm, oracle: Oracle)
    requires LowerFunction(fn, c).Accepted? && |fn.params| <= 3
    requires SameWorld(r, c, Ir.Frame(args, None, oracle)) && Conforms(args, c)
    ensures Script.Apply(fn, args, log, r) == Ir.Call(LowerFunction(fn, c).value, args, log, oracle)
    ensures Modelled(oracle) ==> Script.Apply(fn, args, log, r).answer != Failed(Unmodelled)
  {
    hide LowerStmts, Script.Run, Ir.Run, StmtsAssigned, VarNames, ParamLocals, Hoist, ParamFrame, Ir.OwnedSlots, Ir.Declare, Modelled;
    var f := Ir.Frame(args, None, oracle);
    var s := DeclareScope(fn.body, Scope(ParamLocals(fn.params, |fn.params|), 0, 0, 0, {}, {})).scope;
    var low := LowerStmts(fn.body, s, c);
    ParamsAgree(fn.params, args, |fn.params|);
    DeclareStarts(fn.body, ParamLocals(fn.params, |fn.params|));
    OwnedAreDeclared(fn.body, s, c);
    StartAgrees(fn.body, fn.params, args, s, f);
    var env := Top(Hoist(ParamFrame(fn.params, args, |fn.params|), fn.body));
    var store := Ir.Declare(map[], Ir.OwnedSlots(low.value));
    assert Ready(env, s, store, StmtsAssigned(fn.body), c, r, f);
    hide Ready, Agrees, ArraysHold, Pending, Started, DeclareScope, SameOuter, Untouched;
    StmtsSame(fn.body, s, c, env, store, log, r, f);
  }
}
