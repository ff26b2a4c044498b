/** The generated Rust computes what the program means: same value, same error as far
    as it is observable, same dependency calls, no local captured by mistake. */
module CodegenMeaning {
  import opened Decimals
  import opened Values
  import opened Codegen
  import Ir
  import Rust

  // ---------------------------------------------------------------- names

  predicate IsSlotName(x: string) {
    x != "" && x[0] == 's'
  }

  lemma SlotNamesDiffer(i: nat, j: nat)
    requires SlotName(i) == SlotName(j)
    ensures i == j
  {
    assert SlotName(i)[1..] == Decimal(i) && SlotName(j)[1..] == Decimal(j);
    DecimalInjective(i, j);
  }

  /** No name the generator introduces is a slot, an argument, or another such name. */
  lemma NamesApart(i: nat)
    ensures IsSlotName(SlotName(i)) && !IsSlotName(ArgName(i))
    ensures !IsSlotName(ITEM) && !IsSlotName(LEFT) && !IsSlotName(RIGHT) && !IsSlotName(INPUT) && !IsSlotName(MAPPED)
    ensures ArgName(i) != ITEM && ArgName(i) != LEFT && ArgName(i) != RIGHT && ArgName(i) != INPUT && ArgName(i) != MAPPED
    ensures |{ITEM, LEFT, RIGHT, INPUT, MAPPED}| == 5
  {
    assert ArgName(i)[0] == 'a' && SlotName(i)[0] == 's';
    assert ITEM[0] == 'i' && LEFT[0] == 'l' && RIGHT[0] == 'r' && INPUT[0] == 'i' && MAPPED[0] == 'm';
    assert ITEM[1] == 't' && INPUT[1] == 'n';
  }

  // ---------------------------------------------------------------- locals

  /** Only slot variables may have changed, and no local came or went. */
  ghost predicate Keeps(env: Rust.Env, env1: Rust.Env) {
    |env1| == |env| && forall j | 0 <= j < |env| :: env1[j].0 == env[j].0 && (!IsSlotName(env[j].0) ==> env1[j] == env[j])
  }

  lemma {:induction false} FindKept(env: Rust.Env, env1: Rust.Env, x: string)
    requires Keeps(env, env1) && !IsSlotName(x)
    ensures Rust.Find(env1, x) == Rust.Find(env, x)
    decreases |env|
  {
    if env != [] { FindKept(env[1..], env1[1..], x); }
  }

  lemma {:induction false} WriteSpec(env: Rust.Env, x: string, v: Value)
    requires Rust.Find(env, x).Some?
    ensures |Rust.Write(env, x, v)| == |env|
    ensures forall j | 0 <= j < |env| :: Rust.Write(env, x, v)[j].0 == env[j].0 && (env[j].0 != x ==> Rust.Write(env, x, v)[j] == env[j])
    ensures Rust.Find(Rust.Write(env, x, v), x) == Some(v)
    ensures forall y | y != x :: Rust.Find(Rust.Write(env, x, v), y) == Rust.Find(env, y)
    decreases |env|
  {
    if env[0].0 != x {
      WriteSpec(env[1..], x, v);
      var env1 := Rust.Write(env, x, v);
      assert env1[1..] == Rust.Write(env[1..], x, v);
    } else {
      assert Rust.Write(env, x, v)[1..] == env[1..];
    }
  }

  lemma {:induction false} FindBelow(prefix: Rust.Env, env: Rust.Env, x: string)
    requires forall j | 0 <= j < |prefix| :: prefix[j].0 != x
    ensures Rust.Find(prefix + env, x) == Rust.Find(env, x)
    decreases |prefix|
  {
    if prefix == [] { assert prefix + env == env; }
    else {
      assert (prefix + env)[1..] == prefix[1..] + env;
      FindBelow(prefix[1..], env, x);
    }
  }

  lemma KeepsTransitive(a: Rust.Env, b: Rust.Env, c: Rust.Env)
    requires Keeps(a, b) && Keeps(b, c)
    ensures Keeps(a, c)
  {}

  /** The locals in scope hold the slots, the arguments and the element. */
  ghost predicate Holds(env: Rust.Env, store: Ir.Slots, f: Ir.Frame, parameters: nat) {
    && (forall i | i in store :: Rust.Find(env, SlotName(i)) == Some(store[i]))
    && (forall i: nat | i < parameters :: Rust.Find(env, ArgName(i)) == Some(ArgAt(f.args, i)))
    && (f.item.Some? ==> Rust.Find(env, ITEM) == f.item)
  }

  predicate Introduced(x: string) {
    x == LEFT || x == RIGHT || x == INPUT || x == MAPPED
  }

  /** An introduced local hides nothing. */
  lemma PushHolds(x: string, v: Value, env: Rust.Env, store: Ir.Slots, f: Ir.Frame, parameters: nat)
    requires Introduced(x)
    ensures Holds([(x, v)] + env, store, f, parameters) <==> Holds(env, store, f, parameters)
  {
    var env1 := [(x, v)] + env;
    assert env1[1..] == env;
    NamesApart(0);
    forall i | i in store ensures Rust.Find(env1, SlotName(i)) == Rust.Find(env, SlotName(i)) { NamesApart(i); }
    forall i: nat | i < parameters ensures Rust.Find(env1, ArgName(i)) == Rust.Find(env, ArgName(i)) { NamesApart(i); }
  }

  /** Leaving the block of an introduced local. */
  lemma PopKeeps(x: string, v: Value, env: Rust.Env, env1: Rust.Env, store: Ir.Slots, f: Ir.Frame, parameters: nat)
    requires Introduced(x) && Keeps([(x, v)] + env, env1) && Holds(env1, store, f, parameters)
    ensures Rust.Leave(env1, |env|) == env1[1..]
    ensures Keeps(env, env1[1..]) && Holds(env1[1..], store, f, parameters)
    ensures env1[0] == (x, v)
  {
    NamesApart(0);
    var env0 := [(x, v)] + env;
    assert env1[0].0 == env0[0].0;
    forall j | 0 <= j < |env| ensures env1[1..][j].0 == env[j].0 && (!IsSlotName(env[j].0) ==> env1[1..][j] == env[j]) {
      assert env0[j + 1] == env[j];
      assert env1[j + 1].0 == env0[j + 1].0;
    }
    assert env1 == [(x, env1[0].1)] + env1[1..];
    PushHolds(x, env1[0].1, env1[1..], store, f, parameters);
  }

  /** Writing a slot and its local keeps them in step. */
  lemma WriteHolds(env: Rust.Env, store: Ir.Slots, f: Ir.Frame, parameters: nat, slot: nat, v: Value)
    requires Holds(env, store, f, parameters) && slot in store
    ensures Rust.Find(env, SlotName(slot)).Some?
    ensures Holds(Rust.Write(env, SlotName(slot), v), store[slot := v], f, parameters)
    ensures Keeps(env, Rust.Write(env, SlotName(slot), v))
  {
    var x := SlotName(slot);
    WriteSpec(env, x, v);
    NamesApart(slot);
    forall i | i in store && i != slot ensures SlotName(i) != x { if SlotName(i) == x { SlotNamesDiffer(i, slot); } }
    forall i: nat | i < parameters ensures ArgName(i) != x { NamesApart(i); }
  }

  // ---------------------------------------------------------------- outcomes

  /** What of a failure the returned error shows. */
  ghost predicate Reports(x: Failure, fault: Rust.Fault) {
    match x
    case TypeError => fault.kind == "TypeError" && fault.metric == None
    case Fatal(metric, _, message) => fault == Rust.FatalFault(metric, message)
    case Dependency(kind, message) => fault == Rust.Fault(kind, None, message)
    case Unmodelled => true
  }

  ghost predicate SameRuntime(oracle: Oracle, rt: Rust.Runtime) {
    forall log, callee, args ::
      var a, b := oracle(log, callee, args), rt.call(log, callee, args);
      a.log == b.log &&
      match a.answer
      case Done(v) => b.result == Rust.Ok(v)
      case Failed(x) => b.result.Bad? && Reports(x, b.result.fault)
  }

  ghost predicate SameOut<A>(io: Out<A, Ir.Slots>, ro: Rust.Out<A>, env: Rust.Env, store: Ir.Slots, f: Ir.Frame, parameters: nat) {
    match io
    case Val(v, store1, log1) =>
      ro.Gives? && ro.value == v && ro.log == log1 && Holds(ro.env, store1, f, parameters) && Keeps(env, ro.env) && store1.Keys == store.Keys
    case Err(x, log1) =>
      x == Unmodelled || (ro.Fails? && ro.log == log1 && Reports(x, ro.fault))
  }

  /** Everything an expression's simulation starts from. */
  ghost predicate Ready(env: Rust.Env, store: Ir.Slots, own: set<nat>, f: Ir.Frame, parameters: nat, rt: Rust.Runtime) {
    Holds(env, store, f, parameters) && SameRuntime(f.oracle, rt) && own <= store.Keys && parameters <= 3
  }

  lemma NextReady<A>(io: Out<A, Ir.Slots>, ro: Rust.Out<A>, env: Rust.Env, store: Ir.Slots, own: set<nat>, f: Ir.Frame, parameters: nat, rt: Rust.Runtime)
    requires Ready(env, store, own, f, parameters, rt) && SameOut(io, ro, env, store, f, parameters)
    ensures io.Val? ==> Ready(ro.env, io.state, own, f, parameters, rt)
  {}

  lemma Then<A>(io: Out<A, Ir.Slots>, ro: Rust.Out<A>, env: Rust.Env, store: Ir.Slots, env1: Rust.Env, store1: Ir.Slots, f: Ir.Frame, parameters: nat)
    requires Keeps(env, env1) && store1.Keys == store.Keys && SameOut(io, ro, env1, store1, f, parameters)
    ensures SameOut(io, ro, env, store, f, parameters)
  {
    if io.Val? { KeepsTransitive(env, env1, ro.env); }
  }

  // ---------------------------------------------------------------- expressions

  lemma {:induction false} ExprSame(e: Ir.E, own: set<nat>, f: Ir.Frame, parameters: nat, env: Rust.Env, store: Ir.Slots, log: Log, rt: Rust.Runtime)
    requires GenExpr(e).Code? && ReturnsExpr(e) && Ready(env, store, own, f, parameters, rt)
    requires Ir.ScopedExpr(e, store.Keys, own, parameters, f.item.Some?)
    ensures SameOut(Ir.Eval(e, store, log, f), Rust.Eval(GenExpr(e).value, env, log, rt), env, store, f, parameters)
    decreases e, 3
  {
    hide *;
    match e
    case FieldOf(_, _) => FieldSame(e, own, f, parameters, env, store, log, rt);
    case And(_, _) => LogicalSame(e, own, f, parameters, env, store, log, rt);
    case Or(_, _) => LogicalSame(e, own, f, parameters, env, store, log, rt);
    case Choose(_, _, _) => ChooseSame(e, own, f, parameters, env, store, log, rt);
    case Greater(_, _) => GreaterSame(e, own, f, parameters, env, store, log, rt);
    case Map(_, _) => MapSame(e, own, f, parameters, env, store, log, rt);
    case Sequence(_) => ListedSame(e, own, f, parameters, env, store, log, rt);
    case ObjectOf(_) => ListedSame(e, own, f, parameters, env, store, log, rt);
    case Validate(_, _) => ListedSame(e, own, f, parameters, env, store, log, rt);
    case Apply(_, _) => ListedSame(e, own, f, parameters, env, store, log, rt);
    case Not(_) => NotSame(e, own, f, parameters, env, store, log, rt);
    case IsNullish(_, _) => NotSame(e, own, f, parameters, env, store, log, rt);
    case Assign(_, _) => AssignSame(e, own, f, parameters, env, store, log, rt);
    case _ => SimpleSame(e, own, f, parameters, env, store, log, rt);
  }

  /** A value computed without touching anything. */
  lemma Unchanged<A>(v: A, own: set<nat>, f: Ir.Frame, parameters: nat, env: Rust.Env, store: Ir.Slots, log: Log, rt: Rust.Runtime)
    requires Ready(env, store, own, f, parameters, rt)
    ensures SameOut<A>(Val(v, store, log), Rust.Gives(v, env, log), env, store, f, parameters)
  {}

  /** Reading a slot, an argument or the element, whether cloned or borrowed. */
  lemma NameSame(e: Ir.E, own: set<nat>, f: Ir.Frame, parameters: nat, env: Rust.Env, store: Ir.Slots, log: Log, rt: Rust.Runtime)
    requires e.Argument? || e.Slot?
    requires Ready(env, store, own, f, parameters, rt) && Ir.ScopedExpr(e, store.Keys, own, parameters, f.item.Some?)
    ensures var x := if e.Slot? then SlotName(e.index) else if e.index == Ir.ITEM then ITEM else ArgName(e.index);
      SameOut(Ir.Eval(e, store, log, f), Rust.Eval(Rust.CloneOf(x), env, log, rt), env, store, f, parameters) &&
      Rust.Eval(Rust.Local(x), env, log, rt) == Rust.Eval(Rust.CloneOf(x), env, log, rt)
  {
    hide SlotName, ArgName;
  }

  /** Names and literals. */
  lemma SimpleSame(e: Ir.E, own: set<nat>, f: Ir.Frame, parameters: nat, env: Rust.Env, store: Ir.Slots, log: Log, rt: Rust.Runtime)
    requires e.Argument? || e.Slot? || e.UndefinedLit? || e.NullLit? || e.Integer? || e.String? || e.Metric?
    requires GenExpr(e).Code? && ReturnsExpr(e) && Ready(env, store, own, f, parameters, rt)
    requires Ir.ScopedExpr(e, store.Keys, own, parameters, f.item.Some?)
    ensures SameOut(Ir.Eval(e, store, log, f), Rust.Eval(GenExpr(e).value, env, log, rt), env, store, f, parameters)
  {
    hide Ready, Holds, Keeps, SameRuntime, Reports, SlotName, ArgName, Ir.EvalAll, Ir.EvalEntries, Ir.MapOver, Ir.CallWith, Rust.EvalAll, Rust.EvalMembers, Rust.Collect, Rust.Run, Rust.EndLet, Rust.CallWith, GenAll, GenEntries, GenBody, Declarations;
    match e
    case Argument(_) => NameSame(e, own, f, parameters, env, store, log, rt);
    case Slot(_) => NameSame(e, own, f, parameters, env, store, log, rt);
    case UndefinedLit => Unchanged(Undefined, own, f, parameters, env, store, log, rt);
    case NullLit => Unchanged(Null, own, f, parameters, env, store, log, rt);
    case Integer(n) => Unchanged(Number(Finite(n as real)), own, f, parameters, env, store, log, rt);
    case String(t) => Unchanged(Text(t), own, f, parameters, env, store, log, rt);
    case Metric(t) => Unchanged(Text(t), own, f, parameters, env, store, log, rt);
  }

  /** Tests of one value. */
  lemma {:induction false} NotSame(e: Ir.E, own: set<nat>, f: Ir.Frame, parameters: nat, env: Rust.Env, store: Ir.Slots, log: Log, rt: Rust.Runtime)
    requires (e.Not? || e.IsNullish?) && GenExpr(e).Code? && ReturnsExpr(e) && Ready(env, store, own, f, parameters, rt)
    requires Ir.ScopedExpr(e, store.Keys, own, parameters, f.item.Some?)
    ensures SameOut(Ir.Eval(e, store, log, f), Rust.Eval(GenExpr(e).value, env, log, rt), env, store, f, parameters)
    decreases e, 2
  {
    hide Ready, Holds, Keeps, SameRuntime, Reports, SlotName, ArgName, Ir.EvalAll, Ir.EvalEntries, Ir.MapOver, Ir.CallWith, Rust.EvalAll, Rust.EvalMembers, Rust.Collect, Rust.Run, Rust.EndLet, Rust.CallWith, GenAll, GenEntries, GenBody, Declarations;
    match e
    case Not(x) => ExprSame(x, own, f, parameters, env, store, log, rt);
    case IsNullish(x, _) => ExprSame(x, own, f, parameters, env, store, log, rt);
  }

  lemma {:induction false} AssignSame(e: Ir.E, own: set<nat>, f: Ir.Frame, parameters: nat, env: Rust.Env, store: Ir.Slots, log: Log, rt: Rust.Runtime)
    requires e.Assign? && GenExpr(e).Code? && ReturnsExpr(e) && Ready(env, store, own, f, parameters, rt)
    requires Ir.ScopedExpr(e, store.Keys, own, parameters, f.item.Some?)
    ensures SameOut(Ir.Eval(e, store, log, f), Rust.Eval(GenExpr(e).value, env, log, rt), env, store, f, parameters)
    decreases e, 2
  {
    hide Ready, Holds, Keeps, SameRuntime, Reports, SlotName, ArgName, Ir.EvalAll, Ir.EvalEntries, Ir.MapOver, Ir.CallWith, Rust.EvalAll, Rust.EvalMembers, Rust.Collect, Rust.Run, Rust.EndLet, Rust.CallWith, GenAll, GenEntries, GenBody, Declarations;
    match e case Assign(slot, x) =>
    ExprSame(x, own, f, parameters, env, store, log, rt);
    AssignStep(slot, Ir.Eval(x, store, log, f), Rust.Eval(GenExpr(x).value, env, log, rt), own, f, parameters, env, store, rt);
  }

  lemma AssignStep(slot: nat, io: Out<Value, Ir.Slots>, ro: Rust.Out<Value>, own: set<nat>, f: Ir.Frame, parameters: nat, env: Rust.Env, store: Ir.Slots, rt: Rust.Runtime)
    requires Ready(env, store, own, f, parameters, rt) && SameOut(io, ro, env, store, f, parameters) && slot in own
    ensures io.Val? ==>
      slot in io.state && Rust.Find(ro.env, SlotName(slot)).Some? &&
      SameOut(Val(io.value, io.state[slot := io.value], io.log), Rust.Gives(ro.value, Rust.Write(ro.env, SlotName(slot), ro.value), ro.log), env, store, f, parameters)
  {
    hide SlotName, ArgName, SameRuntime;
    if io.Val? {
      WriteHolds(ro.env, io.state, f, parameters, slot, io.value);
      KeepsTransitive(env, ro.env, Rust.Write(ro.env, SlotName(slot), ro.value));
    }
  }

  lemma {:induction false} FieldSame(e: Ir.E, own: set<nat>, f: Ir.Frame, parameters: nat, env: Rust.Env, store: Ir.Slots, log: Log, rt: Rust.Runtime)
    requires e.FieldOf? && GenExpr(e).Code? && ReturnsExpr(e) && Ready(env, store, own, f, parameters, rt)
    requires Ir.ScopedExpr(e, store.Keys, own, parameters, f.item.Some?)
    ensures SameOut(Ir.Eval(e, store, log, f), Rust.Eval(GenExpr(e).value, env, log, rt), env, store, f, parameters)
    decreases e, 2
  {
    hide Ready, Holds, Keeps, SameRuntime, SlotName, ArgName;
    match e case FieldOf(base, key) =>
    if base.Argument? || base.Slot? {
      NameSame(base, own, f, parameters, env, store, log, rt);
    } else {
      ExprSame(base, own, f, parameters, env, store, log, rt);
    }
  }

  lemma {:induction false} ChooseSame(e: Ir.E, own: set<nat>, f: Ir.Frame, parameters: nat, env: Rust.Env, store: Ir.Slots, log: Log, rt: Rust.Runtime)
    requires e.Choose? && GenExpr(e).Code? && ReturnsExpr(e) && Ready(env, store, own, f, parameters, rt)
    requires Ir.ScopedExpr(e, store.Keys, own, parameters, f.item.Some?)
    ensures SameOut(Ir.Eval(e, store, log, f), Rust.Eval(GenExpr(e).value, env, log, rt), env, store, f, parameters)
    decreases e, 2
  {
    hide Ready, Holds, Keeps, SameRuntime, Reports;
    match e case Choose(c, yes, no) =>
    ExprSame(c, own, f, parameters, env, store, log, rt);
    var io, ro := Ir.Eval(c, store, log, f), Rust.Eval(GenExpr(c).value, env, log, rt);
    NextReady(io, ro, env, store, own, f, parameters, rt);
    if io.Val? {
      var branch := if Truthy(io.value) then yes else no;
      ExprSame(branch, own, f, parameters, ro.env, io.state, io.log, rt);
      Then(Ir.Eval(branch, io.state, io.log, f), Rust.Eval(GenExpr(branch).value, ro.env, ro.log, rt), env, store, ro.env, io.state, f, parameters);
    }
  }

  /** The value of a block whose local is an introduced one. */
  lemma LetStep(x: string, v: Value, io: Out<Value, Ir.Slots>, ro: Rust.Out<Value>, env: Rust.Env, store: Ir.Slots, f: Ir.Frame, parameters: nat)
    requires Introduced(x) && SameOut(io, ro, [(x, v)] + env, store, f, parameters)
    ensures SameOut(io, Rust.EndLet(ro, |env|), env, store, f, parameters)
  {
    hide Holds, Keeps, Reports;
    if io.Val? { PopKeeps(x, v, env, ro.env, io.state, f, parameters); }
  }

  lemma PushReady(x: string, v: Value, env: Rust.Env, store: Ir.Slots, own: set<nat>, f: Ir.Frame, parameters: nat, rt: Rust.Runtime)
    requires Introduced(x) && Ready(env, store, own, f, parameters, rt)
    ensures Ready([(x, v)] + env, store, own, f, parameters, rt)
    ensures Rust.Find([(x, v)] + env, x) == Some(v)
  {
    hide Holds;
    PushHolds(x, v, env, store, f, parameters);
  }

  lemma {:induction false} LogicalSame(e: Ir.E, own: set<nat>, f: Ir.Frame, parameters: nat, env: Rust.Env, store: Ir.Slots, log: Log, rt: Rust.Runtime)
    requires (e.And? || e.Or?) && GenExpr(e).Code? && ReturnsExpr(e) && Ready(env, store, own, f, parameters, rt)
    requires Ir.ScopedExpr(e, store.Keys, own, parameters, f.item.Some?)
    ensures SameOut(Ir.Eval(e, store, log, f), Rust.Eval(GenExpr(e).value, env, log, rt), env, store, f, parameters)
    decreases e, 2
  {
    hide *;
    match e
    case And(left, right) => LogicalStep(left, right, true, e, own, f, parameters, env, store, log, rt);
    case Or(left, right) => LogicalStep(left, right, false, e, own, f, parameters, env, store, log, rt);
  }

  /** What is left to do after the first operand. */
  ghost function IrLogical(io: Out<Value, Ir.Slots>, right: Ir.E, and: bool, f: Ir.Frame): Out<Value, Ir.Slots> {
    if io.Val? && Truthy(io.value) == and then Ir.Eval(right, io.state, io.log, f) else io
  }

  ghost function RustLogical(ro: Rust.Out<Value>, r: Rust.Expr, and: bool, rt: Rust.Runtime): Rust.Out<Value> {
    if !ro.Gives? then ro
    else
      var env1 := [(LEFT, ro.value)] + ro.env;
      Rust.EndLet(if Truthy(ro.value) == and then Rust.Eval(r, env1, ro.log, rt) else Rust.Gives(ro.value, env1, ro.log), |ro.env|)
  }

  /** What the emitted short-circuit block computes. */
  lemma LogicalRuns(l: Rust.Expr, r: Rust.Expr, and: bool, env: Rust.Env, log: Log, rt: Rust.Runtime)
    ensures var left := Rust.Local(LEFT);
      Rust.Eval(Rust.Let(LEFT, l, if and then Rust.IfTruthy(left, r, left) else Rust.IfTruthy(left, left, r)), env, log, rt) ==
      RustLogical(Rust.Eval(l, env, log, rt), r, and, rt)
  {
    hide Rust.EndLet, Rust.CallWith, Rust.EvalAll, Rust.EvalMembers, Rust.Collect;
    var left := Rust.Local(LEFT);
    var code := if and then Rust.IfTruthy(left, r, left) else Rust.IfTruthy(left, left, r);
    match Rust.Eval(l, env, log, rt)
    case Gives(v, env1, log1) =>
      assert Rust.Find([(LEFT, v)] + env1, LEFT) == Some(v);
      assert Rust.Eval(left, [(LEFT, v)] + env1, log1, rt) == Rust.Gives(v, [(LEFT, v)] + env1, log1);
    case _ =>
  }

  lemma LogicalUnfolds(left: Ir.E, right: Ir.E, and: bool, e: Ir.E, f: Ir.Frame, env: Rust.Env, store: Ir.Slots, log: Log, rt: Rust.Runtime)
    requires e == (if and then Ir.And(left, right) else Ir.Or(left, right)) && GenExpr(e).Code?
    ensures GenExpr(left).Code? && GenExpr(right).Code?
    ensures Rust.Eval(GenExpr(e).value, env, log, rt) ==
      RustLogical(Rust.Eval(GenExpr(left).value, env, log, rt), GenExpr(right).value, and, rt)
    ensures Ir.Eval(e, store, log, f) == IrLogical(Ir.Eval(left, store, log, f), right, and, f)
  {
    hide *;
    LogicalCode(left, right, and, e);
    LogicalRuns(GenExpr(left).value, GenExpr(right).value, and, env, log, rt);
    LogicalEval(left, right, and, e, f, store, log);
  }

  lemma LogicalCode(left: Ir.E, right: Ir.E, and: bool, e: Ir.E)
    requires e == (if and then Ir.And(left, right) else Ir.Or(left, right)) && GenExpr(e).Code?
    ensures GenExpr(left).Code? && GenExpr(right).Code?
    ensures var l, r, bound := GenExpr(left).value, GenExpr(right).value, Rust.Local(LEFT);
      GenExpr(e).value == Rust.Let(LEFT, l, if and then Rust.IfTruthy(bound, r, bound) else Rust.IfTruthy(bound, bound, r))
  {
    hide GenAll, GenEntries, GenBody, Declarations, SlotName, ArgName;
  }

  lemma LogicalEval(left: Ir.E, right: Ir.E, and: bool, e: Ir.E, f: Ir.Frame, store: Ir.Slots, log: Log)
    requires e == (if and then Ir.And(left, right) else Ir.Or(left, right))
    ensures Ir.Eval(e, store, log, f) == IrLogical(Ir.Eval(left, store, log, f), right, and, f)
  {
    hide Ir.CallWith, Ir.EvalAll, Ir.EvalEntries, Ir.MapOver;
  }

  lemma LogicalParts(left: Ir.E, right: Ir.E, and: bool, e: Ir.E, slots: set<nat>, own: set<nat>, parameters: nat, item: bool)
    requires e == (if and then Ir.And(left, right) else Ir.Or(left, right)) && ReturnsExpr(e) && Ir.ScopedExpr(e, slots, own, parameters, item)
    ensures ReturnsExpr(left) && ReturnsExpr(right) && Introduced(LEFT)
    ensures Ir.ScopedExpr(left, slots, own, parameters, item) && Ir.ScopedExpr(right, slots, own, parameters, item)
  {}

  lemma {:induction false} LogicalStep(left: Ir.E, right: Ir.E, and: bool, e: Ir.E, own: set<nat>, f: Ir.Frame, parameters: nat, env: Rust.Env, store: Ir.Slots, log: Log, rt: Rust.Runtime)
    requires e == (if and then Ir.And(left, right) else Ir.Or(left, right)) && GenExpr(e).Code? && ReturnsExpr(e) && Ready(env, store, own, f, parameters, rt)
    requires Ir.ScopedExpr(e, store.Keys, own, parameters, f.item.Some?)
    ensures SameOut(Ir.Eval(e, store, log, f), Rust.Eval(GenExpr(e).value, env, log, rt), env, store, f, parameters)
    decreases e, 1
  {
    hide *;
    LogicalUnfolds(left, right, and, e, f, env, store, log, rt);
    LogicalParts(left, right, and, e, store.Keys, own, parameters, f.item.Some?);
    ExprSame(left, own, f, parameters, env, store, log, rt);
    var io, ro := Ir.Eval(left, store, log, f), Rust.Eval(GenExpr(left).value, env, log, rt);
    NextReady(io, ro, env, store, own, f, parameters, rt);
    OutParts(io, ro, env, store, f, parameters);
    if io.Val? {
      var env1 := [(LEFT, ro.value)] + ro.env;
      PushReady(LEFT, ro.value, ro.env, io.state, own, f, parameters, rt);
      if Truthy(io.value) == and {
        ExprSame(right, own, f, parameters, env1, io.state, io.log, rt);
        LetThen(ro.value, Ir.Eval(right, io.state, io.log, f), Rust.Eval(GenExpr(right).value, env1, ro.log, rt), io, ro, env, store, f, parameters);
      } else {
        Unchanged(io.value, own, f, parameters, env1, io.state, io.log, rt);
        LetThen(ro.value, Val(io.value, io.state, io.log), Rust.Gives(io.value, env1, io.log), io, ro, env, store, f, parameters);
      }
    }
    LogicalEnds(io, ro, right, GenExpr(right).value, and, f, rt);
    if io.Err? { ErrStays(io, ro, RustLogical(ro, GenExpr(right).value, and, rt), env, store, f, parameters); }
  }

  /** What fails in the first operand fails as a whole. */
  lemma ErrStays(io: Out<Value, Ir.Slots>, ro: Rust.Out<Value>, whole: Rust.Out<Value>, env: Rust.Env, store: Ir.Slots, f: Ir.Frame, parameters: nat)
    requires io.Err? && SameOut(io, ro, env, store, f, parameters) && (!ro.Gives? ==> whole == ro)
    ensures SameOut(io, whole, env, store, f, parameters)
  {
    hide Holds, Keeps, Reports;
  }

  lemma OutParts<A>(io: Out<A, Ir.Slots>, ro: Rust.Out<A>, env: Rust.Env, store: Ir.Slots, f: Ir.Frame, parameters: nat)
    requires SameOut(io, ro, env, store, f, parameters)
    ensures io.Val? ==> ro.Gives? && ro.value == io.value && ro.log == io.log && io.state.Keys == store.Keys
  {
    hide Holds, Keeps;
  }

  lemma LogicalEnds(io: Out<Value, Ir.Slots>, ro: Rust.Out<Value>, right: Ir.E, r: Rust.Expr, and: bool, f: Ir.Frame, rt: Rust.Runtime)
    ensures io.Val? && Truthy(io.value) == and ==> IrLogical(io, right, and, f) == Ir.Eval(right, io.state, io.log, f)
    ensures !(io.Val? && Truthy(io.value) == and) ==> IrLogical(io, right, and, f) == io
    ensures !ro.Gives? ==> RustLogical(ro, r, and, rt) == ro
    ensures ro.Gives? && Truthy(ro.value) == and ==>
      RustLogical(ro, r, and, rt) == Rust.EndLet(Rust.Eval(r, [(LEFT, ro.value)] + ro.env, ro.log, rt), |ro.env|)
    ensures ro.Gives? && Truthy(ro.value) != and ==>
      RustLogical(ro, r, and, rt) == Rust.EndLet(Rust.Gives(ro.value, [(LEFT, ro.value)] + ro.env, ro.log), |ro.env|)
  {
    hide Truthy, Rust.Eval, Rust.EndLet, Ir.Eval;
  }

  /** A block on an introduced `left`, after the value bound to it. */
  lemma LetThen(v: Value, iw: Out<Value, Ir.Slots>, rw: Rust.Out<Value>, io: Out<Value, Ir.Slots>, ro: Rust.Out<Value>, env: Rust.Env, store: Ir.Slots, f: Ir.Frame, parameters: nat)
    requires io.Val? && SameOut(io, ro, env, store, f, parameters)
    requires SameOut(iw, rw, [(LEFT, v)] + ro.env, io.state, f, parameters)
    ensures SameOut(iw, Rust.EndLet(rw, |ro.env|), env, store, f, parameters)
  {
    hide Holds, Keeps, Reports, Rust.EndLet;
    LetStep(LEFT, v, iw, rw, ro.env, io.state, f, parameters);
    Then(iw, Rust.EndLet(rw, |ro.env|), env, store, ro.env, io.state, f, parameters);
  }

  lemma {:induction false} GreaterSame(e: Ir.E, own: set<nat>, f: Ir.Frame, parameters: nat, env: Rust.Env, store: Ir.Slots, log: Log, rt: Rust.Runtime)
    requires e.Greater? && GenExpr(e).Code? && ReturnsExpr(e) && Ready(env, store, own, f, parameters, rt)
    requires Ir.ScopedExpr(e, store.Keys, own, parameters, f.item.Some?)
    ensures SameOut(Ir.Eval(e, store, log, f), Rust.Eval(GenExpr(e).value, env, log, rt), env, store, f, parameters)
    decreases e, 2
  {
    hide *;
    match e case Greater(left, right) =>
    GreaterUnfolds(left, right, f, env, store, log, rt);
    GreaterParts(left, right, store.Keys, own, parameters, f.item.Some?);
    var r := GenExpr(right).value;
    ExprSame(left, own, f, parameters, env, store, log, rt);
    var io, ro := Ir.Eval(left, store, log, f), Rust.Eval(GenExpr(left).value, env, log, rt);
    NextReady(io, ro, env, store, own, f, parameters, rt);
    OutParts(io, ro, env, store, f, parameters);
    GreaterEnds(io, ro, right, r, f, rt);
    if io.Val? {
      var env1 := [(LEFT, ro.value)] + ro.env;
      PushReady(LEFT, ro.value, ro.env, io.state, own, f, parameters, rt);
      ExprSame(right, own, f, parameters, env1, io.state, io.log, rt);
      var iw := Ir.Eval(right, io.state, io.log, f);
      CompareStep(io.value, iw, r, ro.env, io.state, f, parameters, ro.log, rt);
      LetThen(ro.value, Compared(io.value, iw), Rust.Eval(Inner(r), env1, ro.log, rt), io, ro, env, store, f, parameters);
    } else {
      ErrStays(io, ro, RustGreater(ro, r, rt), env, store, f, parameters);
    }
  }

  /** The second operand and the comparison. */
  function Inner(r: Rust.Expr): Rust.Expr {
    Rust.Let(RIGHT, r, Rust.GreaterThan(LEFT, RIGHT))
  }

  ghost function IrGreater(io: Out<Value, Ir.Slots>, right: Ir.E, f: Ir.Frame): Out<Value, Ir.Slots> {
    if io.Val? then Compared(io.value, Ir.Eval(right, io.state, io.log, f)) else io
  }

  ghost function RustGreater(ro: Rust.Out<Value>, r: Rust.Expr, rt: Rust.Runtime): Rust.Out<Value> {
    if ro.Gives? then Rust.EndLet(Rust.Eval(Inner(r), [(LEFT, ro.value)] + ro.env, ro.log, rt), |ro.env|) else ro
  }

  lemma GreaterUnfolds(left: Ir.E, right: Ir.E, f: Ir.Frame, env: Rust.Env, store: Ir.Slots, log: Log, rt: Rust.Runtime)
    requires GenExpr(Ir.Greater(left, right)).Code?
    ensures GenExpr(left).Code? && GenExpr(right).Code?
    ensures Rust.Eval(GenExpr(Ir.Greater(left, right)).value, env, log, rt) ==
      RustGreater(Rust.Eval(GenExpr(left).value, env, log, rt), GenExpr(right).value, rt)
    ensures Ir.Eval(Ir.Greater(left, right), store, log, f) == IrGreater(Ir.Eval(left, store, log, f), right, f)
  {
    hide *;
    GreaterCode(left, right);
    LetRuns(GenExpr(left).value, GenExpr(right).value, env, log, rt);
    GreaterEval(left, right, f, store, log);
  }

  lemma GreaterCode(left: Ir.E, right: Ir.E)
    requires GenExpr(Ir.Greater(left, right)).Code?
    ensures GenExpr(left).Code? && GenExpr(right).Code?
    ensures GenExpr(Ir.Greater(left, right)).value == Rust.Let(LEFT, GenExpr(left).value, Inner(GenExpr(right).value))
  {
    hide GenAll, GenEntries, GenBody, Declarations, SlotName, ArgName;
  }

  lemma LetRuns(l: Rust.Expr, r: Rust.Expr, env: Rust.Env, log: Log, rt: Rust.Runtime)
    ensures Rust.Eval(Rust.Let(LEFT, l, Inner(r)), env, log, rt) == RustGreater(Rust.Eval(l, env, log, rt), r, rt)
  {
    hide Rust.EndLet, Rust.CallWith, Rust.EvalAll, Rust.EvalMembers, Rust.Collect, Inner;
  }

  lemma GreaterEval(left: Ir.E, right: Ir.E, f: Ir.Frame, store: Ir.Slots, log: Log)
    ensures Ir.Eval(Ir.Greater(left, right), store, log, f) == IrGreater(Ir.Eval(left, store, log, f), right, f)
  {
    hide Ir.CallWith, Ir.EvalAll, Ir.EvalEntries, Ir.MapOver;
  }

  lemma GreaterParts(left: Ir.E, right: Ir.E, slots: set<nat>, own: set<nat>, parameters: nat, item: bool)
    requires ReturnsExpr(Ir.Greater(left, right)) && Ir.ScopedExpr(Ir.Greater(left, right), slots, own, parameters, item)
    ensures ReturnsExpr(left) && ReturnsExpr(right) && Introduced(LEFT)
    ensures Ir.ScopedExpr(left, slots, own, parameters, item) && Ir.ScopedExpr(right, slots, own, parameters, item)
  {}

  lemma GreaterEnds(io: Out<Value, Ir.Slots>, ro: Rust.Out<Value>, right: Ir.E, r: Rust.Expr, f: Ir.Frame, rt: Rust.Runtime)
    ensures IrGreater(io, right, f) == if io.Val? then Compared(io.value, Ir.Eval(right, io.state, io.log, f)) else io
    ensures RustGreater(ro, r, rt) ==
      if ro.Gives? then Rust.EndLet(Rust.Eval(Inner(r), [(LEFT, ro.value)] + ro.env, ro.log, rt), |ro.env|) else ro
  {
    hide Rust.Eval, Rust.EndLet, Ir.Eval, Compared, Inner;
  }

  ghost function Compared(v: Value, iw: Out<Value, Ir.Slots>): Out<Value, Ir.Slots> {
    match iw
    case Val(w, store, log) => if v.Number? && w.Number? then Val(Bool(NumGreater(v.n, w.n)), store, log) else Err(Unmodelled, log)
    case other => other
  }

  /** `left` still holds the first operand when the second has been computed. */
  lemma CompareStep(v: Value, iw: Out<Value, Ir.Slots>, r: Rust.Expr, env: Rust.Env, store: Ir.Slots, f: Ir.Frame, parameters: nat, log: Log, rt: Rust.Runtime)
    requires SameOut(iw, Rust.Eval(r, [(LEFT, v)] + env, log, rt), [(LEFT, v)] + env, store, f, parameters)
    ensures SameOut(Compared(v, iw), Rust.Eval(Inner(r), [(LEFT, v)] + env, log, rt), [(LEFT, v)] + env, store, f, parameters)
  {
    hide Holds;
    if iw.Val? {
      NamesApart(0);
      var env0 := [(LEFT, v)] + env;
      var rw := Rust.Eval(r, env0, log, rt);
      var env1 := rw.env;
      assert env1[0].0 == env0[0].0 && env1[0] == env0[0];
      var env2 := [(RIGHT, rw.value)] + env1;
      assert env2[1..] == env1;
      assert LEFT[0] == 'l' && RIGHT[0] == 'r';
      assert Rust.Find(env1, LEFT) == Some(v);
      assert Rust.Find(env2, LEFT) == Some(v) && Rust.Find(env2, RIGHT) == Some(rw.value);
      assert Rust.Leave(env2, |env1|) == env1;
    }
  }

  lemma CallStep(callee: Callee, io: Out<seq<Value>, Ir.Slots>, ro: Rust.Out<seq<Value>>, own: set<nat>, f: Ir.Frame, parameters: nat, env: Rust.Env, store: Ir.Slots, rt: Rust.Runtime)
    requires Ready(env, store, own, f, parameters, rt) && SameOut(io, ro, env, store, f, parameters)
    ensures SameOut(Ir.CallWith(callee, io, f.oracle), Rust.CallWith(callee, ro, rt), env, store, f, parameters)
  {
    hide Holds, Keeps, Reports;
    if io.Val? {
      var log1 := io.log + [Event(callee, io.value)];
      assert rt.call(log1, callee, io.value) == rt.call(log1, callee, io.value);
    }
  }

  lemma {:induction false} ListedSame(e: Ir.E, own: set<nat>, f: Ir.Frame, parameters: nat, env: Rust.Env, store: Ir.Slots, log: Log, rt: Rust.Runtime)
    requires e.Sequence? || e.ObjectOf? || e.Validate? || e.Apply?
    requires GenExpr(e).Code? && ReturnsExpr(e) && Ready(env, store, own, f, parameters, rt)
    requires Ir.ScopedExpr(e, store.Keys, own, parameters, f.item.Some?)
    ensures SameOut(Ir.Eval(e, store, log, f), Rust.Eval(GenExpr(e).value, env, log, rt), env, store, f, parameters)
    decreases e, 2
  {
    hide Ready, Holds, Keeps, SameRuntime, Reports, Ir.CallWith, Rust.CallWith, SameOut, Ir.MapOver, Rust.Run, Rust.Collect, Rust.EndLet, GenAll, GenEntries, GenBody, Declarations, Ir.EvalAll, Ir.EvalEntries, Rust.EvalAll, Rust.EvalMembers;
    match e
    case Sequence(es) =>
      AllSame(es, own, f, parameters, env, store, log, rt);
      LastStep(Ir.EvalAll(es, store, log, f), Rust.EvalAll(GenAll(es).value, env, log, rt), |es|, env, store, f, parameters);
    case ObjectOf(entries) =>
      EntriesSame(entries, own, f, parameters, env, store, log, rt);
      ObjectStep(Ir.EvalEntries(entries, store, log, f), Rust.EvalMembers(GenEntries(entries).value, env, log, rt), env, store, f, parameters);
    case Validate(name, es) =>
      AllSame(es, own, f, parameters, env, store, log, rt);
      CallStep(Validator(name), Ir.EvalAll(es, store, log, f), Rust.EvalAll(GenAll(es).value, env, log, rt), own, f, parameters, env, store, rt);
    case Apply(kind, es) =>
      AllSame(es, own, f, parameters, env, store, log, rt);
      CallStep(Transform(kind), Ir.EvalAll(es, store, log, f), Rust.EvalAll(GenAll(es).value, env, log, rt), own, f, parameters, env, store, rt);
  }

  lemma LastStep(io: Out<seq<Value>, Ir.Slots>, ro: Rust.Out<seq<Value>>, n: nat, env: Rust.Env, store: Ir.Slots, f: Ir.Frame, parameters: nat)
    requires SameOut(io, ro, env, store, f, parameters) && n > 0 && (io.Val? ==> |io.value| == n)
    ensures SameOut(match io case Val(vs, store1, log1) => Val(if |vs| == 0 then Undefined else vs[|vs| - 1], store1, log1) case Err(x, log1) => Err(x, log1),
                    match ro case Gives(vs, env1, log1) => Rust.Gives(if |vs| == 0 then Undefined else vs[|vs| - 1], env1, log1) case Fails(x, log1) => Rust.Fails(x, log1) case Stuck => Rust.Stuck,
                    env, store, f, parameters)
  {
    hide Holds, Keeps, Reports;
  }

  lemma ObjectStep(io: Out<seq<Field>, Ir.Slots>, ro: Rust.Out<seq<Field>>, env: Rust.Env, store: Ir.Slots, f: Ir.Frame, parameters: nat)
    requires SameOut(io, ro, env, store, f, parameters)
    ensures SameOut(match io case Val(vs, store1, log1) => Val(Object(vs), store1, log1) case Err(x, log1) => Err(x, log1),
                    match ro case Gives(vs, env1, log1) => Rust.Gives(Object(vs), env1, log1) case Fails(x, log1) => Rust.Fails(x, log1) case Stuck => Rust.Stuck,
                    env, store, f, parameters)
  {
    hide Holds, Keeps, Reports;
  }

  lemma {:induction false} AllSame(es: seq<Ir.E>, own: set<nat>, f: Ir.Frame, parameters: nat, env: Rust.Env, store: Ir.Slots, log: Log, rt: Rust.Runtime)
    requires GenAll(es).Code? && ReturnsAll(es) && Ready(env, store, own, f, parameters, rt)
    requires Ir.ScopedAll(es, store.Keys, own, parameters, f.item.Some?)
    ensures SameOut(Ir.EvalAll(es, store, log, f), Rust.EvalAll(GenAll(es).value, env, log, rt), env, store, f, parameters)
    ensures |GenAll(es).value| == |es|
    decreases es, 0
  {
    hide Ready, Holds, Keeps, SameRuntime, Reports, GenExpr, Ir.Eval, Rust.Eval;
    if es == [] {
      Unchanged<seq<Value>>([], own, f, parameters, env, store, log, rt);
    } else {
      var code := GenAll(es).value;
      ExprSame(es[0], own, f, parameters, env, store, log, rt);
      var io, ro := Ir.Eval(es[0], store, log, f), Rust.Eval(GenExpr(es[0]).value, env, log, rt);
      NextReady(io, ro, env, store, own, f, parameters, rt);
      assert code[0] == GenExpr(es[0]).value && code[1..] == GenAll(es[1..]).value;
      AllLength(es[1..]);
      if io.Val? {
        AllSame(es[1..], own, f, parameters, ro.env, io.state, io.log, rt);
        Then(Ir.EvalAll(es[1..], io.state, io.log, f), Rust.EvalAll(code[1..], ro.env, ro.log, rt), env, store, ro.env, io.state, f, parameters);
      }
    }
  }

  lemma {:induction false} AllLength(es: seq<Ir.E>)
    requires GenAll(es).Code?
    ensures |GenAll(es).value| == |es|
    decreases es
  {
    hide GenExpr;
    if es != [] { AllLength(es[1..]); }
  }

  lemma {:induction false} EntriesSame(entries: seq<Ir.Entry>, own: set<nat>, f: Ir.Frame, parameters: nat, env: Rust.Env, store: Ir.Slots, log: Log, rt: Rust.Runtime)
    requires GenEntries(entries).Code? && ReturnsEntries(entries) && Ready(env, store, own, f, parameters, rt)
    requires Ir.ScopedEntries(entries, store.Keys, own, parameters, f.item.Some?)
    ensures SameOut(Ir.EvalEntries(entries, store, log, f), Rust.EvalMembers(GenEntries(entries).value, env, log, rt), env, store, f, parameters)
    decreases entries, 0
  {
    hide Ready, Holds, Keeps, SameRuntime, Reports, GenExpr, Ir.Eval, Rust.Eval;
    if entries == [] {
      Unchanged<seq<Field>>([], own, f, parameters, env, store, log, rt);
    } else {
      var code := GenEntries(entries).value;
      EntrySame(entries[0], own, f, parameters, env, store, log, rt);
      var io, ro := Ir.EvalEntry(entries[0], store, log, f), Rust.EvalMember(code[0], env, log, rt);
      assert code[0] == GenEntry(entries[0]).value && code[1..] == GenEntries(entries[1..]).value;
      NextReady(io, ro, env, store, own, f, parameters, rt);
      if io.Val? {
        EntriesSame(entries[1..], own, f, parameters, ro.env, io.state, io.log, rt);
        Then(Ir.EvalEntries(entries[1..], io.state, io.log, f), Rust.EvalMembers(code[1..], ro.env, ro.log, rt), env, store, ro.env, io.state, f, parameters);
      }
    }
  }

  lemma {:induction false} EntrySame(entry: Ir.Entry, own: set<nat>, f: Ir.Frame, parameters: nat, env: Rust.Env, store: Ir.Slots, log: Log, rt: Rust.Runtime)
    requires GenEntry(entry).Code? && ReturnsEntry(entry) && Ready(env, store, own, f, parameters, rt)
    requires Ir.ScopedEntry(entry, store.Keys, own, parameters, f.item.Some?)
    ensures GenEntry(entry).value.key == entry.key
    ensures SameOut(Ir.EvalEntry(entry, store, log, f), Rust.EvalMember(GenEntry(entry).value, env, log, rt), env, store, f, parameters)
    decreases entry, 4
  {
    hide Ready, Holds, Keeps, SameRuntime, Reports, GenExpr, Ir.Eval, Rust.Eval, SameOut;
    ExprSame(entry.value, own, f, parameters, env, store, log, rt);
  }

  // ---------------------------------------------------------------- callbacks

  /** The locals a closure declares, innermost first. */
  function Pushed(slots: set<nat>): Rust.Env
    decreases slots
  {
    if slots == {} then [] else Pushed(slots - {Least(slots)}) + [(SlotName(Least(slots)), Undefined)]
  }

  lemma {:induction false} DeclarationsRun(slots: set<nat>, code: seq<Rust.Stmt>, env: Rust.Env, log: Log, rt: Rust.Runtime)
    ensures Rust.Run(Declarations(slots) + code, env, log, rt) == Rust.Run(code, Pushed(slots) + env, log, rt)
    decreases slots
  {
    if slots == {} {
      assert Declarations(slots) + code == code && Pushed(slots) + env == env;
    } else {
      var least := Least(slots);
      var rest := Declarations(slots - {least}) + code;
      var first := Rust.LetUndefined(SlotName(least));
      assert Declarations(slots) + code == [first] + rest;
      assert ([first] + rest)[1..] == rest;
      var env1 := [(SlotName(least), Undefined)] + env;
      DeclarationsRun(slots - {least}, code, env1, log, rt);
      assert Pushed(slots - {least}) + env1 == Pushed(slots) + env;
    }
  }

  ghost predicate OwnName(slots: set<nat>, x: string) {
    exists i :: i in slots && x == SlotName(i)
  }

  /** Names of other slots and all other names are not among them. */
  lemma OwnNamesApart(slots: set<nat>, x: string)
    requires OwnName(slots, x)
    ensures IsSlotName(x) && forall i | i !in slots :: x != SlotName(i)
  {
    var k :| k in slots && x == SlotName(k);
    NamesApart(k);
    forall i | i !in slots ensures x != SlotName(i) { if x == SlotName(i) { SlotNamesDiffer(k, i); } }
  }

  lemma {:induction false} PushedNames(slots: set<nat>)
    ensures forall j | 0 <= j < |Pushed(slots)| :: OwnName(slots, Pushed(slots)[j].0)
    decreases slots
  {
    if slots != {} {
      var least := Least(slots);
      var rest := slots - {least};
      PushedNames(rest);
      forall j | 0 <= j < |Pushed(slots)| ensures OwnName(slots, Pushed(slots)[j].0) {
        if j < |Pushed(rest)| {
          assert OwnName(rest, Pushed(rest)[j].0);
          var i :| i in rest && Pushed(rest)[j].0 == SlotName(i);
          assert i in slots;
        } else {
          assert Pushed(slots)[j].0 == SlotName(least);
        }
      }
    }
  }

  lemma {:induction false} PushedUnset(slots: set<nat>, env: Rust.Env)
    ensures forall i | i in slots :: Rust.Find(Pushed(slots) + env, SlotName(i)) == Some(Undefined)
    decreases slots
  {
    if slots != {} {
      var least := Least(slots);
      var rest := slots - {least};
      var env1 := [(SlotName(least), Undefined)] + env;
      PushedUnset(rest, env1);
      PushedNames(rest);
      assert Pushed(slots) + env == Pushed(rest) + env1;
      forall j | 0 <= j < |Pushed(rest)| ensures Pushed(rest)[j].0 != SlotName(least) { OwnNamesApart(rest, Pushed(rest)[j].0); }
      FindBelow(Pushed(rest), env1, SlotName(least));
    }
  }

  /** A name that is not one of the pushed slots is found underneath them. */
  lemma BelowPushed(slots: set<nat>, base: Rust.Env, y: string)
    requires !OwnName(slots, y)
    ensures Rust.Find(Pushed(slots) + base, y) == Rust.Find(base, y)
  {
    PushedNames(slots);
    FindBelow(Pushed(slots), base, y);
  }

  /** Entering a closure: its slots are unset, what it captures is in sight. */
  lemma EnterHolds(slots: set<nat>, x: Value, sofar: seq<Value>, rest: Rust.Env, store: Ir.Slots, f: Ir.Frame, parameters: nat)
    requires Holds(rest, store, f, parameters) && slots !! store.Keys
    ensures Holds(Pushed(slots) + ([(ITEM, x)] + ([(MAPPED, Array(sofar))] + rest)), Ir.Declare(store, slots), f.(item := Some(x)), parameters)
  {
    hide SlotName, ArgName, Pushed, OwnName;
    var base := [(ITEM, x)] + ([(MAPPED, Array(sofar))] + rest);
    var env := Pushed(slots) + base;
    PushedUnset(slots, base);
    NamesApart(0);
    forall y | y != ITEM && y != MAPPED ensures Rust.Find(base, y) == Rust.Find(rest, y) {
      assert base[1..] == [(MAPPED, Array(sofar))] + rest && base[1..][1..] == rest;
    }
    forall i | i in store ensures Rust.Find(env, SlotName(i)) == Some(store[i]) {
      if OwnName(slots, SlotName(i)) { OwnNamesApart(slots, SlotName(i)); }
      BelowPushed(slots, base, SlotName(i));
      NamesApart(i);
    }
    forall y | !IsSlotName(y) ensures Rust.Find(env, y) == Rust.Find(base, y) {
      if OwnName(slots, y) { OwnNamesApart(slots, y); }
      BelowPushed(slots, base, y);
    }
    forall i: nat | i < parameters ensures Rust.Find(env, ArgName(i)) == Some(ArgAt(f.args, i)) { NamesApart(i); }
    assert Rust.Find(base, ITEM) == Some(x);
  }

  /** Leaving a closure: its locals are gone, writes to captured slots stay. */
  lemma LeaveHolds(slots: set<nat>, x: Value, sofar: seq<Value>, rest: Rust.Env, store: Ir.Slots, env1: Rust.Env, store1: Ir.Slots, f: Ir.Frame, parameters: nat)
    requires Holds(rest, store, f, parameters) && slots !! store.Keys
    requires Keeps(Pushed(slots) + ([(ITEM, x)] + ([(MAPPED, Array(sofar))] + rest)), env1)
    requires Holds(env1, store1, f.(item := Some(x)), parameters) && store1.Keys == store.Keys + slots
    ensures var env2 := Rust.Leave(env1, |rest| + 1);
      |env2| == |rest| + 1 && env2[0] == (MAPPED, Array(sofar)) &&
      Keeps(rest, env2[1..]) && Holds(env2[1..], Ir.Leave(store1, slots), f, parameters)
  {
    hide SlotName, ArgName, Pushed, Holds;
    var base := [(ITEM, x)] + ([(MAPPED, Array(sofar))] + rest);
    var env := Pushed(slots) + base;
    var k := |Pushed(slots)|;
    NamesApart(0);
    var env2 := Rust.Leave(env1, |rest| + 1);
    var rest2 := env2[1..];
    assert env2 == env1[k + 1..];
    assert env[k + 1] == (MAPPED, Array(sofar));
    forall j | 0 <= j < |rest| ensures rest2[j].0 == rest[j].0 && (!IsSlotName(rest[j].0) ==> rest2[j] == rest[j]) {
      assert env[k + 2 + j] == rest[j] && env1[k + 2 + j] == rest2[j];
    }
    assert Keeps(rest, rest2);
    LeaveNames(slots, x, sofar, rest, env1);
    LeaveFinds(slots, env1[..k + 2], rest, rest2, store, env1, store1, x, f, parameters);
  }

  /** No local of the closure is called like a slot outside it. */
  lemma LeaveNames(slots: set<nat>, x: Value, sofar: seq<Value>, rest: Rust.Env, env1: Rust.Env)
    requires Keeps(Pushed(slots) + ([(ITEM, x)] + ([(MAPPED, Array(sofar))] + rest)), env1)
    ensures forall i, j | i !in slots && 0 <= j < |Pushed(slots)| + 2 :: env1[j].0 != SlotName(i)
  {
    var base := [(ITEM, x)] + ([(MAPPED, Array(sofar))] + rest);
    var env := Pushed(slots) + base;
    var k := |Pushed(slots)|;
    PushedNames(slots);
    forall i, j | i !in slots && 0 <= j < k + 2 ensures env1[j].0 != SlotName(i) {
      NamesApart(i);
      assert env1[j].0 == env[j].0;
      if j < k {
        OwnNamesApart(slots, Pushed(slots)[j].0);
      } else if j == k {
        assert env[j].0 == ITEM;
      } else {
        assert env[j].0 == MAPPED;
      }
    }
  }

  lemma LeaveFinds(slots: set<nat>, prefix: Rust.Env, rest: Rust.Env, rest2: Rust.Env, store: Ir.Slots, env1: Rust.Env, store1: Ir.Slots, x: Value, f: Ir.Frame, parameters: nat)
    requires env1 == prefix + rest2 && Keeps(rest, rest2) && Holds(rest, store, f, parameters) && slots !! store.Keys
    requires Holds(env1, store1, f.(item := Some(x)), parameters) && store1.Keys == store.Keys + slots
    requires forall i, j | i !in slots && 0 <= j < |prefix| :: prefix[j].0 != SlotName(i)
    ensures Holds(rest2, Ir.Leave(store1, slots), f, parameters)
  {
    hide SlotName, ArgName;
    forall i | i in Ir.Leave(store1, slots) ensures Rust.Find(rest2, SlotName(i)) == Some(Ir.Leave(store1, slots)[i]) {
      FindBelow(prefix, rest2, SlotName(i));
    }
    forall i: nat | i < parameters ensures Rust.Find(rest2, ArgName(i)) == Some(ArgAt(f.args, i)) {
      NamesApart(i);
      FindKept(rest, rest2, ArgName(i));
    }
    NamesApart(0);
    FindKept(rest, rest2, ITEM);
  }

  /** Corresponding outcomes of a callback over elements, the results being pushed onto `mapped`. */
  ghost predicate SameItems(io: Out<seq<Value>, Ir.Slots>, ro: Rust.Out<()>, sofar: seq<Value>, rest: Rust.Env, store: Ir.Slots, f: Ir.Frame, parameters: nat) {
    match io
    case Val(vs, store1, log1) =>
      ro.Gives? && ro.log == log1 && |ro.env| == |rest| + 1 && ro.env[0] == (MAPPED, Array(sofar + vs)) &&
      Holds(ro.env[1..], store1, f, parameters) && Keeps(rest, ro.env[1..]) && store1.Keys == store.Keys
    case Err(x, log1) => x == Unmodelled || (ro.Fails? && ro.log == log1 && Reports(x, ro.fault))
  }

  lemma {:induction false} CollectSame(body: seq<Ir.S>, items: seq<Value>, sofar: seq<Value>, rest: Rust.Env, own: set<nat>, f: Ir.Frame, parameters: nat, store: Ir.Slots, log: Log, rt: Rust.Runtime)
    requires GenBody(body).Code? && ReturnsBody(body) && Diverges(body) && Ready(rest, store, own, f, parameters, rt)
    requires Ir.OwnedSlots(body) !! store.Keys
    requires Ir.ScopedBody(body, store.Keys + Ir.OwnedSlots(body), Ir.OwnedSlots(body), parameters, true)
    ensures SameItems(Ir.MapItems(body, items, store, log, f),
      Rust.Collect(ITEM, MAPPED, Declarations(Ir.OwnedSlots(body)) + GenBody(body).value, items, [(MAPPED, Array(sofar))] + rest, log, rt),
      sofar, rest, store, f, parameters)
    decreases body, 1, |items|
  {
    hide Ready, Holds, Keeps, SameRuntime, Reports, Pushed, Declarations, Ir.Declare, Ir.Leave, Rust.Leave, Rust.Find, Rust.Write, Ir.OwnedSlots, GenBody, Ir.ScopedBody;
    var top := (MAPPED, Array(sofar));
    var env := [top] + rest;
    if items == [] {
      assert env[1..] == rest && sofar + [] == sofar;
      ItemsEnd(rest, store, own, f, parameters, rt);
    } else {
      var slots := Ir.OwnedSlots(body);
      var code := GenBody(body).value;
      var f1 := f.(item := Some(items[0]));
      var base := [(ITEM, items[0])] + env;
      EnterReady(slots, items[0], sofar, rest, own, store, f, parameters, rt);
      DeclarationsRun(slots, code, base, log, rt);
      BodySame(body, slots, f1, parameters, Pushed(slots) + base, Ir.Declare(store, slots), log, rt);
      DivergesReturns(body, Ir.Declare(store, slots), log, f1);
      var io, rf := Ir.Run(body, Ir.Declare(store, slots), log, f1), Rust.Run(code, Pushed(slots) + base, log, rt);
      if io.Returned? {
        LeaveReady(slots, items[0], sofar, rest, own, store, rf.env, io.state, f, parameters, rt);
        var env2 := Rust.Leave(rf.env, |env|);
        var v := io.value;
        FindTop(env2, MAPPED, Array(sofar), Array(sofar + [v]));
        assert Rust.Write(env2, MAPPED, Array(sofar + [v])) == [(MAPPED, Array(sofar + [v]))] + env2[1..];
        CollectSame(body, items[1..], sofar + [v], env2[1..], own, f, parameters, Ir.Leave(io.state, slots), io.log, rt);
        var im := Ir.MapItems(body, items[1..], Ir.Leave(io.state, slots), io.log, f);
        if im.Val? {
          assert (sofar + [v]) + im.value == sofar + ([v] + im.value);
          KeepsTransitiveHidden(rest, env2[1..], Rust.Collect(ITEM, MAPPED, Declarations(slots) + code, items[1..], [(MAPPED, Array(sofar + [v]))] + env2[1..], io.log, rt).env[1..]);
        }
      }
    }
  }

  lemma KeepsTransitiveHidden(a: Rust.Env, b: Rust.Env, c: Rust.Env)
    requires Keeps(a, b) && Keeps(b, c)
    ensures Keeps(a, c)
  {
    KeepsTransitive(a, b, c);
  }

  lemma ItemsEnd(rest: Rust.Env, store: Ir.Slots, own: set<nat>, f: Ir.Frame, parameters: nat, rt: Rust.Runtime)
    requires Ready(rest, store, own, f, parameters, rt)
    ensures Holds(rest, store, f, parameters) && Keeps(rest, rest)
  {}

  lemma FindTop(env: Rust.Env, x: string, v: Value, w: Value)
    requires env != [] && env[0] == (x, v)
    ensures Rust.Find(env, x) == Some(v) && Rust.Write(env, x, w) == [(x, w)] + env[1..]
  {}

  lemma EnterReady(slots: set<nat>, x: Value, sofar: seq<Value>, rest: Rust.Env, own: set<nat>, store: Ir.Slots, f: Ir.Frame, parameters: nat, rt: Rust.Runtime)
    requires Ready(rest, store, own, f, parameters, rt) && slots !! store.Keys
    ensures Ready(Pushed(slots) + ([(ITEM, x)] + ([(MAPPED, Array(sofar))] + rest)), Ir.Declare(store, slots), slots, f.(item := Some(x)), parameters, rt)
    ensures Ir.Declare(store, slots).Keys == store.Keys + slots
  {
    EnterHolds(slots, x, sofar, rest, store, f, parameters);
    hide Holds, Pushed;
  }

  lemma LeaveReady(slots: set<nat>, x: Value, sofar: seq<Value>, rest: Rust.Env, own: set<nat>, store: Ir.Slots, env1: Rust.Env, store1: Ir.Slots, f: Ir.Frame, parameters: nat, rt: Rust.Runtime)
    requires Ready(rest, store, own, f, parameters, rt) && slots !! store.Keys
    requires Keeps(Pushed(slots) + ([(ITEM, x)] + ([(MAPPED, Array(sofar))] + rest)), env1)
    requires Holds(env1, store1, f.(item := Some(x)), parameters) && store1.Keys == Ir.Declare(store, slots).Keys
    ensures var env2 := Rust.Leave(env1, |rest| + 1);
      |env2| == |rest| + 1 && env2[0] == (MAPPED, Array(sofar)) && Keeps(rest, env2[1..]) &&
      Ready(env2[1..], Ir.Leave(store1, slots), own, f, parameters, rt) && Ir.Leave(store1, slots).Keys == store.Keys
  {
    assert Ir.Declare(store, slots).Keys == store.Keys + slots;
    LeaveHolds(slots, x, sofar, rest, store, env1, store1, f, parameters);
    hide Holds, Keeps, Pushed, Rust.Leave;
    assert Ir.Leave(store1, slots).Keys == store.Keys;
  }

  lemma {:induction false} MapSame(e: Ir.E, own: set<nat>, f: Ir.Frame, parameters: nat, env: Rust.Env, store: Ir.Slots, log: Log, rt: Rust.Runtime)
    requires e.Map? && GenExpr(e).Code? && ReturnsExpr(e) && Ready(env, store, own, f, parameters, rt)
    requires Ir.ScopedExpr(e, store.Keys, own, parameters, f.item.Some?)
    ensures SameOut(Ir.Eval(e, store, log, f), Rust.Eval(GenExpr(e).value, env, log, rt), env, store, f, parameters)
    decreases e, 2
  {
    match e case Map(input, body) =>
    var slots := Ir.OwnedSlots(body);
    assert GenExpr(input).Code? && GenBody(body).Code?;
    var closure := Declarations(slots) + GenBody(body).value;
    var io, ro := Ir.Eval(input, store, log, f), Rust.Eval(GenExpr(input).value, env, log, rt);
    var inner := Rust.Let(MAPPED, Rust.ListNew, Rust.CollectTry(ITEM, INPUT, MAPPED, closure));
    assert GenExpr(e).value == Rust.Let(INPUT, GenExpr(input).value, inner);
    assert Rust.Eval(GenExpr(e).value, env, log, rt) ==
      match ro case Gives(v, env1, log1) => Rust.EndLet(Rust.Eval(inner, [(INPUT, v)] + env1, log1, rt), |env1|) case other => other;
    assert Ir.Eval(e, store, log, f) == Ir.MapOver(io, body, f);
    assert Introduced(INPUT) && Introduced(MAPPED);
    hide Ready, Holds, Keeps, SameRuntime, Reports, Introduced, Rust.Find, Rust.Eval, Rust.EndLet, Ir.Eval, GenExpr, GenBody, Ir.ScopedBody, Ir.OwnedSlots, Declarations, Ir.MapItems;
    ExprSame(input, own, f, parameters, env, store, log, rt);
    NextReady(io, ro, env, store, own, f, parameters, rt);
    if io.Val? {
      var rest := [(INPUT, ro.value)] + ro.env;
      PushReady(INPUT, ro.value, ro.env, io.state, own, f, parameters, rt);
      InnerRuns(closure, ro.value, ro.env, io.log, rt);
      if io.value.Array? {
        CollectSame(body, io.value.items, [], rest, own, f, parameters, io.state, io.log, rt);
        CollectedStep(body, io.value.items, rest, own, f, parameters, io.state, io.log, rt);
      }
      var im := if io.value.Array? then Collected(Ir.MapItems(body, io.value.items, io.state, io.log, f)) else Err(TypeError, io.log);
      var rm := Rust.Eval(inner, rest, io.log, rt);
      assert SameOut(im, rm, rest, io.state, f, parameters) by { ArrayErrorReports(); }
      LetStep(INPUT, ro.value, im, rm, ro.env, io.state, f, parameters);
      Then(im, Rust.EndLet(rm, |ro.env|), env, store, ro.env, io.state, f, parameters);
    }
  }

  lemma ArrayErrorReports()
    ensures Reports(TypeError, Rust.ARRAY_ERROR)
  {}

  ghost function Collected(io: Out<seq<Value>, Ir.Slots>): Out<Value, Ir.Slots> {
    match io case Val(vs, store, log) => Val(Array(vs), store, log) case Err(x, log) => Err(x, log)
  }

  ghost function TakeMapped(ro: Rust.Out<()>, depth: nat): Rust.Out<Value> {
    match ro
    case Gives(_, env, log) => (match Rust.Find(env, MAPPED) case Some(v) => Rust.Gives(v, Rust.Leave(env, depth), log) case None => Rust.Stuck)
    case Fails(x, log) => Rust.Fails(x, log)
    case Stuck => Rust.Stuck
  }

  /** What the emitted loop computes from the bound input. */
  lemma InnerRuns(closure: seq<Rust.Stmt>, v: Value, env: Rust.Env, log: Log, rt: Rust.Runtime)
    ensures var inner := Rust.Let(MAPPED, Rust.ListNew, Rust.CollectTry(ITEM, INPUT, MAPPED, closure));
      var rest := [(INPUT, v)] + env;
      Rust.Eval(inner, rest, log, rt) ==
      if v.Array? then TakeMapped(Rust.Collect(ITEM, MAPPED, closure, v.items, [(MAPPED, Array([]))] + rest, log, rt), |rest|)
      else Rust.Fails(Rust.ARRAY_ERROR, log)
  {
    hide Rust.Collect, Rust.Leave, Rust.CallWith, Rust.EvalAll, Rust.EvalMembers;
    var rest := [(INPUT, v)] + env;
    var env2 := [(MAPPED, Array([]))] + rest;
    assert env2[1..] == rest && rest[1..] == env;
    assert MAPPED[0] == 'm' && INPUT[0] == 'i';
    assert Rust.Find(rest, INPUT) == Some(v);
    assert Rust.Find(env2, INPUT) == Some(v) && Rust.Find(env2, MAPPED) == Some(Array([]));
    var loop := Rust.CollectTry(ITEM, INPUT, MAPPED, closure);
    assert Rust.Eval(Rust.ListNew, rest, log, rt) == Rust.Gives(Array([]), rest, log);
    assert Rust.Eval(Rust.Let(MAPPED, Rust.ListNew, loop), rest, log, rt) == Rust.EndLet(Rust.Eval(loop, env2, log, rt), |rest|);
  }

  lemma CollectedStep(body: seq<Ir.S>, items: seq<Value>, rest: Rust.Env, own: set<nat>, f: Ir.Frame, parameters: nat, store: Ir.Slots, log: Log, rt: Rust.Runtime)
    requires GenBody(body).Code?
    requires SameItems(Ir.MapItems(body, items, store, log, f),
      Rust.Collect(ITEM, MAPPED, Declarations(Ir.OwnedSlots(body)) + GenBody(body).value, items, [(MAPPED, Array([]))] + rest, log, rt),
      [], rest, store, f, parameters)
    ensures SameOut(Collected(Ir.MapItems(body, items, store, log, f)),
      TakeMapped(Rust.Collect(ITEM, MAPPED, Declarations(Ir.OwnedSlots(body)) + GenBody(body).value, items, [(MAPPED, Array([]))] + rest, log, rt), |rest|),
      rest, store, f, parameters)
  {
    hide Holds, Keeps, Reports, Rust.Collect, Ir.MapItems, GenBody, Declarations;
    var io := Ir.MapItems(body, items, store, log, f);
    if io.Val? { assert [] + io.value == io.value; }
  }

  // ---------------------------------------------------------------- statements

  ghost predicate FlowSame(io: Flow<Ir.Slots>, rf: Rust.Flow, env: Rust.Env, store: Ir.Slots, f: Ir.Frame, parameters: nat) {
    match io
    case Next(store1, log1) =>
      rf.Runs? && rf.log == log1 && Holds(rf.env, store1, f, parameters) && Keeps(env, rf.env) && store1.Keys == store.Keys
    case Returned(v, store1, log1) =>
      rf.Yields? && rf.value == v && rf.log == log1 && Holds(rf.env, store1, f, parameters) && Keeps(env, rf.env) && store1.Keys == store.Keys
    case Raised(x, log1) => x == Unmodelled || (rf.Bails? && rf.log == log1 && Reports(x, rf.fault))
  }

  /** A body that diverges never runs off its end. */
  lemma {:induction false} DivergesReturns(body: seq<Ir.S>, store: Ir.Slots, log: Log, f: Ir.Frame)
    requires Diverges(body)
    ensures !Ir.Run(body, store, log, f).Next?
    decreases body, 0
  {
    hide Ir.Eval;
    if StmtDiverges(body[0]) {
      StmtDivergesReturns(body[0], store, log, f);
    } else {
      var first := Ir.RunStmt(body[0], store, log, f);
      if first.Next? { DivergesReturns(body[1..], first.state, first.log, f); }
    }
  }

  lemma {:induction false} StmtDivergesReturns(s: Ir.S, store: Ir.Slots, log: Log, f: Ir.Frame)
    requires StmtDiverges(s)
    ensures !Ir.RunStmt(s, store, log, f).Next?
    decreases s, 4
  {
    hide Ir.Eval;
    match s
    case If(c, yes, no) =>
      var io := Ir.Eval(c, store, log, f);
      if io.Val? {
        if Truthy(io.value) { DivergesReturns(yes, io.state, io.log, f); } else { DivergesReturns(no, io.state, io.log, f); }
      }
    case _ =>
  }

  lemma {:induction false} BodySame(body: seq<Ir.S>, own: set<nat>, f: Ir.Frame, parameters: nat, env: Rust.Env, store: Ir.Slots, log: Log, rt: Rust.Runtime)
    requires GenBody(body).Code? && ReturnsBody(body) && Ready(env, store, own, f, parameters, rt)
    requires Ir.ScopedBody(body, store.Keys, own, parameters, f.item.Some?)
    ensures FlowSame(Ir.Run(body, store, log, f), Rust.Run(GenBody(body).value, env, log, rt), env, store, f, parameters)
    decreases body, 0
  {
    hide Ready, Holds, Keeps, SameRuntime, Reports, GenStmt, Ir.RunStmt, Rust.RunStmt, Ir.ScopedStmt, ReturnsStmt;
    if body == [] {
      ItemsEnd(env, store, own, f, parameters, rt);
    } else {
      var code := GenBody(body).value;
      assert code[0] == GenStmt(body[0]).value && code[1..] == GenBody(body[1..]).value;
      StmtSame(body[0], own, f, parameters, env, store, log, rt);
      var io, rf := Ir.RunStmt(body[0], store, log, f), Rust.RunStmt(code[0], env, log, rt);
      if io.Next? {
        FlowReady(io, rf, env, store, own, f, parameters, rt);
        BodySame(body[1..], own, f, parameters, rf.env, io.state, io.log, rt);
        FlowThen(Ir.Run(body[1..], io.state, io.log, f), Rust.Run(code[1..], rf.env, rf.log, rt), env, store, rf.env, io.state, f, parameters);
      }
    }
  }

  lemma FlowReady(io: Flow<Ir.Slots>, rf: Rust.Flow, env: Rust.Env, store: Ir.Slots, own: set<nat>, f: Ir.Frame, parameters: nat, rt: Rust.Runtime)
    requires Ready(env, store, own, f, parameters, rt) && FlowSame(io, rf, env, store, f, parameters) && io.Next?
    ensures Ready(rf.env, io.state, own, f, parameters, rt)
  {}

  lemma FlowThen(io: Flow<Ir.Slots>, rf: Rust.Flow, env: Rust.Env, store: Ir.Slots, env1: Rust.Env, store1: Ir.Slots, f: Ir.Frame, parameters: nat)
    requires Keeps(env, env1) && store1.Keys == store.Keys && FlowSame(io, rf, env1, store1, f, parameters)
    ensures FlowSame(io, rf, env, store, f, parameters)
  {
    hide Holds, Reports, Keeps;
    if !io.Raised? { KeepsTransitive(env, env1, rf.env); }
  }

  lemma {:induction false} StmtSame(s: Ir.S, own: set<nat>, f: Ir.Frame, parameters: nat, env: Rust.Env, store: Ir.Slots, log: Log, rt: Rust.Runtime)
    requires GenStmt(s).Code? && ReturnsStmt(s) && Ready(env, store, own, f, parameters, rt)
    requires Ir.ScopedStmt(s, store.Keys, own, parameters, f.item.Some?)
    ensures FlowSame(Ir.RunStmt(s, store, log, f), Rust.RunStmt(GenStmt(s).value, env, log, rt), env, store, f, parameters)
    decreases s, 4
  {
    hide Ready, Holds, Keeps, SameRuntime, Reports, GenExpr, Ir.Eval, Rust.Eval, Rust.Find, Rust.Write, ReturnsExpr, Ir.ScopedExpr;
    match s
    case Bind(slot, x) =>
      ExprSame(x, own, f, parameters, env, store, log, rt);
      AssignStep(slot, Ir.Eval(x, store, log, f), Rust.Eval(GenExpr(x).value, env, log, rt), own, f, parameters, env, store, rt);
    case Evaluate(x) => ExprSame(x, own, f, parameters, env, store, log, rt);
    case Return(x) => ExprSame(x, own, f, parameters, env, store, log, rt);
    case Fatal(x, message) =>
      ExprSame(x, own, f, parameters, env, store, log, rt);
      FatalReports(x, message, store, log, f);
    case If(_, _, _) => IfSame(s, own, f, parameters, env, store, log, rt);
  }

  lemma FatalReports(x: Ir.E, message: string, store: Ir.Slots, log: Log, f: Ir.Frame)
    ensures var io := Ir.Eval(x, store, log, f);
      io.Val? ==> Reports(Fatal(io.value, Ir.Context(f.args), message), Rust.FatalFault(io.value, message))
  {}

  lemma {:induction false} IfSame(s: Ir.S, own: set<nat>, f: Ir.Frame, parameters: nat, env: Rust.Env, store: Ir.Slots, log: Log, rt: Rust.Runtime)
    requires s.If? && GenStmt(s).Code? && ReturnsStmt(s) && Ready(env, store, own, f, parameters, rt)
    requires Ir.ScopedStmt(s, store.Keys, own, parameters, f.item.Some?)
    ensures FlowSame(Ir.RunStmt(s, store, log, f), Rust.RunStmt(GenStmt(s).value, env, log, rt), env, store, f, parameters)
    decreases s, 3
  {
    hide Ready, Holds, Keeps, SameRuntime, Reports, GenExpr, Ir.Eval, Rust.Eval, GenBody, Ir.Run, Rust.Run, ReturnsExpr, Ir.ScopedExpr, Ir.ScopedBody, ReturnsBody, Rust.EndBlock;
    match s case If(c, yes, no) =>
    ExprSame(c, own, f, parameters, env, store, log, rt);
    var io, ro := Ir.Eval(c, store, log, f), Rust.Eval(GenExpr(c).value, env, log, rt);
    NextReady(io, ro, env, store, own, f, parameters, rt);
    if io.Val? {
      var branch := if Truthy(io.value) then yes else no;
      BodySame(branch, own, f, parameters, ro.env, io.state, io.log, rt);
      var ib, rb := Ir.Run(branch, io.state, io.log, f), Rust.Run(GenBody(branch).value, ro.env, ro.log, rt);
      EndBlockSame(ib, rb, ro.env, io.state, f, parameters);
      FlowThen(ib, Rust.EndBlock(rb, |ro.env|), env, store, ro.env, io.state, f, parameters);
    }
  }

  lemma EndBlockSame(io: Flow<Ir.Slots>, rf: Rust.Flow, env: Rust.Env, store: Ir.Slots, f: Ir.Frame, parameters: nat)
    requires FlowSame(io, rf, env, store, f, parameters)
    ensures FlowSame(io, Rust.EndBlock(rf, |env|), env, store, f, parameters)
  {
    hide Holds, Reports;
  }

  // ---------------------------------------------------------------- whole validators

  lemma ArgNamesDiffer(i: nat, j: nat)
    requires ArgName(i) == ArgName(j)
    ensures i == j
  {
    assert ArgName(i)[1..] == Decimal(i) && ArgName(j)[1..] == Decimal(j);
    DecimalInjective(i, j);
  }

  lemma {:induction false} FindAt(env: Rust.Env, x: string, k: nat)
    requires k < |env| && env[k].0 == x && forall j | 0 <= j < k :: env[j].0 != x
    ensures Rust.Find(env, x) == Some(env[k].1)
    decreases k
  {
    if k > 0 { FindAt(env[1..], x, k - 1); }
  }

  lemma StartHolds(slots: set<nat>, args: seq<Value>, parameters: nat, f: Ir.Frame)
    requires f.args == args && f.item == None
    ensures Holds(Pushed(slots) + Rust.Parameters(seq(parameters, (i: nat) => ArgName(i)), args), Ir.Declare(map[], slots), f, parameters)
  {
    hide SlotName, ArgName, Pushed;
    var names := seq(parameters, (i: nat) => ArgName(i));
    var base := Rust.Parameters(names, args);
    PushedUnset(slots, base);
    forall i: nat | i < parameters ensures Rust.Find(Pushed(slots) + base, ArgName(i)) == Some(ArgAt(args, i)) {
      NamesApart(i);
      if OwnName(slots, ArgName(i)) { OwnNamesApart(slots, ArgName(i)); }
      BelowPushed(slots, base, ArgName(i));
      forall j | 0 <= j < i ensures base[j].0 != ArgName(i) { if ArgName(j) == ArgName(i) { ArgNamesDiffer(i, j); } }
      FindAt(base, ArgName(i), i);
    }
  }

  /** A generated validator answers as its program does. */
  ghost predicate SameAnswer(ir: Reply, rust: Option<Rust.Response>) {
    match ir.answer
    case Done(v) => rust == Some(Rust.Response(Rust.Ok(v), ir.log))
    case Failed(x) =>
      x == Unmodelled ||
      (rust.Some? && rust.value.log == ir.log && rust.value.result.Bad? && Reports(x, rust.value.result.fault))
  }

  /** The generated Rust compiles to the meaning of the program, for every program whose
      slots resolve and whose bodies return: same value, same reported error, same
      dependency calls in the same order. */
  lemma GeneratedPreserves(p: Ir.Program, args: seq<Value>, log: Log, oracle: Oracle, rt: Rust.Runtime)
    requires GenProgram(p).Code? && Ir.WellScoped(p) && DefinitelyReturns(p) && SameRuntime(oracle, rt)
    ensures SameAnswer(Ir.Call(p, args, log, oracle), Rust.Call(GenProgram(p).value, args, log, rt))
  {
    var f := Ir.Frame(args, None, oracle);
    var slots := Ir.OwnedSlots(p.body);
    var store := Ir.Declare(map[], slots);
    var base := Rust.Parameters(seq(p.parameters, (i: nat) => ArgName(i)), args);
    StartHolds(slots, args, p.parameters, f);
    assert store.Keys == slots;
    assert Ready(Pushed(slots) + base, store, slots, f, p.parameters, rt);
    hide Ready, Holds, Keeps, SameRuntime, Reports, Pushed, Declarations, Ir.Declare, Ir.Run, Rust.Run, Ir.ScopedBody, ReturnsBody, Diverges, Ir.OwnedSlots, Rust.Parameters;
    DeclarationsRun(slots, GenBody(p.body).value, base, log, rt);
    BodySame(p.body, slots, f, p.parameters, Pushed(slots) + base, store, log, rt);
    DivergesReturns(p.body, store, log, f);
  }
}
