/** The validation program: a closed, slot-addressed language between the script
    and the generated Rust. */
module Ir {
  import opened Values

  datatype E =
    | Argument(index: nat)
    | Slot(index: nat)
    | UndefinedLit
    | NullLit
    | Integer(number: int)
    | String(text: string)
    | FieldOf(base: E, field: string)
    | Not(value: E)
    | And(left: E, right: E)
    | Or(left: E, right: E)
    | IsNullish(value: E, negate: bool)
    | Greater(left: E, right: E)
    | Choose(condition: E, yes: E, no: E)
    | Assign(slot: nat, value: E)
    | Sequence(values: seq<E>)
    | ObjectOf(fields: seq<Entry>)
    | Map(input: E, body: seq<S>)
    | Validate(validator: string, arguments: seq<E>)
    | Apply(transform: TransformKind, arguments: seq<E>)
    | Metric(name: string)

  datatype Entry = Entry(key: string, value: E)

  datatype S =
    | Bind(slot: nat, value: E)
    | If(condition: E, yes: seq<S>, no: seq<S>)
    | Evaluate(value: E)
    | Fatal(metric: E, message: string)
    | Return(value: E)

  datatype Program = Program(parameters: nat, body: seq<S>)

  /** The argument index that stands for the element a map callback is given. */
  const ITEM: nat := 3

  /** Slots a body binds itself, callbacks excluded. */
  function OwnedSlots(body: seq<S>): set<nat>
    decreases body, 0
  {
    if body == [] then {} else StmtSlots(body[0]) + OwnedSlots(body[1..])
  }

  function StmtSlots(s: S): set<nat>
    decreases s, 1
  {
    match s
    case Bind(slot, _) => {slot}
    case If(_, yes, no) => OwnedSlots(yes) + OwnedSlots(no)
    case _ => {}
  }

  type Slots = map<nat, Value>

  function Declare(store: Slots, slots: set<nat>): Slots {
    store + map i | i in slots :: Undefined
  }

  /** Forget the slots a callback declared. */
  function Leave(store: Slots, slots: set<nat>): Slots {
    store - slots
  }

  /** What is fixed while one body runs. */
  datatype Frame = Frame(args: seq<Value>, item: Option<Value>, oracle: Oracle)

  /** Make the call once its arguments are known. */
  function CallWith(callee: Callee, args: Out<seq<Value>, Slots>, oracle: Oracle): Out<Value, Slots> {
    match args
    case Err(f, log) => Err(f, log)
    case Val(vs, store, log) =>
      var reply := oracle(log + [Event(callee, vs)], callee, vs);
      match reply.answer
      case Done(v) => Val(v, store, reply.log)
      case Failed(f) => Err(f, reply.log)
  }

  function Eval(e: E, store: Slots, log: Log, f: Frame): Out<Value, Slots>
    decreases e, 3
  {
    match e
    case Argument(i) =>
      if i == ITEM then (if f.item.Some? then Val(f.item.value, store, log) else Err(Unmodelled, log))
      else Val(ArgAt(f.args, i), store, log)
    case Slot(i) => if i in store then Val(store[i], store, log) else Err(Unmodelled, log)
    case UndefinedLit => Val(Undefined, store, log)
    case NullLit => Val(Null, store, log)
    case Integer(n) => Val(Number(Finite(n as real)), store, log)
    case String(s) => Val(Text(s), store, log)
    case Metric(s) => Val(Text(s), store, log)
    case FieldOf(base, key) =>
      var (v, store1, log1) :- Eval(base, store, log, f);
      (match ReadField(v, key)
       case Done(x) => Val(x, store1, log1)
       case Failed(x) => Err(x, log1))
    case Not(x) =>
      var (v, store1, log1) :- Eval(x, store, log, f);
      Val(Bool(!Truthy(v)), store1, log1)
    case IsNullish(x, negate) =>
      var (v, store1, log1) :- Eval(x, store, log, f);
      Val(Bool(if negate then !Nullish(v) else Nullish(v)), store1, log1)
    case And(left, right) =>
      var (v, store1, log1) :- Eval(left, store, log, f);
      if Truthy(v) then Eval(right, store1, log1, f) else Val(v, store1, log1)
    case Or(left, right) =>
      var (v, store1, log1) :- Eval(left, store, log, f);
      if Truthy(v) then Val(v, store1, log1) else Eval(right, store1, log1, f)
    case Greater(left, right) =>
      var (v, store1, log1) :- Eval(left, store, log, f);
      var (w, store2, log2) :- Eval(right, store1, log1, f);
      if v.Number? && w.Number? then Val(Bool(NumGreater(v.n, w.n)), store2, log2) else Err(Unmodelled, log2)
    case Choose(condition, yes, no) =>
      var (v, store1, log1) :- Eval(condition, store, log, f);
      if Truthy(v) then Eval(yes, store1, log1, f) else Eval(no, store1, log1, f)
    case Assign(slot, x) =>
      var (v, store1, log1) :- Eval(x, store, log, f);
      if slot in store1 then Val(v, store1[slot := v], log1) else Err(Unmodelled, log1)
    case Sequence(values) =>
      if values == [] then Err(Unmodelled, log)
      else
        var (vs, store1, log1) :- EvalAll(values, store, log, f);
        Val(vs[|vs| - 1], store1, log1)
    case ObjectOf(entries) =>
      var (fields, store1, log1) :- EvalEntries(entries, store, log, f);
      Val(Object(fields), store1, log1)
    case Map(input, body) =>
      MapOver(Eval(input, store, log, f), body, f)
    case Validate(name, arguments) =>
      CallWith(Validator(name), EvalAll(arguments, store, log, f), f.oracle)
    case Apply(kind, arguments) =>
      CallWith(Transform(kind), EvalAll(arguments, store, log, f), f.oracle)
  }

  function EvalAll(es: seq<E>, store: Slots, log: Log, f: Frame): (out: Out<seq<Value>, Slots>)
    ensures out.Val? ==> |out.value| == |es|
    decreases es, 0
  {
    if es == [] then Val([], store, log)
    else
      var (v, store1, log1) :- Eval(es[0], store, log, f);
      var (vs, store2, log2) :- EvalAll(es[1..], store1, log1, f);
      Val([v] + vs, store2, log2)
  }

  function EvalEntry(entry: Entry, store: Slots, log: Log, f: Frame): Out<Value, Slots>
    decreases entry, 4
  {
    Eval(entry.value, store, log, f)
  }

  function EvalEntries(entries: seq<Entry>, store: Slots, log: Log, f: Frame): Out<seq<Field>, Slots>
    decreases entries, 0
  {
    if entries == [] then Val([], store, log)
    else
      var (v, store1, log1) :- EvalEntry(entries[0], store, log, f);
      var (fields, store2, log2) :- EvalEntries(entries[1..], store1, log1, f);
      Val([Field(entries[0].key, v)] + fields, store2, log2)
  }

  function MapOver(input: Out<Value, Slots>, body: seq<S>, f: Frame): Out<Value, Slots>
    decreases body, 2
  {
    var (v, store1, log1) :- input;
    if !v.Array? then Err(TypeError, log1)
    else
      var (vs, store2, log2) :- MapItems(body, v.items, store1, log1, f);
      Val(Array(vs), store2, log2)
  }

  /** Run the callback on each element; its own slots start undefined every time. */
  function MapItems(body: seq<S>, items: seq<Value>, store: Slots, log: Log, f: Frame): Out<seq<Value>, Slots>
    decreases body, 1, |items|
  {
    if items == [] then Val([], store, log)
    else
      var own := OwnedSlots(body);
      match Run(body, Declare(store, own), log, f.(item := Some(items[0])))
      case Raised(failure, log1) => Err(failure, log1)
      case Next(store1, log1) =>
        var (vs, store2, log2) :- MapItems(body, items[1..], Leave(store1, own), log1, f);
        Val([Undefined] + vs, store2, log2)
      case Returned(v, store1, log1) =>
        var (vs, store2, log2) :- MapItems(body, items[1..], Leave(store1, own), log1, f);
        Val([v] + vs, store2, log2)
  }

  function Run(body: seq<S>, store: Slots, log: Log, f: Frame): Flow<Slots>
    decreases body, 0
  {
    if body == [] then Next(store, log)
    else match RunStmt(body[0], store, log, f)
      case Next(store1, log1) => Run(body[1..], store1, log1, f)
      case other => other
  }

  /** The report of a fatal error names the collection, always argument 0. */
  function Context(args: seq<Value>): Value {
    Object([Field("collection", ArgAt(args, 0))])
  }

  function RunStmt(s: S, store: Slots, log: Log, f: Frame): Flow<Slots>
    decreases s, 4
  {
    match s
    case Bind(slot, value) =>
      (match Eval(value, store, log, f)
       case Err(x, log1) => Raised(x, log1)
       case Val(v, store1, log1) => if slot in store1 then Next(store1[slot := v], log1) else Raised(Unmodelled, log1))
    case If(condition, yes, no) =>
      (match Eval(condition, store, log, f)
       case Err(x, log1) => Raised(x, log1)
       case Val(v, store1, log1) => if Truthy(v) then Run(yes, store1, log1, f) else Run(no, store1, log1, f))
    case Evaluate(value) =>
      (match Eval(value, store, log, f)
       case Err(x, log1) => Raised(x, log1)
       case Val(_, store1, log1) => Next(store1, log1))
    case Fatal(metric, message) =>
      (match Eval(metric, store, log, f)
       case Err(x, log1) => Raised(x, log1)
       case Val(m, _, log1) => Raised(Failure.Fatal(m, Context(f.args), message), log1))
    case Return(value) =>
      (match Eval(value, store, log, f)
       case Err(x, log1) => Raised(x, log1)
       case Val(v, store1, log1) => Returned(v, store1, log1))
  }

  /** A validator run: every slot it binds starts undefined. */
  function Call(p: Program, args: seq<Value>, log: Log, oracle: Oracle): Reply {
    match Run(p.body, Declare(map[], OwnedSlots(p.body)), log, Frame(args, None, oracle))
    case Next(_, log1) => Reply(Done(Undefined), log1)
    case Returned(v, _, log1) => Reply(Done(v), log1)
    case Raised(failure, log1) => Reply(Failed(failure), log1)
  }

  // ---------------------------------------------------------------- scoping

  /** Slots are read where visible, assigned and bound only in the body that owns
      them; arguments exist; the element is only mentioned inside a callback. */
  predicate ScopedExpr(e: E, visible: set<nat>, own: set<nat>, parameters: nat, inMap: bool)
    decreases e, 3
  {
    match e
    case Argument(i) => if i == ITEM then inMap else i < parameters
    case Slot(i) => i in visible
    case FieldOf(x, _) => ScopedExpr(x, visible, own, parameters, inMap)
    case Not(x) => ScopedExpr(x, visible, own, parameters, inMap)
    case IsNullish(x, _) => ScopedExpr(x, visible, own, parameters, inMap)
    case And(x, y) => ScopedExpr(x, visible, own, parameters, inMap) && ScopedExpr(y, visible, own, parameters, inMap)
    case Or(x, y) => ScopedExpr(x, visible, own, parameters, inMap) && ScopedExpr(y, visible, own, parameters, inMap)
    case Greater(x, y) => ScopedExpr(x, visible, own, parameters, inMap) && ScopedExpr(y, visible, own, parameters, inMap)
    case Choose(x, y, z) =>
      ScopedExpr(x, visible, own, parameters, inMap) && ScopedExpr(y, visible, own, parameters, inMap) &&
      ScopedExpr(z, visible, own, parameters, inMap)
    case Assign(slot, x) => slot in own && ScopedExpr(x, visible, own, parameters, inMap)
    case Sequence(es) => es != [] && ScopedAll(es, visible, own, parameters, inMap)
    case ObjectOf(entries) => ScopedEntries(entries, visible, own, parameters, inMap)
    case Map(x, body) =>
      ScopedExpr(x, visible, own, parameters, inMap) && OwnedSlots(body) !! visible &&
      ScopedBody(body, visible + OwnedSlots(body), OwnedSlots(body), parameters, true)
    case Validate(_, es) => ScopedAll(es, visible, own, parameters, inMap)
    case Apply(_, es) => ScopedAll(es, visible, own, parameters, inMap)
    case _ => true
  }

  predicate ScopedAll(es: seq<E>, visible: set<nat>, own: set<nat>, parameters: nat, inMap: bool)
    decreases es, 0
  {
    es == [] || (ScopedExpr(es[0], visible, own, parameters, inMap) && ScopedAll(es[1..], visible, own, parameters, inMap))
  }

  predicate ScopedEntry(entry: Entry, visible: set<nat>, own: set<nat>, parameters: nat, inMap: bool)
    decreases entry, 4
  {
    ScopedExpr(entry.value, visible, own, parameters, inMap)
  }

  predicate ScopedEntries(entries: seq<Entry>, visible: set<nat>, own: set<nat>, parameters: nat, inMap: bool)
    decreases entries, 0
  {
    entries == [] ||
    (ScopedEntry(entries[0], visible, own, parameters, inMap) && ScopedEntries(entries[1..], visible, own, parameters, inMap))
  }

  predicate ScopedStmt(s: S, visible: set<nat>, own: set<nat>, parameters: nat, inMap: bool)
    decreases s, 4
  {
    match s
    case Bind(slot, x) => slot in own && ScopedExpr(x, visible, own, parameters, inMap)
    case If(x, yes, no) =>
      ScopedExpr(x, visible, own, parameters, inMap) && ScopedBody(yes, visible, own, parameters, inMap) &&
      ScopedBody(no, visible, own, parameters, inMap)
    case Evaluate(x) => ScopedExpr(x, visible, own, parameters, inMap)
    case Fatal(x, _) => ScopedExpr(x, visible, own, parameters, inMap)
    case Return(x) => ScopedExpr(x, visible, own, parameters, inMap)
  }

  predicate ScopedBody(body: seq<S>, visible: set<nat>, own: set<nat>, parameters: nat, inMap: bool)
    decreases body, 0
  {
    body == [] || (ScopedStmt(body[0], visible, own, parameters, inMap) && ScopedBody(body[1..], visible, own, parameters, inMap))
  }

  /** A program whose every slot and argument resolves. */
  predicate WellScoped(p: Program) {
    p.parameters <= 3 && ScopedBody(p.body, OwnedSlots(p.body), OwnedSlots(p.body), p.parameters, false)
  }
}
