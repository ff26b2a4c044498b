/** The Rust the generator emits: its expression and statement forms, and their
    meaning over lexically scoped locals, `?`, and closures that borrow them. */
module Rust {
  import opened Values

  datatype Expr =
    | Literal(constant: Value)                                 // Value::Undefined, Value::Text("..".into()), ...
    | CloneOf(name: string)                                   // x.clone()
    | Local(name: string)                                     // x, as a receiver or moved out
    | FieldTry(receiver: Expr, key: string)                   // (r).field("k")?
    | NotTruthy(operand: Expr)                                // Value::Bool(!(e).truthy())
    | NullishOf(operand: Expr, negate: bool)                  // Value::Bool(!(e).nullish())
    | Let(name: string, init: Expr, body: Expr)               // {let x=init;body}
    | IfTruthy(condition: Expr, yes: Expr, no: Expr)          // if (c).truthy() {y} else {n}
    | GreaterThan(left: string, right: string)                // Value::Bool(x.greater_than(&y))
    | AssignClone(name: string, value: Expr)                  // {x=e;x.clone()}
    | DiscardAllButLast(exprs: seq<Expr>)                     // {let _=e0;...;en}
    | ObjectNew(fields: seq<Member>)                          // Value::object(vec![("k", e), ...])
    | ListNew                                                 // Vec::new()
    | CallTry(callee: Callee, arguments: seq<Expr>)           // f(transforms,a,b)?  or  transforms.g(a)?
    | CollectTry(item: string, list: string, into: string, closure: seq<Stmt>)
      // for item in list.array()?{into.push((||->Result<..>{body})()?);}Value::list(into)

  datatype Member = Member(key: string, value: Expr)

  datatype Stmt =
    | LetUndefined(name: string)                              // let mut x=Value::Undefined;
    | Set(name: string, value: Expr)                          // x=e;
    | Discard(value: Expr)                                    // let _=e;
    | IfStmt(condition: Expr, yes: seq<Stmt>, no: seq<Stmt>)
    | ReturnErr(metric: Expr, message: string)                // return Err(ValidationError::fatal(m,"..."));
    | ReturnOk(value: Expr)                                   // return Ok(e);

  datatype Fn = Fn(parameters: seq<string>, body: seq<Stmt>)

  /** ValidationError. */
  datatype Fault = Fault(kind: string, metric: Option<string>, message: string)

  datatype Result = Ok(value: Value) | Bad(fault: Fault)

  datatype Response = Response(result: Result, log: Log)

  /** The transforms and the other validators; `coerced` is `greater_than` off numbers. */
  datatype Runtime = Runtime(call: (Log, Callee, seq<Value>) -> Response, coerced: (Value, Value) -> bool)

  /** Locals, innermost first. */
  type Env = seq<(string, Value)>

  /** `Stuck` marks code that would not compile: unknown locals, no value on some path. */
  datatype Out<+A> = Gives(value: A, env: Env, log: Log) | Fails(fault: Fault, log: Log) | Stuck {
    predicate IsFailure() { !Gives? }
    function PropagateFailure<B>(): Out<B>
      requires !Gives?
    {
      match this case Fails(f, log) => Fails(f, log) case _ => Stuck
    }
    function Extract(): (A, Env, Log)
      requires Gives?
    {
      (value, env, log)
    }
  }

  datatype Flow = Runs(env: Env, log: Log) | Yields(value: Value, env: Env, log: Log) | Bails(fault: Fault, log: Log) | Astray

  function Find(env: Env, x: string): Option<Value> {
    if env == [] then None else if env[0].0 == x then Some(env[0].1) else Find(env[1..], x)
  }

  /** Assign the innermost local called `x`. */
  function Write(env: Env, x: string, v: Value): Env {
    if env == [] then [] else if env[0].0 == x then [(x, v)] + env[1..] else [env[0]] + Write(env[1..], x, v)
  }

  /** End of a block entered when there were `depth` locals. */
  function Leave(env: Env, depth: nat): Env {
    if |env| <= depth then env else env[|env| - depth..]
  }

  const FIELD_ERROR := Fault("TypeError", None, "field access on nullish value")
  const ARRAY_ERROR := Fault("TypeError", None, "expected array")

  function FatalFault(metric: Value, message: string): Fault {
    Fault("SyncdFatalError", if metric.Text? then Some(metric.text) else None, message)
  }

  function Greater(v: Value, w: Value, rt: Runtime): bool {
    if v.Number? && w.Number? then NumGreater(v.n, w.n) else rt.coerced(v, w)
  }

  function CallWith(callee: Callee, args: Out<seq<Value>>, rt: Runtime): Out<Value> {
    var (vs, env, log) :- args;
    var reply := rt.call(log + [Event(callee, vs)], callee, vs);
    match reply.result
    case Ok(v) => Gives(v, env, reply.log)
    case Bad(f) => Fails(f, reply.log)
  }

  function EndLet(out: Out<Value>, depth: nat): Out<Value> {
    match out case Gives(v, env, log) => Gives(v, Leave(env, depth), log) case other => other
  }

  function Eval(e: Expr, env: Env, log: Log, rt: Runtime): Out<Value>
    decreases e, 3
  {
    match e
    case Literal(v) => Gives(v, env, log)
    case CloneOf(x) => (match Find(env, x) case Some(v) => Gives(v, env, log) case None => Stuck)
    case Local(x) => (match Find(env, x) case Some(v) => Gives(v, env, log) case None => Stuck)
    case FieldTry(receiver, key) =>
      var (v, env1, log1) :- Eval(receiver, env, log, rt);
      (match ReadField(v, key) case Done(x) => Gives(x, env1, log1) case Failed(_) => Fails(FIELD_ERROR, log1))
    case NotTruthy(x) =>
      var (v, env1, log1) :- Eval(x, env, log, rt);
      Gives(Bool(!Truthy(v)), env1, log1)
    case NullishOf(x, negate) =>
      var (v, env1, log1) :- Eval(x, env, log, rt);
      Gives(Bool(if negate then !Nullish(v) else Nullish(v)), env1, log1)
    case Let(x, init, body) =>
      var (v, env1, log1) :- Eval(init, env, log, rt);
      EndLet(Eval(body, [(x, v)] + env1, log1, rt), |env1|)
    case IfTruthy(condition, yes, no) =>
      var (v, env1, log1) :- Eval(condition, env, log, rt);
      if Truthy(v) then Eval(yes, env1, log1, rt) else Eval(no, env1, log1, rt)
    case GreaterThan(x, y) =>
      (match (Find(env, x), Find(env, y))
       case (Some(v), Some(w)) => Gives(Bool(Greater(v, w, rt)), env, log)
       case _ => Stuck)
    case AssignClone(x, value) =>
      var (v, env1, log1) :- Eval(value, env, log, rt);
      if Find(env1, x).Some? then Gives(v, Write(env1, x, v), log1) else Stuck
    case DiscardAllButLast(es) =>
      if es == [] then Stuck
      else
        var (vs, env1, log1) :- EvalAll(es, env, log, rt);
        Gives(vs[|vs| - 1], env1, log1)
    case ObjectNew(fields) =>
      var (fs, env1, log1) :- EvalMembers(fields, env, log, rt);
      Gives(Object(fs), env1, log1)
    case ListNew => Gives(Array([]), env, log)
    case CallTry(callee, arguments) => CallWith(callee, EvalAll(arguments, env, log, rt), rt)
    case CollectTry(item, list, into, body) =>
      (match (Find(env, list), Find(env, into))
       case (Some(v), Some(_)) =>
         if !v.Array? then Fails(ARRAY_ERROR, log)
         else
           var (_, env1, log1) :- Collect(item, into, body, v.items, env, log, rt);
           (match Find(env1, into) case Some(mapped) => Gives(mapped, env1, log1) case None => Stuck)
       case _ => Stuck)
  }

  function EvalAll(es: seq<Expr>, env: Env, log: Log, rt: Runtime): (out: Out<seq<Value>>)
    ensures out.Gives? ==> |out.value| == |es|
    decreases es, 0
  {
    if es == [] then Gives([], env, log)
    else
      var (v, env1, log1) :- Eval(es[0], env, log, rt);
      var (vs, env2, log2) :- EvalAll(es[1..], env1, log1, rt);
      Gives([v] + vs, env2, log2)
  }

  function EvalMember(m: Member, env: Env, log: Log, rt: Runtime): Out<Value>
    decreases m, 4
  {
    Eval(m.value, env, log, rt)
  }

  function EvalMembers(ms: seq<Member>, env: Env, log: Log, rt: Runtime): Out<seq<Field>>
    decreases ms, 0
  {
    if ms == [] then Gives([], env, log)
    else
      var (v, env1, log1) :- EvalMember(ms[0], env, log, rt);
      var (fs, env2, log2) :- EvalMembers(ms[1..], env1, log1, rt);
      Gives([Field(ms[0].key, v)] + fs, env2, log2)
  }

  /** One closure call per element. The closure has its own locals, writes through to
      the ones it captures, and its `return` and `?` end only itself; the `?` on the
      call then ends the loop. The vector grows by each result. */
  function Collect(item: string, into: string, body: seq<Stmt>, items: seq<Value>, env: Env, log: Log, rt: Runtime): Out<()>
    decreases body, 1, |items|
  {
    if items == [] then Gives((), env, log)
    else match Run(body, [(item, items[0])] + env, log, rt)
      case Bails(f, log1) => Fails(f, log1)
      case Yields(v, env1, log1) =>
        var env2 := Leave(env1, |env|);
        (match Find(env2, into)
         case Some(Array(sofar)) =>
           Collect(item, into, body, items[1..], Write(env2, into, Array(sofar + [v])), log1, rt)
         case _ => Stuck)
      case _ => Stuck
  }

  function Run(body: seq<Stmt>, env: Env, log: Log, rt: Runtime): Flow
    decreases body, 0
  {
    if body == [] then Runs(env, log)
    else match RunStmt(body[0], env, log, rt)
      case Runs(env1, log1) => Run(body[1..], env1, log1, rt)
      case other => other
  }

  function RunStmt(s: Stmt, env: Env, log: Log, rt: Runtime): Flow
    decreases s, 4
  {
    match s
    case LetUndefined(x) => Runs([(x, Undefined)] + env, log)
    case Set(x, value) =>
      (match Eval(value, env, log, rt)
       case Gives(v, env1, log1) => if Find(env1, x).Some? then Runs(Write(env1, x, v), log1) else Astray
       case Fails(f, log1) => Bails(f, log1)
       case Stuck => Astray)
    case Discard(value) =>
      (match Eval(value, env, log, rt)
       case Gives(_, env1, log1) => Runs(env1, log1)
       case Fails(f, log1) => Bails(f, log1)
       case Stuck => Astray)
    case IfStmt(condition, yes, no) =>
      (match Eval(condition, env, log, rt)
       case Gives(v, env1, log1) => EndBlock(if Truthy(v) then Run(yes, env1, log1, rt) else Run(no, env1, log1, rt), |env1|)
       case Fails(f, log1) => Bails(f, log1)
       case Stuck => Astray)
    case ReturnErr(metric, message) =>
      (match Eval(metric, env, log, rt)
       case Gives(m, _, log1) => Bails(FatalFault(m, message), log1)
       case Fails(f, log1) => Bails(f, log1)
       case Stuck => Astray)
    case ReturnOk(value) =>
      (match Eval(value, env, log, rt)
       case Gives(v, env1, log1) => Yields(v, env1, log1)
       case Fails(f, log1) => Bails(f, log1)
       case Stuck => Astray)
  }

  function EndBlock(flow: Flow, depth: nat): Flow {
    match flow case Runs(env, log) => Runs(Leave(env, depth), log) case other => other
  }

  function Parameters(names: seq<string>, args: seq<Value>): Env {
    seq(|names|, i requires 0 <= i < |names| => (names[i], ArgAt(args, i)))
  }

  /** Calling a generated validator. Falling off the end does not type-check. */
  function Call(f: Fn, args: seq<Value>, log: Log, rt: Runtime): Option<Response> {
    match Run(f.body, Parameters(f.parameters, args), log, rt)
    case Yields(v, _, log1) => Some(Response(Ok(v), log1))
    case Bails(fault, log1) => Some(Response(Bad(fault), log1))
    case _ => None
  }
}
