/** The generator from validation programs to Rust. */
module Codegen {
  import opened Decimals
  import opened Values
  import Ir
  import Rust

  datatype Generated<+T> = Code(value: T) | Error(message: string) {
    predicate IsFailure() { Error? }
    function PropagateFailure<U>(): Generated<U>
      requires Error?
    {
      Error(message)
    }
    function Extract(): T
      requires Code?
    {
      value
    }
  }

  // ---------------------------------------------------------------- names

  function SlotName(i: nat): string { "s" + Decimal(i) }
  function ArgName(i: nat): string { "a" + Decimal(i) }
  const ITEM := "item"
  const LEFT := "left"
  const RIGHT := "right"
  const INPUT := "input"
  const MAPPED := "mapped"

  // ---------------------------------------------------------------- expressions

  function GenExpr(e: Ir.E): Generated<Rust.Expr>
    decreases e, 3
  {
    match e
    case Argument(i) => Code(Rust.CloneOf(if i == Ir.ITEM then ITEM else ArgName(i)))
    case Slot(i) => Code(Rust.CloneOf(SlotName(i)))
    case UndefinedLit => Code(Rust.Literal(Undefined))
    case NullLit => Code(Rust.Literal(Null))
    case Integer(n) => Code(Rust.Literal(Number(Finite(n as real))))
    case String(s) => Code(Rust.Literal(Text(s)))
    case Metric(s) => Code(Rust.Literal(Text(s)))
    case FieldOf(base, key) =>
      (match base
       case Argument(i) => Code(Rust.FieldTry(Rust.Local(if i == Ir.ITEM then ITEM else ArgName(i)), key))
       case Slot(i) => Code(Rust.FieldTry(Rust.Local(SlotName(i)), key))
       case _ =>
         var x :- GenExpr(base);
         Code(Rust.FieldTry(x, key)))
    case Not(x) =>
      var v :- GenExpr(x);
      Code(Rust.NotTruthy(v))
    case IsNullish(x, negate) =>
      var v :- GenExpr(x);
      Code(Rust.NullishOf(v, negate))
    case And(left, right) =>
      var l :- GenExpr(left);
      var r :- GenExpr(right);
      Code(Rust.Let(LEFT, l, Rust.IfTruthy(Rust.Local(LEFT), r, Rust.Local(LEFT))))
    case Or(left, right) =>
      var l :- GenExpr(left);
      var r :- GenExpr(right);
      Code(Rust.Let(LEFT, l, Rust.IfTruthy(Rust.Local(LEFT), Rust.Local(LEFT), r)))
    case Greater(left, right) =>
      var l :- GenExpr(left);
      var r :- GenExpr(right);
      Code(Rust.Let(LEFT, l, Rust.Let(RIGHT, r, Rust.GreaterThan(LEFT, RIGHT))))
    case Choose(condition, yes, no) =>
      var c :- GenExpr(condition);
      var y :- GenExpr(yes);
      var n :- GenExpr(no);
      Code(Rust.IfTruthy(c, y, n))
    case Assign(slot, x) =>
      var v :- GenExpr(x);
      Code(Rust.AssignClone(SlotName(slot), v))
    case Sequence(values) =>
      var vs :- GenAll(values);
      Code(Rust.DiscardAllButLast(vs))
    case ObjectOf(entries) =>
      var ms :- GenEntries(entries);
      Code(Rust.ObjectNew(ms))
    case Validate(name, arguments) =>
      var vs :- GenAll(arguments);
      Code(Rust.CallTry(Validator(name), vs))
    case Map(input, body) =>
      var code :- GenBody(body);
      var x :- GenExpr(input);
      Code(Rust.Let(INPUT, x, Rust.Let(MAPPED, Rust.ListNew,
             Rust.CollectTry(ITEM, INPUT, MAPPED, Declarations(Ir.OwnedSlots(body)) + code))))
    case Apply(kind, arguments) =>
      if |arguments| != 1 then Error("transform arity")
      else
        var vs :- GenAll(arguments);
        Code(Rust.CallTry(Transform(kind), vs))
  }

  function GenAll(es: seq<Ir.E>): Generated<seq<Rust.Expr>>
    decreases es, 0
  {
    if es == [] then Code([])
    else
      var v :- GenExpr(es[0]);
      var vs :- GenAll(es[1..]);
      Code([v] + vs)
  }

  function GenEntry(entry: Ir.Entry): Generated<Rust.Member>
    decreases entry, 4
  {
    var v :- GenExpr(entry.value);
    Code(Rust.Member(entry.key, v))
  }

  function GenEntries(entries: seq<Ir.Entry>): Generated<seq<Rust.Member>>
    decreases entries, 0
  {
    if entries == [] then Code([])
    else
      var m :- GenEntry(entries[0]);
      var ms :- GenEntries(entries[1..]);
      Code([m] + ms)
  }

  // ---------------------------------------------------------------- statements

  function GenStmt(s: Ir.S): Generated<Rust.Stmt>
    decreases s, 4
  {
    match s
    case Bind(slot, value) =>
      var v :- GenExpr(value);
      Code(Rust.Set(SlotName(slot), v))
    case Evaluate(value) =>
      var v :- GenExpr(value);
      Code(Rust.Discard(v))
    case If(condition, yes, no) =>
      var c :- GenExpr(condition);
      var y :- GenBody(yes);
      var n :- GenBody(no);
      Code(Rust.IfStmt(c, y, n))
    case Fatal(metric, message) =>
      var m :- GenExpr(metric);
      Code(Rust.ReturnErr(m, message))
    case Return(value) =>
      var v :- GenExpr(value);
      Code(Rust.ReturnOk(v))
  }

  function GenBody(body: seq<Ir.S>): Generated<seq<Rust.Stmt>>
    decreases body, 0
  {
    if body == [] then Code([])
    else
      var s :- GenStmt(body[0]);
      var rest :- GenBody(body[1..]);
      Code([s] + rest)
  }

  /** The smallest member of a non-empty set. */
  function Least(slots: set<nat>): (least: nat)
    requires slots != {}
    ensures IsLeast(least, slots)
  {
    LeastExists(slots);
    var least :| IsLeast(least, slots);
    least
  }

  predicate IsLeast(least: nat, slots: set<nat>) {
    least in slots && forall i | i in slots :: least <= i
  }

  lemma {:induction false} LeastExists(slots: set<nat>)
    requires slots != {}
    ensures exists least :: IsLeast(least, slots)
    decreases slots
  {
    var x :| x in slots;
    var rest := slots - {x};
    if rest == {} {
      assert slots == {x};
      assert IsLeast(x, slots);
    } else {
      LeastExists(rest);
      var y :| IsLeast(y, rest);
      var least := if x < y then x else y;
      forall i | i in slots ensures least <= i { assert i == x || i in rest; }
      assert IsLeast(least, slots);
    }
  }

  /** One `let mut s<i>=Value::Undefined;` per owned slot, in increasing order. */
  function Declarations(slots: set<nat>): seq<Rust.Stmt>
    decreases slots
  {
    if slots == {} then []
    else [Rust.LetUndefined(SlotName(Least(slots)))] + Declarations(slots - {Least(slots)})
  }

  function GenProgram(p: Ir.Program): Generated<Rust.Fn> {
    if p.parameters > 3 then Error("validator arity")
    else
      var body :- GenBody(p.body);
      Code(Rust.Fn(seq(p.parameters, (i: nat) => ArgName(i)), Declarations(Ir.OwnedSlots(p.body)) + body))
  }

  // ---------------------------------------------------------------- what Rust accepts

  /** Every path through a body, and through every callback in it, ends in `return`. */
  predicate Diverges(body: seq<Ir.S>)
    decreases body, 0
  {
    body != [] && (StmtDiverges(body[0]) || Diverges(body[1..]))
  }

  predicate StmtDiverges(s: Ir.S)
    decreases s, 4
  {
    match s
    case Return(_) => true
    case Fatal(_, _) => true
    case If(_, yes, no) => Diverges(yes) && Diverges(no)
    case _ => false
  }

  predicate ReturnsExpr(e: Ir.E)
    decreases e, 3
  {
    match e
    case FieldOf(x, _) => ReturnsExpr(x)
    case Not(x) => ReturnsExpr(x)
    case IsNullish(x, _) => ReturnsExpr(x)
    case And(x, y) => ReturnsExpr(x) && ReturnsExpr(y)
    case Or(x, y) => ReturnsExpr(x) && ReturnsExpr(y)
    case Greater(x, y) => ReturnsExpr(x) && ReturnsExpr(y)
    case Choose(x, y, z) => ReturnsExpr(x) && ReturnsExpr(y) && ReturnsExpr(z)
    case Assign(_, x) => ReturnsExpr(x)
    case Sequence(es) => ReturnsAll(es)
    case ObjectOf(entries) => ReturnsEntries(entries)
    case Map(x, body) => ReturnsExpr(x) && Diverges(body) && ReturnsBody(body)
    case Validate(_, es) => ReturnsAll(es)
    case Apply(_, es) => ReturnsAll(es)
    case _ => true
  }

  predicate ReturnsAll(es: seq<Ir.E>)
    decreases es, 0
  {
    es == [] || (ReturnsExpr(es[0]) && ReturnsAll(es[1..]))
  }

  predicate ReturnsEntry(entry: Ir.Entry)
    decreases entry, 4
  {
    ReturnsExpr(entry.value)
  }

  predicate ReturnsEntries(entries: seq<Ir.Entry>)
    decreases entries, 0
  {
    entries == [] || (ReturnsEntry(entries[0]) && ReturnsEntries(entries[1..]))
  }

  predicate ReturnsStmt(s: Ir.S)
    decreases s, 4
  {
    match s
    case Bind(_, x) => ReturnsExpr(x)
    case If(x, yes, no) => ReturnsExpr(x) && ReturnsBody(yes) && ReturnsBody(no)
    case Evaluate(x) => ReturnsExpr(x)
    case Fatal(x, _) => ReturnsExpr(x)
    case Return(x) => ReturnsExpr(x)
  }

  predicate ReturnsBody(body: seq<Ir.S>)
    decreases body, 0
  {
    body == [] || (ReturnsStmt(body[0]) && ReturnsBody(body[1..]))
  }

  /** Definite return: one of the two typing rules a program can break; call arity, which
      depends on the other validators of the module, is the other. */
  predicate DefinitelyReturns(p: Ir.Program) {
    Diverges(p.body) && ReturnsBody(p.body)
  }
}
