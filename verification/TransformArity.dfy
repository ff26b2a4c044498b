/** What the generator refuses: a fourth parameter, or a transform called with anything
    but one argument, and nothing else. */
module TransformArity {
  import Ir
  import opened Codegen

  predicate OneArgumentExpr(e: Ir.E)
    decreases e, 3
  {
    match e
    case FieldOf(x, _) => OneArgumentExpr(x)
    case Not(x) => OneArgumentExpr(x)
    case IsNullish(x, _) => OneArgumentExpr(x)
    case And(x, y) => OneArgumentExpr(x) && OneArgumentExpr(y)
    case Or(x, y) => OneArgumentExpr(x) && OneArgumentExpr(y)
    case Greater(x, y) => OneArgumentExpr(x) && OneArgumentExpr(y)
    case Choose(x, y, z) => OneArgumentExpr(x) && OneArgumentExpr(y) && OneArgumentExpr(z)
    case Assign(_, x) => OneArgumentExpr(x)
    case Sequence(es) => OneArgumentAll(es)
    case ObjectOf(entries) => OneArgumentEntries(entries)
    case Map(x, body) => OneArgumentExpr(x) && OneArgumentEach(body)
    case Validate(_, es) => OneArgumentAll(es)
    case Apply(_, es) => |es| == 1 && OneArgumentAll(es)
    case _ => true
  }

  predicate OneArgumentAll(es: seq<Ir.E>)
    decreases es, 0
  {
    es == [] || (OneArgumentExpr(es[0]) && OneArgumentAll(es[1..]))
  }

  predicate OneArgumentEntry(entry: Ir.Entry)
    decreases entry, 4
  {
    OneArgumentExpr(entry.value)
  }

  predicate OneArgumentEntries(entries: seq<Ir.Entry>)
    decreases entries, 0
  {
    entries == [] || (OneArgumentEntry(entries[0]) && OneArgumentEntries(entries[1..]))
  }

  predicate OneArgumentStmt(s: Ir.S)
    decreases s, 4
  {
    match s
    case Bind(_, x) => OneArgumentExpr(x)
    case If(x, yes, no) => OneArgumentExpr(x) && OneArgumentEach(yes) && OneArgumentEach(no)
    case Evaluate(x) => OneArgumentExpr(x)
    case Fatal(x, _) => OneArgumentExpr(x)
    case Return(x) => OneArgumentExpr(x)
  }

  /** Every transform call of a body, callbacks included, has one argument. */
  predicate OneArgumentEach(body: seq<Ir.S>)
    decreases body, 0
  {
    body == [] || (OneArgumentStmt(body[0]) && OneArgumentEach(body[1..]))
  }

  // ---------------------------------------------------------------- the generator asks no more

  lemma {:induction false} ExprGenerates(e: Ir.E)
    ensures GenExpr(e).Code? <==> OneArgumentExpr(e)
    decreases e, 3
  {
    match e
    case FieldOf(x, _) => ExprGenerates(x);
    case Not(x) => ExprGenerates(x);
    case IsNullish(x, _) => ExprGenerates(x);
    case And(x, y) => ExprGenerates(x); ExprGenerates(y);
    case Or(x, y) => ExprGenerates(x); ExprGenerates(y);
    case Greater(x, y) => ExprGenerates(x); ExprGenerates(y);
    case Choose(x, y, z) => ExprGenerates(x); ExprGenerates(y); ExprGenerates(z);
    case Assign(_, x) => ExprGenerates(x);
    case Sequence(es) => AllGenerate(es);
    case ObjectOf(entries) => EntriesGenerate(entries);
    case Map(x, body) => ExprGenerates(x); BodyGenerates(body);
    case Validate(_, es) => AllGenerate(es);
    case Apply(_, es) => AllGenerate(es);
    case _ =>
  }

  lemma {:induction false} AllGenerate(es: seq<Ir.E>)
    ensures GenAll(es).Code? <==> OneArgumentAll(es)
    decreases es, 0
  {
    if es != [] {
      ExprGenerates(es[0]);
      AllGenerate(es[1..]);
    }
  }

  lemma {:induction false} EntryGenerates(entry: Ir.Entry)
    ensures GenEntry(entry).Code? <==> OneArgumentEntry(entry)
    decreases entry, 4
  {
    ExprGenerates(entry.value);
  }

  lemma {:induction false} EntriesGenerate(entries: seq<Ir.Entry>)
    ensures GenEntries(entries).Code? <==> OneArgumentEntries(entries)
    decreases entries, 0
  {
    if entries != [] {
      EntryGenerates(entries[0]);
      EntriesGenerate(entries[1..]);
    }
  }

  lemma {:induction false} StmtGenerates(s: Ir.S)
    ensures GenStmt(s).Code? <==> OneArgumentStmt(s)
    decreases s, 4
  {
    match s
    case Bind(_, x) => ExprGenerates(x);
    case If(x, yes, no) => ExprGenerates(x); BodyGenerates(yes); BodyGenerates(no);
    case Evaluate(x) => ExprGenerates(x);
    case Fatal(x, _) => ExprGenerates(x);
    case Return(x) => ExprGenerates(x);
  }

  lemma {:induction false} BodyGenerates(body: seq<Ir.S>)
    ensures GenBody(body).Code? <==> OneArgumentEach(body)
    decreases body, 0
  {
    if body != [] {
      StmtGenerates(body[0]);
      BodyGenerates(body[1..]);
    }
  }

  /** A program becomes a function exactly when it has at most three parameters and calls
      transforms with one argument each. */
  lemma GeneratesExactly(p: Ir.Program)
    ensures GenProgram(p).Code? <==> p.parameters <= 3 && OneArgumentEach(p.body)
  {
    BodyGenerates(p.body);
  }
}
