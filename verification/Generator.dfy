/** The accumulating halves of the Rust back end: owned slots gathered into a set,
    statements pushed onto an output, functions emitted one after another. */
module Generator {
  import Ir
  import Rust
  import TransformArity
  import opened Codegen

  /** What has been pushed, in front of what is still to be generated. */
  ghost function Pushed<T>(done: seq<T>, more: Generated<seq<T>>): Generated<seq<T>> {
    match more case Code(rest) => Code(done + rest) case Error(reason) => Error(reason)
  }

  lemma BodyStep(done: seq<Rust.Stmt>, body: seq<Ir.S>)
    requires body != []
    ensures Pushed(done, GenBody(body)) == match GenStmt(body[0])
      case Code(s) => Pushed(done + [s], GenBody(body[1..]))
      case Error(reason) => Error(reason)
  {
    hide GenStmt;
    if GenStmt(body[0]).Code? && GenBody(body[1..]).Code? {
      assert done + ([GenStmt(body[0]).value] + GenBody(body[1..]).value) == done + [GenStmt(body[0]).value] + GenBody(body[1..]).value;
    }
  }

  method OwnedSlots(body: seq<Ir.S>) returns (slots: set<nat>)
    ensures slots == Ir.OwnedSlots(body)
    decreases body
  {
    slots := {};
    for k := 0 to |body|
      invariant Ir.OwnedSlots(body) == slots + Ir.OwnedSlots(body[k..])
    {
      assert body[k..][0] == body[k] && body[k..][1..] == body[k + 1..];
      match body[k] {
        case Bind(slot, _) =>
          slots := slots + {slot};
        case If(_, yes, no) =>
          var a := OwnedSlots(yes);
          var b := OwnedSlots(no);
          slots := slots + a + b;
        case _ =>
      }
    }
  }

  /** Push the translation of `body` onto `before`. */
  method Statements(body: seq<Ir.S>, before: seq<Rust.Stmt>) returns (out: Generated<seq<Rust.Stmt>>)
    ensures out == Pushed(before, GenBody(body))
  {
    var pushed := before;
    for k := 0 to |body|
      invariant Pushed(before, GenBody(body)) == Pushed(pushed, GenBody(body[k..]))
    {
      assert body[k..][0] == body[k] && body[k..][1..] == body[k + 1..];
      BodyStep(pushed, body[k..]);
      var s :- GenStmt(body[k]);
      pushed := pushed + [s];
    }
    assert body[|body|..] == [] && pushed + [] == pushed;
    return Code(pushed);
  }

  /** Declarations first, in slot order, then the body. */
  method Function(p: Ir.Program) returns (out: Generated<Rust.Fn>)
    ensures out == GenProgram(p)
    ensures out.Code? <==> p.parameters <= 3 && TransformArity.OneArgumentEach(p.body)
  {
    TransformArity.GeneratesExactly(p);
    if p.parameters > 3 { return Error("validator arity"); }
    var slots := OwnedSlots(p.body);
    var code :- Statements(p.body, Declarations(slots));
    return Code(Rust.Fn(seq(p.parameters, (i: nat) => ArgName(i)), code));
  }
}
