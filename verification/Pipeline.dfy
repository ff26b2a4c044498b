/** The two compilers together: whole validators, and whole suites of validators
    that call one another. */
module Pipeline {
  import opened Values
  import opened Lowering
  import Script
  import Ir
  import Rust
  import Codegen
  import LoweringMeaning
  import LoweringScope
  import CodegenMeaning
  import CallArity

  /** The program and the Rust a script validator is turned into. */
  function ProgramOf(f: Script.Function, c: Dialect): Ir.Program
    requires LowerFunction(f, c).Accepted?
  {
    LowerFunction(f, c).value
  }

  /** The whole pipeline takes the validator, and its bodies all return. */
  predicate Compiles(f: Script.Function, c: Dialect) {
    LowerFunction(f, c).Accepted? &&
    Codegen.GenProgram(LowerFunction(f, c).value).Code? &&
    Codegen.DefinitelyReturns(LowerFunction(f, c).value)
  }

  function RustOf(f: Script.Function, c: Dialect): Rust.Fn
    requires Compiles(f, c)
  {
    Codegen.GenProgram(ProgramOf(f, c)).value
  }

  /** End to end: the generated Rust answers every conforming call as the script does. */
  lemma PipelinePreserves(f: Script.Function, args: seq<Value>, log: Log, c: Dialect, r: Script.Realm, oracle: Oracle, rt: Rust.Runtime)
    requires Compiles(f, c) && LoweringMeaning.SameWorld(r, c, Ir.Frame(args, None, oracle)) && LoweringMeaning.Conforms(args, c)
    requires LoweringMeaning.Modelled(oracle) && CodegenMeaning.SameRuntime(oracle, rt)
    ensures var script := Script.Apply(f, args, log, r);
      script.answer != Failed(Unmodelled) &&
      CodegenMeaning.SameAnswer(script, Rust.Call(RustOf(f, c), args, log, rt))
  {
    hide LoweringMeaning.SameWorld, LoweringMeaning.Conforms, CodegenMeaning.SameRuntime, CodegenMeaning.SameAnswer, Script.Apply, Ir.Call, Rust.Call, Codegen.DefinitelyReturns, Ir.WellScoped;
    LoweringMeaning.LoweringPreserves(f, args, log, c, r, oracle);
    LoweringScope.LoweringWellScoped(f, c);
    CodegenMeaning.GeneratedPreserves(ProgramOf(f, c), args, log, oracle, rt);
  }

  // ---------------------------------------------------------------- suites

  /** Validators of one class that others may call; those with a designated array
      argument are entry points and not among them. */
  datatype Suite = Suite(scripts: map<string, Script.Function>, loaders: set<string>, receiver: string, vocabulary: Script.Vocabulary)

  function Inner(suite: Suite): Dialect {
    Dialect(suite.receiver, suite.loaders, suite.vocabulary, None, false)
  }

  function Arities(suite: Suite): CallArity.Arities {
    map name | name in suite.scripts :: |suite.scripts[name].params|
  }

  /** Beside the suite the generated function compiles: its bodies all return, and it
      calls the suite's validators with as many arguments as they have parameters. */
  predicate TypeChecks(f: Script.Function, c: Dialect, suite: Suite) {
    Compiles(f, c) && CallArity.FitsBody(ProgramOf(f, c).body, Arities(suite))
  }

  ghost predicate SuiteCompiles(suite: Suite) {
    forall name | name in suite.scripts :: TypeChecks(suite.scripts[name], Inner(suite), suite)
  }

  /** What a call answers when the call depth is used up. */
  const TOO_DEEP := Dependency("RangeError", "call depth")

  /** What stands for a call that does not compile. */
  const MISFIT := Dependency("E0061", "wrong number of arguments")

  /** The script's world: validators of the suite run their scripts, at most `depth` deep. */
  function ScriptWorld(suite: Suite, depth: nat, world: Oracle): Oracle
    decreases depth
  {
    (log: Log, callee: Callee, args: seq<Value>) =>
      if callee.Validator? && callee.name in suite.scripts then
        if depth == 0 then Reply(Failed(TOO_DEEP), log)
        else Script.Apply(suite.scripts[callee.name], args, log,
               Script.Realm(suite.loaders, suite.receiver, suite.vocabulary, ScriptWorld(suite, depth - 1, world)))
      else world(log, callee, args)
  }

  /** A world with no answer to a call of another length than the suite's validator has. */
  function Exact(suite: Suite, oracle: Oracle): Oracle {
    (log: Log, callee: Callee, args: seq<Value>) =>
      if CallArity.Fitting(callee, args, Arities(suite)) then oracle(log, callee, args) else Reply(Failed(MISFIT), log)
  }

  /** The generated module's world: validators of the suite run their generated functions,
      and nothing is filled in for an argument that is missing. */
  function RustWorld(suite: Suite, depth: nat, base: Rust.Runtime): Rust.Runtime
    decreases depth
  {
    Rust.Runtime(
      (log: Log, callee: Callee, args: seq<Value>) =>
        if !CallArity.Fitting(callee, args, Arities(suite)) then
          Rust.Response(Rust.Bad(Rust.Fault(MISFIT.kind, None, MISFIT.message)), log)
        else if callee.Validator? && callee.name in suite.scripts && Compiles(suite.scripts[callee.name], Inner(suite)) then
          if depth == 0 then Rust.Response(Rust.Bad(Rust.Fault("RangeError", None, "call depth")), log)
          else match Rust.Call(RustOf(suite.scripts[callee.name], Inner(suite)), args, log, RustWorld(suite, depth - 1, base))
            case Some(response) => response
            case None => Rust.Response(Rust.Bad(Rust.Fault("", None, "")), log)
        else base.call(log, callee, args),
      base.coerced)
  }

  /** End to end beside a suite: the script may call with any number of arguments, the
      generated function's world need only answer calls of the right length. */
  lemma FittingPreserves(f: Script.Function, args: seq<Value>, log: Log, c: Dialect, r: Script.Realm, suite: Suite, oracle: Oracle, rt: Rust.Runtime)
    requires TypeChecks(f, c, suite) && LoweringMeaning.SameWorld(r, c, Ir.Frame(args, None, oracle)) && LoweringMeaning.Conforms(args, c)
    requires LoweringMeaning.Modelled(oracle) && CodegenMeaning.SameRuntime(Exact(suite, oracle), rt)
    ensures var script := Script.Apply(f, args, log, r);
      script.answer != Failed(Unmodelled) &&
      CodegenMeaning.SameAnswer(script, Rust.Call(RustOf(f, c), args, log, rt))
  {
    ExactAlike(suite, oracle);
    hide LoweringMeaning.SameWorld, LoweringMeaning.Conforms, CodegenMeaning.SameRuntime, CodegenMeaning.SameAnswer, Script.Apply, Ir.Call, Rust.Call,
         Codegen.DefinitelyReturns, Ir.WellScoped, Exact, CallArity.AlikeOn, CallArity.FitsBody, Arities;
    LoweringMeaning.LoweringPreserves(f, args, log, c, r, oracle);
    LoweringScope.LoweringWellScoped(f, c);
    CallArity.CallAlike(ProgramOf(f, c), args, log, oracle, Exact(suite, oracle), Arities(suite));
    CodegenMeaning.GeneratedPreserves(ProgramOf(f, c), args, log, Exact(suite, oracle), rt);
  }

  lemma ExactAlike(suite: Suite, oracle: Oracle)
    ensures CallArity.AlikeOn(oracle, Exact(suite, oracle), Arities(suite))
  {}

  /** To any call depth, a suite's scripts and its generated module are one world to calls
      of the right length. */
  lemma {:induction false} WorldsAgree(suite: Suite, depth: nat, world: Oracle, base: Rust.Runtime)
    requires SuiteCompiles(suite) && LoweringMeaning.Modelled(world) && CodegenMeaning.SameRuntime(world, base)
    ensures LoweringMeaning.Modelled(ScriptWorld(suite, depth, world))
    ensures CodegenMeaning.SameRuntime(Exact(suite, ScriptWorld(suite, depth, world)), RustWorld(suite, depth, base))
    decreases depth
  {
    hide *;
    if depth > 0 { WorldsAgree(suite, depth - 1, world, base); }
    var o, rt := ScriptWorld(suite, depth, world), RustWorld(suite, depth, base);
    forall log: Log, callee: Callee, args: seq<Value>
      ensures CallAgrees(Exact(suite, o), rt, log, callee, args) && o(log, callee, args).answer != Failed(Unmodelled)
    {
      CallsAgree(suite, depth, world, base, log, callee, args);
    }
    AgreeEverywhere(o, Exact(suite, o), rt);
  }

  ghost predicate CallAgrees(o: Oracle, rt: Rust.Runtime, log: Log, callee: Callee, args: seq<Value>) {
    var a, b := o(log, callee, args), rt.call(log, callee, args);
    a.answer != Failed(Unmodelled) && a.log == b.log &&
    match a.answer
    case Done(v) => b.result == Rust.Ok(v)
    case Failed(x) => b.result.Bad? && CodegenMeaning.Reports(x, b.result.fault)
  }

  lemma AgreeEverywhere(o: Oracle, exact: Oracle, rt: Rust.Runtime)
    requires forall log, callee, args :: CallAgrees(exact, rt, log, callee, args) && o(log, callee, args).answer != Failed(Unmodelled)
    ensures LoweringMeaning.Modelled(o) && CodegenMeaning.SameRuntime(exact, rt)
  {
    assert CodegenMeaning.SameRuntime(exact, rt) by {
      forall log: Log, callee: Callee, args: seq<Value>
        ensures var a, b := exact(log, callee, args), rt.call(log, callee, args);
          a.log == b.log && (match a.answer
            case Done(v) => b.result == Rust.Ok(v)
            case Failed(x) => b.result.Bad? && CodegenMeaning.Reports(x, b.result.fault))
      {
        assert CallAgrees(exact, rt, log, callee, args);
      }
    }
  }

  lemma CallsAgree(suite: Suite, depth: nat, world: Oracle, base: Rust.Runtime, log: Log, callee: Callee, args: seq<Value>)
    requires SuiteCompiles(suite) && LoweringMeaning.Modelled(world) && CodegenMeaning.SameRuntime(world, base)
    requires depth > 0 ==> LoweringMeaning.Modelled(ScriptWorld(suite, depth - 1, world))
    requires depth > 0 ==> CodegenMeaning.SameRuntime(Exact(suite, ScriptWorld(suite, depth - 1, world)), RustWorld(suite, depth - 1, base))
    ensures CallAgrees(Exact(suite, ScriptWorld(suite, depth, world)), RustWorld(suite, depth, base), log, callee, args)
    ensures ScriptWorld(suite, depth, world)(log, callee, args).answer != Failed(Unmodelled)
  {
    if callee.Validator? && callee.name in suite.scripts {
      var f, c := suite.scripts[callee.name], Inner(suite);
      assert TypeChecks(f, c, suite);
      if depth > 0 {
        var o, rt := ScriptWorld(suite, depth - 1, world), RustWorld(suite, depth - 1, base);
        var r := Script.Realm(suite.loaders, suite.receiver, suite.vocabulary, o);
        assert LoweringMeaning.SameWorld(r, c, Ir.Frame(args, None, o)) && LoweringMeaning.Conforms(args, c);
        hide *;
        FittingPreserves(f, args, log, c, r, suite, o, rt);
        SuiteCall(suite, depth, world, base, log, callee, args);
        SameCall(suite, ScriptWorld(suite, depth, world), RustWorld(suite, depth, base), log, callee, args,
                 Rust.Call(RustOf(f, c), args, log, rt));
      }
    }
  }

  lemma SameCall(suite: Suite, o: Oracle, rt: Rust.Runtime, log: Log, callee: Callee, args: seq<Value>, rust: Option<Rust.Response>)
    requires o(log, callee, args).answer != Failed(Unmodelled) && CodegenMeaning.SameAnswer(o(log, callee, args), rust)
    requires rt.call(log, callee, args) ==
      if !CallArity.Fitting(callee, args, Arities(suite)) then Rust.Response(Rust.Bad(Rust.Fault(MISFIT.kind, None, MISFIT.message)), log)
      else match rust
        case Some(response) => response
        case None => Rust.Response(Rust.Bad(Rust.Fault("", None, "")), log)
    ensures CallAgrees(Exact(suite, o), rt, log, callee, args)
  {
    hide CallArity.Fitting, Arities;
  }

  /** What one call into the suite unfolds to. */
  lemma SuiteCall(suite: Suite, depth: nat, world: Oracle, base: Rust.Runtime, log: Log, callee: Callee, args: seq<Value>)
    requires depth > 0 && callee.Validator? && callee.name in suite.scripts && Compiles(suite.scripts[callee.name], Inner(suite))
    ensures ScriptWorld(suite, depth, world)(log, callee, args) ==
      Script.Apply(suite.scripts[callee.name], args, log,
        Script.Realm(suite.loaders, suite.receiver, suite.vocabulary, ScriptWorld(suite, depth - 1, world)))
    ensures RustWorld(suite, depth, base).call(log, callee, args) ==
      if !CallArity.Fitting(callee, args, Arities(suite)) then Rust.Response(Rust.Bad(Rust.Fault(MISFIT.kind, None, MISFIT.message)), log)
      else match Rust.Call(RustOf(suite.scripts[callee.name], Inner(suite)), args, log, RustWorld(suite, depth - 1, base))
        case Some(response) => response
        case None => Rust.Response(Rust.Bad(Rust.Fault("", None, "")), log)
  {
    hide Script.Apply, Rust.Call, Compiles, RustOf;
  }

  /** Whole runs: an entry validator and everything it calls, script against Rust. */
  lemma SuitePreserves(suite: Suite, entry: Script.Function, c: Dialect, depth: nat, args: seq<Value>, log: Log, world: Oracle, base: Rust.Runtime)
    requires SuiteCompiles(suite) && LoweringMeaning.Modelled(world) && CodegenMeaning.SameRuntime(world, base)
    requires c.receiver == suite.receiver && c.requires_ == suite.loaders && c.vocabulary == suite.vocabulary
    requires TypeChecks(entry, c, suite) && LoweringMeaning.Conforms(args, c)
    ensures var script := Script.Apply(entry, args, log, Script.Realm(suite.loaders, suite.receiver, suite.vocabulary, ScriptWorld(suite, depth, world)));
      script.answer != Failed(Unmodelled) &&
      CodegenMeaning.SameAnswer(script, Rust.Call(RustOf(entry, c), args, log, RustWorld(suite, depth, base)))
  {
    var o, rt := ScriptWorld(suite, depth, world), RustWorld(suite, depth, base);
    WorldsAgree(suite, depth, world, base);
    hide ScriptWorld, RustWorld, Exact, Script.Apply, Rust.Call, TypeChecks, RustOf, CodegenMeaning.SameRuntime, LoweringMeaning.Modelled, CodegenMeaning.SameAnswer, SuiteCompiles, LoweringMeaning.Conforms;
    FittingPreserves(entry, args, log, c, Script.Realm(suite.loaders, suite.receiver, suite.vocabulary, o), suite, o, rt);
  }

  // ---------------------------------------------------------------- the two limits

  /** `function (a, b, c, d) { return d; }` */
  function FourParameters(): Script.Function {
    Script.Function(None, false, false, false,
      [Script.Param(Some("a"), false), Script.Param(Some("b"), false), Script.Param(Some("c"), false), Script.Param(Some("d"), false)],
      [Script.Return(Some(Script.Ident("d")))])
  }

  const FOURTH := [Ir.Return(Ir.Argument(3))]

  lemma FourParametersLower(c: Dialect)
    ensures LowerFunction(FourParameters(), c).Accepted? && LowerFunction(FourParameters(), c).value == Ir.Program(4, FOURTH)
  {
    var f := FourParameters();
    var locals := ParamLocals(f.params, 4);
    assert locals["d"] == Ir.Argument(3) by {
      assert ParamLocals(f.params, 4) == ParamLocals(f.params, 3)["d" := Ir.Argument(3)];
    }
    assert f.body[1..] == [];
    var s := Scope(locals, 0, 0, 0, {}, {});
    assert Script.VarNames(f.body) == [] && Script.StmtsAssigned(f.body) == {};
    assert DeclareScope(f.body, s) == Accepted((), s);
    assert LowerStmts(f.body[1..], s, c) == Accepted([], s);
    assert LowerStmt(f.body[0], s, c) == Accepted(FOURTH, s);
    assert LowerStmts(f.body, s, c) == Accepted(FOURTH, s) by { assert FOURTH + [] == FOURTH; }
    hide ParamLocals, DeclareScope, LowerStmts;
    assert forall p | p in f.params :: !p.initialized && p.name.Some?;
  }

  lemma FourParametersRun(args: seq<Value>, r: Script.Realm)
    requires |args| == 4
    ensures Script.Apply(FourParameters(), args, [], r) == Reply(Done(args[3]), [])
  {
    var f := FourParameters();
    var frame := Script.ParamFrame(f.params, args, 4);
    assert frame["d"] == args[3] by {
      assert frame == Script.ParamFrame(f.params, args, 3)["d" := ArgAt(args, 3)];
    }
    var env := Script.Top(Script.Hoist(frame, f.body));
    assert Script.Eval(Script.Ident("d"), env, [], r) == Val(args[3], env, []);
    assert Script.RunStmt(f.body[0], env, [], r) == Returned(args[3], env, []);
    assert Script.Run(f.body, env, [], r) == Returned(args[3], env, []);
  }

  /** With a fourth parameter the compiled program no longer means the script: argument
      3 is the element of a callback. The generator is what refuses such programs. */
  lemma FourParametersGoWrong(c: Dialect, r: Script.Realm, args: seq<Value>, oracle: Oracle)
    requires |args| == 4
    ensures var f := FourParameters();
      LowerFunction(f, c).Accepted? && Script.Apply(f, args, [], r) == Reply(Done(args[3]), []) &&
      Ir.Call(LowerFunction(f, c).value, args, [], oracle).answer == Failed(Unmodelled) &&
      Codegen.GenProgram(LowerFunction(f, c).value).Error?
  {
    assert FOURTH[1..] == [];
    assert Ir.RunStmt(FOURTH[0], map[], [], Ir.Frame(args, None, oracle)) == Raised(Unmodelled, []);
    assert Ir.Call(Ir.Program(4, FOURTH), args, [], oracle).answer == Failed(Unmodelled);
    hide LowerFunction, Script.Apply, Ir.Call;
    FourParametersLower(c);
    FourParametersRun(args, r);
  }
}
