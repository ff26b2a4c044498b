/** Lowering takes exactly the qualified validators, and the generator exactly those of
    them that are generable. */
module Acceptance {
  import opened Values
  import opened Script
  import opened Lowering
  import opened LoweringFacts
  import opened TransformArity
  import Codegen
  import CallArity
  import Pipeline
  import Ir
  import LoweringNames
  import LoweringRespelt
  import Q = Qualification

  type Sight = Q.Sight
  type Rules = Q.Rules

  // ---------------------------------------------------------------- sights and scopes

  /** What the compiler holds for a name, by what the name stands for. */
  ghost predicate Holds(b: Q.Binder, at: Ir.E, s: Scope) {
    match b
    case Parameter(i) => at == Ir.Argument(i)
    case Element => at == Ir.Argument(Ir.ITEM)
    case Own => at.Slot? && at.index < s.slots && (s.mapDepth != 0 ==> s.mapFloor <= at.index)
    case Captured => at.Slot? && at.index < s.slots && s.mapDepth != 0 && at.index < s.mapFloor
  }

  /** Each name holds what it stands for, and no two variables share a slot. */
  ghost predicate NamesAgree(names: map<string, Q.Binder>, s: Scope) {
    && (forall n :: n in names <==> n in s.locals)
    && (forall n | n in names :: Holds(names[n], s.locals[n], s))
    && (forall n, m | n in names && m in names && Q.Variable(names[n]) && s.locals[n] == s.locals[m] :: n == m)
  }

  /** The analyses say of a variable's slot what the sight says of its name. */
  ghost predicate Analysed(n: string, v: Sight, s: Scope) {
    n in s.locals && s.locals[n].Slot? &&
    (n in v.changing <==> s.locals[n].index in s.mutable) && (n in v.arrays <==> s.locals[n].index in s.arrays)
  }

  /** The analyses speak of slots given out. */
  ghost predicate Below(s: Scope) {
    forall i | i in s.mutable || i in s.arrays :: i < s.slots
  }

  /** The compiler's state says of each name what the sight says. */
  ghost predicate Agree(v: Sight, s: Scope) {
    && (v.inCallback <==> s.mapDepth != 0) && (s.mapDepth != 0 ==> s.mapFloor <= s.slots)
    && NamesAgree(v.names, s) && Below(s)
    && (forall n | n in v.names && Q.Variable(v.names[n]) :: Analysed(n, v, s))
  }

  lemma AgreeExtends(v: Sight, s: Scope, s1: Scope)
    requires Agree(v, s) && Extends(s, s1)
    ensures Agree(v, s1)
  {
    forall n | n in v.names ensures Holds(v.names[n], s1.locals[n], s1) {
      assert Holds(v.names[n], s.locals[n], s);
    }
    forall n | n in v.names && Q.Variable(v.names[n]) ensures Analysed(n, v, s1) {
      assert Analysed(n, v, s);
    }
  }

  lemma ModuleLoads(e: Expr, v: Sight, s: Scope, c: Dialect)
    requires Agree(v, s)
    ensures forall m :: Module(e, s, c) == Some(m) <==> Q.Loads(e, m, v, c)
  {
    hide Holds;
  }

  lemma {:induction false} Unwrapped(e: Expr, s: Scope, c: Dialect)
    ensures LowerExpr(e, s, c) == LowerExpr(Unparen(e), s, c) && !Unparen(e).Paren?
  {
    if e.Paren? { Unwrapped(e.inner, s, c); }
  }

  // ---------------------------------------------------------------- shapes

  /** The form of an accepted expression shows in what it becomes. */
  lemma Shapes(e: Expr, s: Scope, c: Dialect)
    requires !e.Paren? && LowerExpr(e, s, c).Accepted?
    ensures var ir := LowerExpr(e, s, c).value;
      && (e.Ident? <==> (e.Ident? && e.name in s.locals && ir == s.locals[e.name]))
      && (ir.Argument? || ir.Slot? ==> e.Ident?)
      && (ir.Integer? && !e.Ident? ==> e.NumberLit?) && (e.NumberLit? ==> ir.Integer?)
      && (ir.FieldOf? && !e.Ident? ==> e.Member? && ir.field == e.property && LowerExpr(e.base, s, c).Accepted? && ir.base == LowerExpr(e.base, s, c).value)
      && (e.Member? ==> ir.FieldOf? || ir.Metric?)
      && (ir.Map? && !e.Ident? ==> e.Call? && e.callee.Member? && e.callee.property == MAP)
      && (e.Call? && e.callee.Member? && e.callee.property == MAP ==> ir.Map?)
      && (ir.ObjectOf? && !e.Ident? ==> e.ObjectLit?)
      && (e.ObjectLit? ==> LowerProperties(e.properties, [], s, c).Accepted? && ir == Ir.ObjectOf(LowerProperties(e.properties, [], s, c).value))
  {
    hide LowerAll, LowerCall, LowerProperties, OrdinaryArray, Numeric, Module, HasEntry;
    if e.Call? { CallShapes(e, s, c); }
  }

  lemma CallShapes(e: Expr, s: Scope, c: Dialect)
    requires e.Call? && LowerCall(e, s, c).Accepted?
    ensures var ir := LowerCall(e, s, c).value;
      (ir.Map? || ir.Validate? || ir.Apply?) && (ir.Map? <==> e.callee.Member? && e.callee.property == MAP)
  {
    hide LowerExpr, LowerArguments, LowerArgument, LowerCallback, CallbackRefusal, OrdinaryArray, Module;
  }

  /** Metrics are told by a loaded module, which is a call and no name. */
  lemma MetricIsNoField(e: Expr, s: Scope, c: Dialect)
    requires e.Member? && LowerExpr(e, s, c).Accepted? && LowerExpr(e, s, c).value.Metric?
    ensures e.base.Member?
  {
    hide LowerAll, LowerCall, LowerProperties, OrdinaryArray, Numeric, Module, HasEntry;
  }

  lemma BareMember(e: Expr)
    requires e.Member?
    ensures Unparen(e) == e
  {}

  lemma ArrayIsArray(e: Expr, v: Sight, s: Scope, c: Dialect)
    requires Agree(v, s) && LowerExpr(e, s, c).Accepted?
    ensures OrdinaryArray(LowerExpr(e, s, c).value, LowerExpr(e, s, c).scope, c) <==> Q.OrdinaryArray(e, v, c)
  {
    ExprExtends(e, s, c);
    Unwrapped(e, s, c);
    var u := Unparen(e);
    Shapes(u, s, c);
    var ir := LowerExpr(u, s, c).value;
    hide LowerExpr, Unparen, LowerProperties;
    match u
    case Ident(n) =>
      assert Holds(v.names[n], s.locals[n], s);
      if Q.Variable(v.names[n]) { assert Analysed(n, v, s); }
    case Member(base, property, _) =>
      Unwrapped(base, s, c);
      if ir.Metric? {
        MetricIsNoField(u, s, c);
        BareMember(base);
      } else {
        Shapes(Unparen(base), s, c);
        if Unparen(base).Ident? {
          var n := Unparen(base).name;
          assert Holds(v.names[n], s.locals[n], s);
        }
      }
    case _ =>
  }

  lemma NumericIsNumeric(e: Expr, v: Sight, s: Scope, s1: Scope, c: Dialect)
    requires Agree(v, s) && LowerExpr(e, s, c).Accepted? && Extends(LowerExpr(e, s, c).scope, s1)
    ensures Numeric(LowerExpr(e, s, c).value, s1, c) <==> Q.Numeric(e, v, c)
  {
    Unwrapped(e, s, c);
    hide LowerExpr, Unparen, Agree;
    var u := Unparen(e);
    Shapes(u, s, c);
    if u.Ident? { NameIsNoNumber(u, v, s, c); }
    if u.Member? { LengthIsLength(u, v, s, s1, c); }
    hide OrdinaryArray, Q.OrdinaryArray, LowerProperties;
  }

  lemma NameIsNoNumber(e: Expr, v: Sight, s: Scope, c: Dialect)
    requires Agree(v, s) && e.Ident? && LowerExpr(e, s, c).Accepted?
    ensures !LowerExpr(e, s, c).value.Integer? && !LowerExpr(e, s, c).value.FieldOf?
  {
    assert Holds(v.names[e.name], s.locals[e.name], s);
  }

  lemma LengthIsLength(e: Expr, v: Sight, s: Scope, s1: Scope, c: Dialect)
    requires Agree(v, s) && e.Member? && LowerExpr(e, s, c).Accepted? && Extends(LowerExpr(e, s, c).scope, s1)
    ensures Numeric(LowerExpr(e, s, c).value, s1, c) <==> e.property == LENGTH && Q.OrdinaryArray(e.base, v, c)
  {
    ExprExtends(e, s, c);
    Shapes(e, s, c);
    var ir := LowerExpr(e, s, c).value;
    if ir.FieldOf? {
      ArrayIsArray(e.base, v, s, c);
      ExprExtends(e.base, s, c);
    } else {
      MetricIsNoField(e, s, c);
      BareMember(e.base);
      MetricIsNoArray(e, s, c);
    }
    hide LowerExpr, LowerProperties, Agree, Unparen;
  }

  lemma MetricIsNoArray(e: Expr, s: Scope, c: Dialect)
    requires e.Member? && LowerExpr(e, s, c).Accepted? && LowerExpr(e, s, c).value.Metric?
    ensures e.base.Member? && !Unparen(e.base.base).Ident?
  {
    hide LowerAll, LowerCall, LowerProperties, OrdinaryArray, Numeric, HasEntry;
  }

  lemma {:induction false} EntriesHaveKeys(ps: seq<Property>, entries: seq<Ir.Entry>, s: Scope, c: Dialect)
    requires LowerProperties(ps, entries, s, c).Accepted?
    ensures var all := LowerProperties(ps, entries, s, c).value;
      |all| == |entries| + |ps| && forall k :: HasEntry(all, k) <==> HasEntry(entries, k) || Q.HasKey(ps, k)
  {
    hide LowerProperty;
    if ps != [] {
      var low := LowerProperty(ps[0], entries, s, c);
      var more := entries + [Ir.Entry(ps[0].key.value, low.value)];
      EntriesHaveKeys(ps[1..], more, low.scope, c);
      OneMoreEntry(entries, Ir.Entry(ps[0].key.value, low.value));
      KeyOfFirst(ps);
    }
  }

  lemma OneMoreEntry(entries: seq<Ir.Entry>, entry: Ir.Entry)
    ensures forall k :: HasEntry(entries + [entry], k) <==> HasEntry(entries, k) || entry.key == k
  {
    var more := entries + [entry];
    forall k ensures HasEntry(more, k) <==> HasEntry(entries, k) || entry.key == k {
      if HasEntry(entries, k) {
        var i :| 0 <= i < |entries| && entries[i].key == k;
        assert more[i].key == k;
      }
      assert more[|entries|].key == entry.key;
    }
  }

  lemma KeyOfFirst(ps: seq<Property>)
    requires ps != [] && ps[0].Property? && ps[0].key.Some?
    ensures forall k :: Q.HasKey(ps, k) <==> k == ps[0].key.value || Q.HasKey(ps[1..], k)
  {
    forall k ensures Q.HasKey(ps, k) <==> k == ps[0].key.value || Q.HasKey(ps[1..], k) {
      if Q.HasKey(ps[1..], k) {
        var i :| 0 <= i < |ps[1..]| && ps[1..][i].Property? && ps[1..][i].key == Some(k);
        assert ps[i + 1] == ps[1..][i];
      }
      if Q.HasKey(ps, k) && k != ps[0].key.value {
        var i :| 0 <= i < |ps| && ps[i].Property? && ps[i].key == Some(k);
        assert ps[1..][i - 1] == ps[i];
      }
    }
  }

  const CONTEXT := Ir.ObjectOf([Ir.Entry(COLLECTION, Ir.Argument(0))])

  lemma ContextIsCollection(e: Expr, v: Sight, s: Scope, c: Dialect)
    requires Agree(v, s) && LowerExpr(e, s, c).Accepted?
    ensures LowerExpr(e, s, c).value == CONTEXT <==> Q.NamesCollection(e, v)
  {
    Unwrapped(e, s, c);
    var u := Unparen(e);
    Shapes(u, s, c);
    if u.Ident? { assert Holds(v.names[u.name], s.locals[u.name], s); }
    hide LowerExpr, Unparen;
    if u.ObjectLit? {
      var ps := u.properties;
      hide LowerProperties;
      EntriesHaveKeys(ps, [], s, c);
      if |ps| == 1 { OneEntry(ps, v, s, c); }
    }
  }

  lemma OneEntry(ps: seq<Property>, v: Sight, s: Scope, c: Dialect)
    requires Agree(v, s) && |ps| == 1 && LowerProperties(ps, [], s, c).Accepted?
    ensures ps[0].Property? && ps[0].key.Some?
    ensures LowerProperties(ps, [], s, c).value == [Ir.Entry(COLLECTION, Ir.Argument(0))] <==>
      ps[0].key == Some(COLLECTION) && Unparen(ps[0].value).Ident? && Q.Sees(v, Unparen(ps[0].value).name, Q.Parameter(0))
  {
    var x := ps[0].value;
    assert LowerProperty(ps[0], [], s, c).Accepted? && LowerExpr(x, s, c).Accepted?;
    assert LowerProperties(ps, [], s, c).value == [Ir.Entry(ps[0].key.value, LowerExpr(x, s, c).value)] by {
      var low := LowerProperty(ps[0], [], s, c);
      assert ps[1..] == [] && [] + [Ir.Entry(ps[0].key.value, low.value)] == [Ir.Entry(ps[0].key.value, low.value)];
      hide LowerExpr;
    }
    hide LowerProperties, LowerProperty;
    Unwrapped(x, s, c);
    Shapes(Unparen(x), s, c);
    hide LowerExpr;
    if Unparen(x).Ident? {
      var n := Unparen(x).name;
      assert Holds(v.names[n], s.locals[n], s);
    }
  }

  // ---------------------------------------------------------------- entering bodies

  lemma EnterAgrees(param: string, v: Sight, s: Scope)
    requires Agree(v, s) && !v.inCallback
    ensures Agree(Q.Entering(param, v), EnterCallback(param, s))
  {
    var w, t := Q.Entering(param, v), EnterCallback(param, s);
    forall n | n in w.names ensures Holds(w.names[n], t.locals[n], t) {
      if n != param { assert Holds(v.names[n], s.locals[n], s); }
    }
    forall n | n in w.names && Q.Variable(w.names[n])
      ensures n in v.names && Q.Variable(v.names[n]) && t.locals[n] == s.locals[n] && Analysed(n, w, t)
    {
      assert n != param && Analysed(n, v, s);
    }
  }

  /** The names collected are those declared more than once. */
  lemma {:induction false} AgainIsRepeated(names: seq<string>, own: set<string>, again: set<string>, s: Scope)
    requires DeclareNames(names, own, again, s).Accepted?
    ensures forall n :: n in DeclareNames(names, own, again, s).value ==> n in again || Q.Repeated(names, n) || (n in own && n in names)
  {
    if names != [] {
      var n0, rest := names[0], names[1..];
      forall n | Q.Repeated(rest, n) ensures Q.Repeated(names, n) {
        var i, j :| 0 <= i < j < |rest| && rest[i] == n && rest[j] == n;
        assert names[i + 1] == n && names[j + 1] == n;
      }
      if n0 in own {
        AgainIsRepeated(rest, own, again + {n0}, s);
      } else {
        AgainIsRepeated(rest, own + {n0}, again, s.(locals := s.locals[n0 := Ir.Slot(s.slots)], slots := s.slots + 1));
        if n0 in rest {
          var j :| 0 <= j < |rest| && rest[j] == n0;
          assert names[0] == n0 && names[j + 1] == n0;
        }
      }
    }
  }

  lemma DeclaredNamesAgree(names: seq<string>, before: map<string, Q.Binder>, s: Scope, again: set<string>, s1: Scope)
    requires NamesAgree(before, s) && Declares(names, {}, {}, s, again, s1) && (s.mapDepth != 0 ==> s.mapFloor <= s.slots)
    ensures NamesAgree(Q.Hoisted(names, before), s1)
    ensures forall n | n in names :: n in s1.locals && s1.locals[n].Slot? && s.slots <= s1.locals[n].index
    ensures forall n | n in before && n !in names :: s1.locals[n] == s.locals[n]
  {
    var w := Q.Hoisted(names, before);
    DeclaredBasics(names, before, s, again, s1);
    forall n | n in w ensures Holds(w[n], s1.locals[n], s1) {
      NewAndOld(names, before, s, again, s1, n);
    }
    forall n, m | n in w && m in w && Q.Variable(w[n]) && s1.locals[n] == s1.locals[m] ensures n == m {
      NewAndOld(names, before, s, again, s1, n);
      NewAndOld(names, before, s, again, s1, m);
      SameSlot(names, before, s, again, s1, n, m);
    }
    hide Holds, Declares;
  }

  lemma DeclaredBasics(names: seq<string>, before: map<string, Q.Binder>, s: Scope, again: set<string>, s1: Scope)
    requires NamesAgree(before, s) && Declares(names, {}, {}, s, again, s1)
    ensures forall n :: n in Q.Hoisted(names, before) <==> n in s1.locals
    ensures forall n | n in names :: n in s1.locals && s1.locals[n].Slot? && s.slots <= s1.locals[n].index
    ensures forall n | n in before && n !in names :: n in s1.locals && s1.locals[n] == s.locals[n]
  {
    hide Holds;
  }

  lemma SameSlot(names: seq<string>, before: map<string, Q.Binder>, s: Scope, again: set<string>, s1: Scope, n: string, m: string)
    requires NamesAgree(before, s) && Declares(names, {}, {}, s, again, s1) && n in Q.Hoisted(names, before) && m in Q.Hoisted(names, before)
    requires n in s1.locals && m in s1.locals && s1.locals[n] == s1.locals[m] && Q.Variable(Q.Hoisted(names, before)[n])
    requires n in names ==> s1.locals[n].Slot? && s.slots <= s1.locals[n].index
    requires n !in names ==> n in s.locals && s1.locals[n] == s.locals[n] && (s1.locals[n].Slot? ==> s1.locals[n].index < s.slots)
    requires m in names ==> s1.locals[m].Slot? && s.slots <= s1.locals[m].index
    requires m !in names ==> m in s.locals && s1.locals[m] == s.locals[m] && (s1.locals[m].Slot? ==> s1.locals[m].index < s.slots)
    ensures n == m
  {
    hide Holds;
    assert n in names <==> m in names;
  }

  lemma NewAndOld(names: seq<string>, before: map<string, Q.Binder>, s: Scope, again: set<string>, s1: Scope, n: string)
    requires NamesAgree(before, s) && Declares(names, {}, {}, s, again, s1) && n in Q.Hoisted(names, before)
    requires s.mapDepth != 0 ==> s.mapFloor <= s.slots
    ensures n in s1.locals && Holds(Q.Hoisted(names, before)[n], s1.locals[n], s1)
    ensures if n in names then s1.locals[n].Slot? && s.slots <= s1.locals[n].index
            else n in before && n in s.locals && s1.locals[n] == s.locals[n] && (s1.locals[n].Slot? ==> s1.locals[n].index < s.slots)
  {
    if n !in names { assert Holds(before[n], s.locals[n], s); }
  }

  lemma SlotsByName(names: map<string, Q.Binder>, some: set<string>, s: Scope, n: string)
    requires NamesAgree(names, s) && n in names && Q.Variable(names[n])
    ensures s.locals[n].Slot? && (s.locals[n].index in SlotsOf(some, s.locals) <==> n in some)
  {
    assert Holds(names[n], s.locals[n], s);
    if s.locals[n].index in SlotsOf(some, s.locals) {
      var m :| m in some && m in s.locals && s.locals[m].Slot? && s.locals[m].index == s.locals[n].index;
      assert s.locals[n] == s.locals[m];
    }
  }

  lemma SlotsBelow(names: map<string, Q.Binder>, some: set<string>, s: Scope)
    requires NamesAgree(names, s)
    ensures forall i | i in SlotsOf(some, s.locals) :: i < s.slots
  {
    forall i | i in SlotsOf(some, s.locals) ensures i < s.slots {
      var n :| n in some && n in s.locals && s.locals[n].Slot? && s.locals[n].index == i;
      assert Holds(names[n], s.locals[n], s);
    }
  }

  lemma AnalysesAside(names: map<string, Q.Binder>, s: Scope, mutable: set<nat>, arrays: set<nat>)
    requires NamesAgree(names, s)
    ensures NamesAgree(names, s.(mutable := mutable, arrays := arrays))
  {
    var t := s.(mutable := mutable, arrays := arrays);
    forall n | n in names ensures Holds(names[n], t.locals[n], t) { assert Holds(names[n], s.locals[n], s); }
  }

  /** What the declared names make of the analyses. */
  lemma AnalysesDeclared(names: seq<string>, v: Sight, s: Scope, s1: Scope, some: set<string>)
    requires Agree(v, s) && NamesAgree(Q.Hoisted(names, v.names), s1)
    requires s1 == s.(locals := s1.locals, slots := s1.slots) && s.slots <= s1.slots
    requires forall n | n in names :: n in s1.locals && s1.locals[n].Slot? && s.slots <= s1.locals[n].index
    requires forall n | n in v.names && n !in names :: s1.locals[n] == s.locals[n]
    ensures var declared := set n | n in names;
      Agree(Q.Sight(Q.Hoisted(names, v.names), v.inCallback, (v.changing - declared) + some, v.arrays - declared),
            s1.(mutable := s1.mutable + SlotsOf(some, s1.locals)))
  {
    var declared := set n | n in names;
    var w := Q.Sight(Q.Hoisted(names, v.names), v.inCallback, (v.changing - declared) + some, v.arrays - declared);
    var t := s1.(mutable := s1.mutable + SlotsOf(some, s1.locals));
    hide NamesAgree, SlotsOf, Holds, Analysed;
    SlotsBelow(w.names, some, s1);
    AnalysesAside(w.names, s1, t.mutable, t.arrays);
    forall n | n in w.names && Q.Variable(w.names[n]) ensures Analysed(n, w, t) {
      SlotsByName(w.names, some, s1, n);
      if n in names {
        NewSlot(n, w, s, s1, some);
      } else {
        assert n in v.names && v.names[n] == w.names[n] && Analysed(n, v, s);
        OldSlot(n, v, w, s, t, some);
      }
    }
  }

  lemma NewSlot(n: string, w: Sight, s: Scope, s1: Scope, some: set<string>)
    requires Below(s) && s1 == s.(locals := s1.locals, slots := s1.slots) && n in s1.locals && s1.locals[n].Slot?
    requires s.slots <= s1.locals[n].index && n !in w.arrays && (n in w.changing <==> n in some)
    requires s1.locals[n].index in SlotsOf(some, s1.locals) <==> n in some
    ensures Analysed(n, w, s1.(mutable := s1.mutable + SlotsOf(some, s1.locals)))
  {
    hide SlotsOf;
  }

  lemma OldSlot(n: string, v: Sight, w: Sight, s: Scope, t: Scope, some: set<string>)
    requires Analysed(n, v, s) && n in t.locals && t.locals[n] == s.locals[n] && t.arrays == s.arrays
    requires t.mutable == s.mutable + SlotsOf(some, t.locals)
    requires t.locals[n].index in SlotsOf(some, t.locals) <==> n in some
    requires (n in w.changing <==> n in v.changing || n in some) && (n in w.arrays <==> n in v.arrays)
    ensures Analysed(n, w, t)
  {
    hide SlotsOf;
  }

  lemma AgainExactly(names: seq<string>, s: Scope)
    requires DeclareNames(names, {}, {}, s).Accepted?
    ensures forall n :: n in DeclareNames(names, {}, {}, s).value <==> n in names && Q.Repeated(names, n)
  {
    DeclareNamesSpec(names, {}, {}, s);
    AgainIsRepeated(names, {}, {}, s);
    hide DeclareNames;
    forall n | Q.Repeated(names, n) ensures n in names && n in DeclareNames(names, {}, {}, s).value {
      var i, j :| 0 <= i < j < |names| && names[i] == n && names[j] == n;
    }
  }

  /** The scope after a body's declarations, in parts. */
  lemma DeclareParts(body: seq<Stmt>, s: Scope) returns (again: set<string>, s1: Scope)
    requires DeclareScope(body, s).Accepted?
    ensures Declares(VarNames(body), {}, {}, s, again, s1)
    ensures DeclareScope(body, s).scope == s1.(mutable := s1.mutable + SlotsOf(StmtsAssigned(body) + again, s1.locals))
    ensures forall n :: n in again <==> n in VarNames(body) && Q.Repeated(VarNames(body), n)
  {
    hide VarNames, StmtsAssigned, SlotsOf, Declares, Q.Repeated, DeclareNames;
    again, s1 := DeclareNames(VarNames(body), {}, {}, s).value, DeclareNames(VarNames(body), {}, {}, s).scope;
    DeclareNamesSpec(VarNames(body), {}, {}, s);
    AgainExactly(VarNames(body), s);
  }

  lemma DeclaringParts(body: seq<Stmt>, v: Sight, again: set<string>)
    requires forall n :: n in again <==> n in VarNames(body) && Q.Repeated(VarNames(body), n)
    ensures var declared := set n | n in VarNames(body);
      Q.Declaring(body, v) == Q.Sight(Q.Hoisted(VarNames(body), v.names), v.inCallback,
                                      (v.changing - declared) + (StmtsAssigned(body) + again), v.arrays - declared)
  {
    hide VarNames, StmtsAssigned, Q.Repeated, Q.Hoisted;
    var declared := set n | n in VarNames(body);
    assert again == set n | n in declared && Q.Repeated(VarNames(body), n);
  }

  lemma DeclareAgrees(body: seq<Stmt>, v: Sight, s: Scope)
    requires Agree(v, s) && DeclareScope(body, s).Accepted?
    ensures Agree(Q.Declaring(body, v), DeclareScope(body, s).scope)
    ensures forall n | n in VarNames(body) :: Q.Sees(Q.Declaring(body, v), n, Q.Own)
  {
    hide VarNames, StmtsAssigned, SlotsOf, DeclareScope, Q.Declaring, NamesAgree;
    var again, s1 := DeclareParts(body, s);
    DeclaringParts(body, v, again);
    DeclaredNamesAgree(VarNames(body), v.names, s, again, s1);
    AnalysesDeclared(VarNames(body), v, s, s1, StmtsAssigned(body) + again);
  }

  // ---------------------------------------------------------------- expressions

  ghost predicate Fits(e: Ir.E, r: Rules) {
    (r.unary ==> OneArgumentExpr(e)) && (r.returning ==> Codegen.ReturnsExpr(e)) && (r.arities.Some? ==> CallArity.FitsExpr(e, r.arities.value))
  }

  ghost predicate FitAll(es: seq<Ir.E>, r: Rules) {
    (r.unary ==> OneArgumentAll(es)) && (r.returning ==> Codegen.ReturnsAll(es)) && (r.arities.Some? ==> CallArity.FitsAll(es, r.arities.value))
  }

  ghost predicate FitEntries(entries: seq<Ir.Entry>, r: Rules) {
    (r.unary ==> OneArgumentEntries(entries)) && (r.returning ==> Codegen.ReturnsEntries(entries)) &&
    (r.arities.Some? ==> CallArity.FitsEntries(entries, r.arities.value))
  }

  ghost predicate FitsStmt(st: Ir.S, r: Rules) {
    (r.unary ==> OneArgumentStmt(st)) && (r.returning ==> Codegen.ReturnsStmt(st)) && (r.arities.Some? ==> CallArity.FitsStmt(st, r.arities.value))
  }

  ghost predicate FitsBody(body: seq<Ir.S>, r: Rules) {
    (r.unary ==> OneArgumentEach(body)) && (r.returning ==> Codegen.ReturnsBody(body)) && (r.arities.Some? ==> CallArity.FitsBody(body, r.arities.value))
  }

  /** Accepted, and what comes out is what the rules ask for. */
  ghost predicate Taken(low: Lowered<Ir.E>, r: Rules) {
    low.Accepted? && Fits(low.value, r)
  }

  ghost predicate TakenAll(low: Lowered<seq<Ir.E>>, r: Rules) {
    low.Accepted? && FitAll(low.value, r)
  }

  ghost predicate TakenEntries(low: Lowered<seq<Ir.Entry>>, r: Rules) {
    low.Accepted? && FitEntries(low.value, r)
  }

  ghost predicate TakenBody(low: Lowered<seq<Ir.S>>, r: Rules) {
    low.Accepted? && FitsBody(low.value, r)
  }

  /** Accepted, and what follows starts from an agreeing scope. */
  lemma Onward(e: Expr, v: Sight, s: Scope, c: Dialect)
    requires Agree(v, s)
    ensures LowerExpr(e, s, c).Accepted? ==> Agree(v, LowerExpr(e, s, c).scope)
  {
    if LowerExpr(e, s, c).Accepted? {
      ExprExtends(e, s, c);
      AgreeExtends(v, s, LowerExpr(e, s, c).scope);
    }
  }

  lemma {:induction false} ExprTaken(e: Expr, v: Sight, s: Scope, r: Rules)
    requires Agree(v, s)
    ensures Taken(LowerExpr(e, s, r.dialect), r) <==> Q.QualifiedExpr(e, v, r)
    decreases e, 3
  {
    hide *;
    match e
    case Paren(x) => ExprTaken(x, v, s, r); ParenSame(x, v, s, r);
    case LogicalNot(x) => ExprTaken(x, v, s, r); NotSame(x, v, s, r);
    case Member(_, _, _) => MemberTaken(e, v, s, r);
    case Logical(_, _, _) => LogicalTaken(e, v, s, r);
    case Binary(_, _, _) => BinaryTaken(e, v, s, r);
    case Conditional(_, _, _) => ConditionalTaken(e, v, s, r);
    case Assignment(_, _, _) => AssignmentTaken(e, v, s, r);
    case Comma(_, _) => CommaTaken(e, v, s, r);
    case ObjectLit(_) => ObjectTaken(e, v, s, r);
    case Call(_, _) => CallTaken(e, v, s, r);
    case _ => LeafTaken(e, v, s, r);
  }

  lemma ParenSame(x: Expr, v: Sight, s: Scope, r: Rules)
    ensures LowerExpr(Paren(x), s, r.dialect) == LowerExpr(x, s, r.dialect)
    ensures Q.QualifiedExpr(Paren(x), v, r) == Q.QualifiedExpr(x, v, r)
  {}

  lemma NotSame(x: Expr, v: Sight, s: Scope, r: Rules)
    ensures Taken(LowerExpr(LogicalNot(x), s, r.dialect), r) <==> Taken(LowerExpr(x, s, r.dialect), r)
    ensures Q.QualifiedExpr(LogicalNot(x), v, r) == Q.QualifiedExpr(x, v, r)
  {}

  lemma LeafTaken(e: Expr, v: Sight, s: Scope, r: Rules)
    requires Agree(v, s)
    requires e.Ident? || e.NullLit? || e.NumberLit? || e.StringLit? || e.Void? || e.New? || e.FunctionExpr? || e.OtherExpr?
    ensures Taken(LowerExpr(e, s, r.dialect), r) <==> Q.QualifiedExpr(e, v, r)
  {
    if e.Ident? && e.name in v.names { assert Holds(v.names[e.name], s.locals[e.name], s); }
  }

  lemma {:induction false} LogicalTaken(e: Expr, v: Sight, s: Scope, r: Rules)
    requires Agree(v, s) && e.Logical?
    ensures Taken(LowerExpr(e, s, r.dialect), r) <==> Q.QualifiedExpr(e, v, r)
    decreases e, 2
  {
    match e case Logical(op, left, right) =>
    Onward(left, v, s, r.dialect);
    ExprTaken(left, v, s, r);
    hide Agree;
    if LowerExpr(left, s, r.dialect).Accepted? { ExprTaken(right, v, LowerExpr(left, s, r.dialect).scope, r); }
  }

  lemma {:induction false} ConditionalTaken(e: Expr, v: Sight, s: Scope, r: Rules)
    requires Agree(v, s) && e.Conditional?
    ensures Taken(LowerExpr(e, s, r.dialect), r) <==> Q.QualifiedExpr(e, v, r)
    decreases e, 2
  {
    match e case Conditional(test, yes, no) =>
    var c := r.dialect;
    Onward(test, v, s, c);
    ExprTaken(test, v, s, r);
    hide Agree;
    if LowerExpr(test, s, c).Accepted? {
      var s1 := LowerExpr(test, s, c).scope;
      Onward(yes, v, s1, c);
      ExprTaken(yes, v, s1, r);
      if LowerExpr(yes, s1, c).Accepted? { ExprTaken(no, v, LowerExpr(yes, s1, c).scope, r); }
    }
  }

  lemma {:induction false} MemberTaken(e: Expr, v: Sight, s: Scope, r: Rules)
    requires Agree(v, s) && e.Member?
    ensures Taken(LowerExpr(e, s, r.dialect), r) <==> Q.QualifiedExpr(e, v, r)
    decreases e, 2
  {
    match e case Member(base, property, computed) =>
    var c := r.dialect;
    ExprTaken(base, v, s, r);
    if base.Member? { ModuleLoads(base.base, v, s, c); }
    if LowerExpr(base, s, c).Accepted? { LiteralKeys(base, property, v, s, c); }
    hide Agree, LowerCall, LowerAll, LowerProperties, Module, HasEntry, Q.QualifiedExpr, Q.Loads, Q.HasKey, Unparen;
  }

  /** An object written out right there is recognised through parentheses. */
  lemma LiteralKeys(e: Expr, key: string, v: Sight, s: Scope, c: Dialect)
    requires Agree(v, s) && LowerExpr(e, s, c).Accepted?
    ensures var ir := LowerExpr(e, s, c).value;
      (ir.ObjectOf? && HasEntry(ir.fields, key)) <==> (Unparen(e).ObjectLit? && Q.HasKey(Unparen(e).properties, key))
  {
    Unwrapped(e, s, c);
    var u := Unparen(e);
    Shapes(u, s, c);
    if u.Ident? { assert Holds(v.names[u.name], s.locals[u.name], s); }
    hide LowerExpr, Unparen, LowerProperties;
    if u.ObjectLit? { EntriesHaveKeys(u.properties, [], s, c); }
  }

  lemma {:induction false} BinaryTaken(e: Expr, v: Sight, s: Scope, r: Rules)
    requires Agree(v, s) && e.Binary?
    ensures Taken(LowerExpr(e, s, r.dialect), r) <==> Q.QualifiedExpr(e, v, r)
    decreases e, 2
  {
    match e case Binary(_, left, right) =>
    var c := r.dialect;
    hide *;
    BinaryForm(e, s, r);
    BinaryQualified(e, v, r);
    Onward(left, v, s, c);
    ExprTaken(left, v, s, r);
    TakenMeans(LowerExpr(left, s, c), r);
    if LowerExpr(left, s, c).Accepted? {
      var s1 := LowerExpr(left, s, c).scope;
      ExprTaken(right, v, s1, r);
      TakenMeans(LowerExpr(right, s1, c), r);
      if LowerExpr(right, s1, c).Accepted? {
        ExprExtends(right, s1, c);
        SameScope(LowerExpr(right, s1, c).scope);
        NumericIsNumeric(left, v, s, LowerExpr(right, s1, c).scope, c);
        NumericIsNumeric(right, v, s1, LowerExpr(right, s1, c).scope, c);
      }
    }
  }

  lemma SameScope(s: Scope)
    ensures Extends(s, s)
  {}

  ghost predicate NullTest(e: Expr)
    requires e.Binary?
  {
    (e.binaryOp.LooseEqual? || e.binaryOp.LooseUnequal?) && e.right.NullLit?
  }

  lemma BinaryForm(e: Expr, s: Scope, r: Rules)
    requires e.Binary?
    ensures NullTest(e) ==> (Taken(LowerExpr(e, s, r.dialect), r) <==> Taken(LowerExpr(e.left, s, r.dialect), r))
    ensures !NullTest(e) ==>
      var left := LowerExpr(e.left, s, r.dialect);
      Taken(LowerExpr(e, s, r.dialect), r) <==>
        e.binaryOp.GreaterThan? && left.Accepted? &&
          var right := LowerExpr(e.right, left.scope, r.dialect);
          right.Accepted? && Numeric(left.value, right.scope, r.dialect) && Numeric(right.value, right.scope, r.dialect) &&
          Fits(left.value, r) && Fits(right.value, r)
  {
    hide Numeric;
  }

  lemma BinaryQualified(e: Expr, v: Sight, r: Rules)
    requires e.Binary?
    ensures NullTest(e) ==> Q.QualifiedExpr(e, v, r) == Q.QualifiedExpr(e.left, v, r)
    ensures !NullTest(e) ==> (Q.QualifiedExpr(e, v, r) <==>
      e.binaryOp.GreaterThan? && Q.QualifiedExpr(e.left, v, r) && Q.QualifiedExpr(e.right, v, r) &&
      Q.Numeric(e.left, v, r.dialect) && Q.Numeric(e.right, v, r.dialect))
  {
    hide Q.Numeric;
  }

  lemma {:induction false} AssignmentTaken(e: Expr, v: Sight, s: Scope, r: Rules)
    requires Agree(v, s) && e.Assignment?
    ensures Taken(LowerExpr(e, s, r.dialect), r) <==> Q.QualifiedExpr(e, v, r)
    decreases e, 2
  {
    match e case Assignment(_, target, right) =>
    hide *;
    ExprTaken(right, v, s, r);
    AssignmentForm(e, v, s, r);
    if target.NameTarget? { OwnIsAssignable(target.name, v, s); }
  }

  ghost predicate Assignable(n: string, s: Scope) {
    n in s.locals && s.locals[n].Slot? && !(s.mapDepth != 0 && s.locals[n].index < s.mapFloor)
  }

  lemma OwnIsAssignable(n: string, v: Sight, s: Scope)
    requires Agree(v, s)
    ensures Assignable(n, s) <==> Q.Sees(v, n, Q.Own)
  {
    if n in v.names { assert Holds(v.names[n], s.locals[n], s); }
  }

  lemma AssignmentForm(e: Expr, v: Sight, s: Scope, r: Rules)
    requires e.Assignment?
    ensures Taken(LowerExpr(e, s, r.dialect), r) <==>
      e.target.NameTarget? && e.simple && Assignable(e.target.name, s) && Taken(LowerExpr(e.right, s, r.dialect), r)
    ensures Q.QualifiedExpr(e, v, r) <==>
      e.simple && e.target.NameTarget? && Q.Sees(v, e.target.name, Q.Own) && Q.QualifiedExpr(e.right, v, r)
  {
    hide Q.Sees;
  }

  lemma {:induction false} CommaTaken(e: Expr, v: Sight, s: Scope, r: Rules)
    requires Agree(v, s) && e.Comma?
    ensures Taken(LowerExpr(e, s, r.dialect), r) <==> Q.QualifiedExpr(e, v, r)
    decreases e, 2
  {
    match e case Comma(first, rest) =>
    var c := r.dialect;
    Onward(first, v, s, c);
    ExprTaken(first, v, s, r);
    hide Agree, LowerAll;
    if LowerExpr(first, s, c).Accepted? {
      var low := LowerExpr(first, s, c);
      AllTaken(rest, v, low.scope, r);
      var more := LowerAll(rest, low.scope, c);
      if more.Accepted? { FrontFits(low.value, more.value, r); }
    }
  }

  lemma FrontFits(e: Ir.E, es: seq<Ir.E>, r: Rules)
    ensures Fits(Ir.Sequence([e] + es), r) <==> Fits(e, r) && FitAll(es, r)
  {
    AllOfFront(e, es);
  }

  lemma AllOfFront(e: Ir.E, es: seq<Ir.E>)
    ensures OneArgumentAll([e] + es) <==> OneArgumentExpr(e) && OneArgumentAll(es)
    ensures Codegen.ReturnsAll([e] + es) <==> Codegen.ReturnsExpr(e) && Codegen.ReturnsAll(es)
    ensures forall a :: CallArity.FitsAll([e] + es, a) <==> CallArity.FitsExpr(e, a) && CallArity.FitsAll(es, a)
  {
    assert ([e] + es)[0] == e && ([e] + es)[1..] == es;
  }

  lemma {:induction false} ObjectTaken(e: Expr, v: Sight, s: Scope, r: Rules)
    requires Agree(v, s) && e.ObjectLit?
    ensures Taken(LowerExpr(e, s, r.dialect), r) <==> Q.QualifiedExpr(e, v, r)
    decreases e, 2
  {
    match e case ObjectLit(ps) =>
    PropertiesTaken(ps, [], v, s, r);
  }

  lemma {:induction false} AllTaken(es: seq<Expr>, v: Sight, s: Scope, r: Rules)
    requires Agree(v, s)
    ensures TakenAll(LowerAll(es, s, r.dialect), r) <==> Q.QualifiedAll(es, v, r)
    decreases es, 0
  {
    if es != [] {
      Onward(es[0], v, s, r.dialect);
      ExprTaken(es[0], v, s, r);
      hide Agree, LowerExpr, Q.QualifiedExpr;
      var low := LowerExpr(es[0], s, r.dialect);
      if low.Accepted? {
        AllTaken(es[1..], v, low.scope, r);
        var more := LowerAll(es[1..], low.scope, r.dialect);
        if more.Accepted? { AllOfFront(low.value, more.value); }
      }
    }
  }

  lemma {:induction false} ArgumentTaken(a: Argument, v: Sight, s: Scope, r: Rules)
    requires Agree(v, s)
    ensures Taken(LowerArgument(a, s, r.dialect), r) <==> Q.QualifiedArgument(a, v, r)
    ensures LowerArgument(a, s, r.dialect).Accepted? ==> Agree(v, LowerArgument(a, s, r.dialect).scope)
    decreases a, 4
  {
    match a
    case Plain(e) => ExprTaken(e, v, s, r); Onward(e, v, s, r.dialect);
    case SpreadArgument =>
  }

  lemma {:induction false} ArgumentsTaken(args: seq<Argument>, v: Sight, s: Scope, r: Rules)
    requires Agree(v, s)
    ensures TakenAll(LowerArguments(args, s, r.dialect), r) <==> Q.QualifiedArguments(args, v, r)
    ensures LowerArguments(args, s, r.dialect).Accepted? ==> |LowerArguments(args, s, r.dialect).value| == |args|
    decreases args, 0
  {
    if args != [] {
      ArgumentTaken(args[0], v, s, r);
      hide Agree, LowerArgument, Q.QualifiedArgument;
      var low := LowerArgument(args[0], s, r.dialect);
      if low.Accepted? {
        ArgumentsTaken(args[1..], v, low.scope, r);
        var more := LowerArguments(args[1..], low.scope, r.dialect);
        if more.Accepted? { AllOfFront(low.value, more.value); }
      }
    }
  }

  ghost predicate Unused(ps: seq<Property>, entries: seq<Ir.Entry>) {
    forall k :: Q.HasKey(ps, k) ==> !HasEntry(entries, k)
  }

  lemma PropertyForm(p: Property, entries: seq<Ir.Entry>, v: Sight, s: Scope, r: Rules)
    requires p.Property?
    ensures var plain := p.plain && p.key.Some? && p.key.value !in {"__proto__", "toString", "valueOf"};
      (Q.QualifiedProperty(p, v, r) <==> plain && Q.QualifiedExpr(p.value, v, r)) &&
      if plain && !HasEntry(entries, p.key.value) then LowerProperty(p, entries, s, r.dialect) == LowerExpr(p.value, s, r.dialect)
      else LowerProperty(p, entries, s, r.dialect).Refused?
  {
    hide LowerExpr, Q.QualifiedExpr, HasEntry;
  }

  lemma SpreadRefused(entries: seq<Ir.Entry>, v: Sight, s: Scope, r: Rules)
    ensures LowerProperty(SpreadProperty, entries, s, r.dialect).Refused?
    ensures !Taken(LowerProperty(SpreadProperty, entries, s, r.dialect), r) && !Q.QualifiedProperty(SpreadProperty, v, r)
  {}

  lemma {:induction false} PropertyTaken(p: Property, entries: seq<Ir.Entry>, v: Sight, s: Scope, r: Rules)
    requires Agree(v, s)
    ensures Taken(LowerProperty(p, entries, s, r.dialect), r) <==> Q.QualifiedProperty(p, v, r) && !HasEntry(entries, p.key.value)
    ensures LowerProperty(p, entries, s, r.dialect).Accepted? ==> Agree(v, LowerProperty(p, entries, s, r.dialect).scope)
    decreases p, 4
  {
    hide *;
    match p
    case Property(key, _, e) =>
      ExprTaken(e, v, s, r);
      Onward(e, v, s, r.dialect);
      PropertyForm(p, entries, v, s, r);
      TakenMeans(LowerProperty(p, entries, s, r.dialect), r);
    case SpreadProperty => SpreadRefused(entries, v, s, r);
  }

  lemma {:induction false} PropertiesTaken(ps: seq<Property>, entries: seq<Ir.Entry>, v: Sight, s: Scope, r: Rules)
    requires Agree(v, s)
    ensures TakenEntries(LowerProperties(ps, entries, s, r.dialect), r) <==>
      Q.QualifiedProperties(ps, v, r) && Unused(ps, entries) && FitEntries(entries, r)
    decreases ps, 0
  {
    if ps != [] {
      PropertyTaken(ps[0], entries, v, s, r);
      hide Agree, LowerProperty, Q.QualifiedProperty, Q.HasKey, HasEntry, FitEntries;
      var low := LowerProperty(ps[0], entries, s, r.dialect);
      if low.Accepted? {
        var entry := Ir.Entry(ps[0].key.value, low.value);
        PropertiesTaken(ps[1..], entries + [entry], v, low.scope, r);
        OneMoreEntry(entries, entry);
        MoreFits(entries, entry, r);
        KeyOfFirst(ps);
      } else if Q.QualifiedProperty(ps[0], v, r) {
        FirstKeyUsed(ps, v, r);
      }
    }
  }

  lemma FirstKeyUsed(ps: seq<Property>, v: Sight, r: Rules)
    requires ps != [] && Q.QualifiedProperty(ps[0], v, r)
    ensures Q.HasKey(ps, ps[0].key.value)
  {
    KeyOfFirst(ps);
  }

  lemma EntriesOfFront(entry: Ir.Entry, entries: seq<Ir.Entry>)
    ensures OneArgumentEntries([entry] + entries) <==> OneArgumentExpr(entry.value) && OneArgumentEntries(entries)
    ensures Codegen.ReturnsEntries([entry] + entries) <==> Codegen.ReturnsExpr(entry.value) && Codegen.ReturnsEntries(entries)
    ensures forall a :: CallArity.FitsEntries([entry] + entries, a) <==> CallArity.FitsExpr(entry.value, a) && CallArity.FitsEntries(entries, a)
  {
    assert ([entry] + entries)[0] == entry && ([entry] + entries)[1..] == entries;
    assert OneArgumentEntry(entry) <==> OneArgumentExpr(entry.value);
    assert Codegen.ReturnsEntry(entry) <==> Codegen.ReturnsExpr(entry.value);
    assert forall a :: CallArity.FitsEntry(entry, a) <==> CallArity.FitsExpr(entry.value, a);
  }

  lemma {:induction false} MoreFits(entries: seq<Ir.Entry>, entry: Ir.Entry, r: Rules)
    ensures FitEntries(entries + [entry], r) <==> FitEntries(entries, r) && Fits(entry.value, r)
  {
    EntriesOfFront((entries + [entry])[0], (entries + [entry])[1..]);
    assert [(entries + [entry])[0]] + (entries + [entry])[1..] == entries + [entry];
    if entries != [] {
      assert (entries + [entry])[1..] == entries[1..] + [entry];
      EntriesOfFront(entries[0], entries[1..]);
      assert [entries[0]] + entries[1..] == entries;
      MoreFits(entries[1..], entry, r);
    }
  }

  // ---------------------------------------------------------------- calls

  lemma {:induction false} CallTaken(e: Expr, v: Sight, s: Scope, r: Rules)
    requires Agree(v, s) && e.Call?
    ensures Taken(LowerExpr(e, s, r.dialect), r) <==> Q.QualifiedExpr(e, v, r)
    decreases e, 2
  {
    match e case Call(callee, arguments) =>
    assert LowerExpr(e, s, r.dialect) == LowerCall(e, s, r.dialect);
    hide LowerExpr;
    if callee.Member? {
      match callee case Member(base, name, _) =>
      ModuleLoads(base, v, s, r.dialect);
      hide Agree;
      if name == MAP {
        hide LowerMap, Q.QualifiedMap;
        MapTaken(e, v, s, r);
      } else if name == DECODE && Q.Loads(base, r.dialect.vocabulary.decodeModule, v, r.dialect) {
        DecodeTaken(e, v, s, r);
      } else {
        DependencyTaken(e, v, s, r);
      }
    }
  }

  lemma {:induction false} DecodeTaken(e: Expr, v: Sight, s: Scope, r: Rules)
    requires Agree(v, s) && e.Call? && e.callee.Member? && e.callee.property == DECODE
    requires Q.Loads(e.callee.base, r.dialect.vocabulary.decodeModule, v, r.dialect)
    ensures Taken(LowerCall(e, s, r.dialect), r) <==> Q.QualifiedExpr(e, v, r)
    decreases e, 1
  {
    match e case Call(callee, arguments) =>
    hide *;
    ModuleLoads(callee.base, v, s, r.dialect);
    if |arguments| == 2 {
      ArgumentTaken(arguments[1], v, s, r);
      SpecNamed(arguments[0], v, s, r.dialect);
    }
    DecodeForm(e, s, r);
    DecodeQualified(e, v, r);
  }

  ghost predicate Spec(a: Argument, s: Scope, c: Dialect) {
    a.Plain? && a.expr.Member? && !a.expr.computed && Module(a.expr.base, s, c) == Some(c.vocabulary.specModule) &&
    a.expr.property in c.vocabulary.specs
  }

  lemma SpecNamed(a: Argument, v: Sight, s: Scope, c: Dialect)
    requires Agree(v, s)
    ensures Spec(a, s, c) <==> Q.NamesSpec(a, v, c)
  {
    if a.Plain? && a.expr.Member? { ModuleLoads(a.expr.base, v, s, c); }
    hide Agree, Module, Q.Loads;
  }

  lemma DecodeForm(e: Expr, s: Scope, r: Rules)
    requires e.Call? && e.callee.Member? && e.callee.property == DECODE
    requires Module(e.callee.base, s, r.dialect) == Some(r.dialect.vocabulary.decodeModule)
    ensures Taken(LowerCall(e, s, r.dialect), r) <==>
      |e.arguments| == 2 && Spec(e.arguments[0], s, r.dialect) && Taken(LowerArgument(e.arguments[1], s, r.dialect), r)
  {
    hide LowerArgument, Module;
    forall x ensures FitAll([x], r) <==> Fits(x, r) {
      AllOfFront(x, []);
      assert [x] + [] == [x];
    }
  }

  lemma DecodeQualified(e: Expr, v: Sight, r: Rules)
    requires e.Call? && e.callee.Member? && e.callee.property == DECODE
    requires Q.Loads(e.callee.base, r.dialect.vocabulary.decodeModule, v, r.dialect)
    ensures Q.QualifiedExpr(e, v, r) <==>
      |e.arguments| == 2 && Q.NamesSpec(e.arguments[0], v, r.dialect) && Q.QualifiedArgument(e.arguments[1], v, r)
  {
    hide Q.Loads, Q.NamesSpec, Q.QualifiedArgument;
  }

  lemma {:induction false} DependencyTaken(e: Expr, v: Sight, s: Scope, r: Rules)
    requires Agree(v, s) && e.Call? && e.callee.Member? && e.callee.property != MAP
    requires !(e.callee.property == DECODE && Q.Loads(e.callee.base, r.dialect.vocabulary.decodeModule, v, r.dialect))
    ensures Taken(LowerCall(e, s, r.dialect), r) <==> Q.QualifiedExpr(e, v, r)
    decreases e, 1
  {
    match e case Call(callee, arguments) =>
    var c := r.dialect;
    hide *;
    assert c.receiver in s.locals <==> c.receiver in v.names by { NamesSeen(v, s); }
    ModuleLoads(callee.base, v, s, c);
    ArgumentsTaken(arguments, v, s, r);
    Transforms(callee, v, s, c);
    DependencyForm(e, s, c);
    DependencyQualified(e, v, r);
    var low := LowerArguments(arguments, s, c);
    if low.Accepted? {
      ArgumentsExtend(arguments, s, c);
      SameModules(callee.base, s, low.scope, c);
      CallFits(callee, low.value, r);
    }
    TakenMeans(LowerCall(e, s, c), r);
    TakenAllMeans(low, r);
  }

  lemma NamesSeen(v: Sight, s: Scope)
    requires Agree(v, s)
    ensures forall n :: n in v.names <==> n in s.locals
  {}

  lemma SameModules(e: Expr, s: Scope, s1: Scope, c: Dialect)
    requires Extends(s, s1)
    ensures Module(e, s1, c) == Module(e, s, c) && s1.locals == s.locals
  {}

  lemma TakenMeans(low: Lowered<Ir.E>, r: Rules)
    ensures Taken(low, r) <==> low.Accepted? && Fits(low.value, r)
  {}

  lemma TakenAllMeans(low: Lowered<seq<Ir.E>>, r: Rules)
    ensures TakenAll(low, r) <==> low.Accepted? && FitAll(low.value, r)
  {}

  lemma CallFits(callee: Expr, es: seq<Ir.E>, r: Rules)
    requires callee.Member?
    ensures Fits(Ir.Validate(callee.property, es), r) <==> FitAll(es, r) && Q.Arity(callee, |es|, r)
    ensures forall kind :: Fits(Ir.Apply(kind, es), r) <==> FitAll(es, r) && (r.unary ==> |es| == 1)
  {}

  ghost predicate Sibling(callee: Expr, s: Scope, c: Dialect) {
    callee.Member? && callee.property in c.vocabulary.validators && callee.base == Ident(c.receiver) && c.receiver !in s.locals
  }

  ghost predicate Known(callee: Expr, s: Scope, c: Dialect) {
    callee.Member? && Module(callee.base, s, c).Some? && (Module(callee.base, s, c).value, callee.property) in c.vocabulary.transforms
  }

  lemma DependencyForm(e: Expr, s: Scope, c: Dialect)
    requires e.Call? && e.callee.Member? && e.callee.property != MAP
    requires !(e.callee.property == DECODE && Module(e.callee.base, s, c) == Some(c.vocabulary.decodeModule))
    ensures var low := LowerArguments(e.arguments, s, c);
      LowerCall(e, s, c) ==
        if low.Refused? then Refused(low.reason)
        else if Sibling(e.callee, low.scope, c) then Accepted(Ir.Validate(e.callee.property, low.value), low.scope)
        else if Known(e.callee, low.scope, c) then
          Accepted(Ir.Apply(c.vocabulary.transforms[(Module(e.callee.base, low.scope, c).value, e.callee.property)], low.value), low.scope)
        else Refused("unsupported dependency " + e.callee.property)
  {
    hide LowerArguments, Module;
  }

  lemma DependencyQualified(e: Expr, v: Sight, r: Rules)
    requires e.Call? && e.callee.Member? && e.callee.property != MAP
    requires !(e.callee.property == DECODE && Q.Loads(e.callee.base, r.dialect.vocabulary.decodeModule, v, r.dialect))
    ensures Q.QualifiedExpr(e, v, r) <==>
      Q.QualifiedArguments(e.arguments, v, r) &&
      ((Q.IsSibling(e.callee, v, r.dialect) && Q.Arity(e.callee, |e.arguments|, r)) ||
       (Q.IsTransform(e.callee, v, r.dialect) && (r.unary ==> |e.arguments| == 1)))
  {
    hide Q.Loads, Q.QualifiedArguments, Q.IsSibling, Q.IsTransform, Q.Arity;
  }

  lemma Transforms(callee: Expr, v: Sight, s: Scope, c: Dialect)
    requires Agree(v, s) && callee.Member?
    ensures Q.IsTransform(callee, v, c) <==> Known(callee, s, c)
    ensures Q.IsSibling(callee, v, c) <==> Sibling(callee, s, c)
    ensures Q.IsSibling(callee, v, c) ==> !Q.IsTransform(callee, v, c)
  {
    ModuleLoads(callee.base, v, s, c);
    NamesSeen(v, s);
    hide Agree;
    if callee.base.Ident? { assert ModuleCall(callee.base).None?; }
    if Module(callee.base, s, c).Some? {
      var key := (Module(callee.base, s, c).value, callee.property);
      assert Q.Loads(callee.base, key.0, v, c);
    }
    hide Module;
  }

  lemma {:induction false} MapTaken(e: Expr, v: Sight, s: Scope, r: Rules)
    requires Agree(v, s) && e.Call? && e.callee.Member?
    ensures Taken(LowerMap(e, s, r.dialect), r) <==> Q.QualifiedMap(e, v, r)
    decreases e, 1
  {
    match e case Call(callee, arguments) =>
    match callee case Member(base, _, _) =>
    var c := r.dialect;
    assert v.inCallback <==> s.mapDepth != 0;
    Onward(base, v, s, c);
    ExprTaken(base, v, s, r);
    var low := LowerExpr(base, s, c);
    if low.Accepted? { ArrayIsArray(base, v, s, c); }
    hide Agree, LowerExpr, LowerCallback, OrdinaryArray, Q.QualifiedExpr, Q.OrdinaryArray, Q.QualifiedCallback;
    if |arguments| == 1 && arguments[0].Plain? && arguments[0].expr.FunctionExpr? {
      var fn := arguments[0].expr.fn;
      CallbackKinds(fn);
      hide CallbackRefusal, PlainCallback;
      hide Fits, FitsBody;
      if low.Accepted? && PlainCallback(fn) && !v.inCallback {
        CallbackTaken(fn, v, low.scope, r);
        var body := LowerCallback(fn, low.scope, c);
        if body.Accepted? { MapFits(low.value, body.value, r); }
      }
    }
  }

  lemma MapFits(input: Ir.E, body: seq<Ir.S>, r: Rules)
    ensures Fits(Ir.Map(input, body), r) <==> Fits(input, r) && FitsBody(body, r) && (r.returning ==> Codegen.Diverges(body))
  {}

  lemma CallbackKinds(f: Function)
    ensures CallbackRefusal(f).None? <==> PlainCallback(f)
  {
    if |f.params| == 1 { assert f.params[0] in f.params; }
  }

  lemma {:induction false} CallbackTaken(f: Function, v: Sight, s: Scope, r: Rules)
    requires Agree(v, s) && !v.inCallback && CallbackRefusal(f).None? && PlainCallback(f)
    ensures TakenBody(LowerCallback(f, s, r.dialect), r) && (r.returning ==> Codegen.Diverges(LowerCallback(f, s, r.dialect).value)) <==>
      Q.QualifiedCallback(f, v, r)
    decreases f, 4
  {
    match f case Function(_, _, _, _, params, body) =>
    var param := params[0].name.value;
    EnterAgrees(param, v, s);
    BodyTaken(body, Q.Entering(param, v), EnterCallback(param, s), r);
    hide Agree, DeclareScope, LowerStmts, Q.QualifiedBody;
  }

  // ---------------------------------------------------------------- bodies

  lemma {:induction false} BodyTaken(body: seq<Stmt>, v: Sight, s: Scope, r: Rules)
    requires Agree(v, s)
    ensures Q.QualifiedBody(body, v, r) <==>
      DeclareScope(body, s).Accepted? && TakenBody(LowerStmts(body, DeclareScope(body, s).scope, r.dialect), r)
    ensures DeclareScope(body, s).Accepted? && LowerStmts(body, DeclareScope(body, s).scope, r.dialect).Accepted? ==>
      (Codegen.Diverges(LowerStmts(body, DeclareScope(body, s).scope, r.dialect).value) <==> Q.Ends(body))
    decreases body, 5
  {
    LoweringRespelt.DeclareScopeRefuses(body, s);
    ParametersRefused(VarNames(body), v, s);
    hide Agree, VarNames, DeclareScope, LowerStmts, Q.Declaring, Q.QualifiedStmts, LoweringNames.IsParameter;
    if DeclareScope(body, s).Accepted? {
      DeclareAgrees(body, v, s);
      StmtsTaken(body, Q.Declaring(body, v), DeclareScope(body, s).scope, r);
    }
  }

  lemma ParametersRefused(names: seq<string>, v: Sight, s: Scope)
    requires Agree(v, s)
    ensures (exists n :: n in names && LoweringNames.IsParameter(n, s)) <==>
      !(forall n | n in names && n in v.names :: Q.Variable(v.names[n]))
  {
    forall n | n in v.names ensures LoweringNames.IsParameter(n, s) <==> !Q.Variable(v.names[n]) {
      assert Holds(v.names[n], s.locals[n], s);
    }
  }

  /** Every name is a variable of this body. */
  ghost predicate Hoists(names: seq<string>, v: Sight) {
    forall n | n in names :: Q.Sees(v, n, Q.Own)
  }

  lemma HoistsParts(a: seq<string>, b: seq<string>, v: Sight)
    ensures Hoists(a + b, v) <==> Hoists(a, v) && Hoists(b, v)
  {
    assert forall n :: n in a + b <==> n in a || n in b;
  }

  lemma {:induction false} StmtsTaken(body: seq<Stmt>, v: Sight, s: Scope, r: Rules)
    requires Agree(v, s) && Hoists(VarNames(body), v)
    ensures TakenBody(LowerStmts(body, s, r.dialect), r) <==> Q.QualifiedStmts(body, v, r)
    ensures LowerStmts(body, s, r.dialect).Accepted? ==>
      Agree(Q.BehindAll(body, v, r.dialect), LowerStmts(body, s, r.dialect).scope) &&
      (Codegen.Diverges(LowerStmts(body, s, r.dialect).value) <==> Q.Ends(body))
    decreases body, 0
  {
    if body != [] {
      StmtTaken(body[0], v, s, r);
      BehindKeeps(body[0], v, r.dialect);
      HoistsParts(StmtVarNames(body[0]), VarNames(body[1..]), v);
      hide Agree, LowerStmt, Q.QualifiedStmt, Q.Behind;
      var first := LowerStmt(body[0], s, r.dialect);
      if first.Accepted? {
        StmtsTaken(body[1..], Q.Behind(body[0], v, r.dialect), first.scope, r);
        var rest := LowerStmts(body[1..], first.scope, r.dialect);
        if rest.Accepted? { ConcatFits(first.value, rest.value, r); }
      }
    }
  }

  lemma {:induction false} ConcatFits(a: seq<Ir.S>, b: seq<Ir.S>, r: Rules)
    ensures FitsBody(a + b, r) <==> FitsBody(a, r) && FitsBody(b, r)
    ensures Codegen.Diverges(a + b) <==> Codegen.Diverges(a) || Codegen.Diverges(b)
  {
    if a == [] { assert a + b == b; }
    else {
      assert (a + b)[1..] == a[1..] + b;
      ConcatFits(a[1..], b, r);
    }
  }

  lemma OneStatement(st: Ir.S, r: Rules)
    ensures FitsBody([st], r) <==> FitsStmt(st, r)
    ensures FitsBody([], r) && !Codegen.Diverges([])
    ensures Codegen.Diverges([st]) <==> Codegen.StmtDiverges(st)
  {
    assert [st][0] == st && [st][1..] == [];
    assert OneArgumentEach([st]) <==> OneArgumentStmt(st) && OneArgumentEach([]);
    assert Codegen.ReturnsBody([st]) <==> Codegen.ReturnsStmt(st) && Codegen.ReturnsBody([]);
    assert forall a :: CallArity.FitsBody([st], a) <==> CallArity.FitsStmt(st, a) && CallArity.FitsBody([], a);
  }

  /** Only what is known of arrays moves on from statement to statement. */
  lemma {:induction false} BehindKeeps(st: Stmt, v: Sight, c: Dialect)
    ensures Q.Behind(st, v, c) == v.(arrays := Q.Behind(st, v, c).arrays)
    decreases st, 1
  {
    match st
    case VarDecl(_, ds) => GivenKeeps(ds, v, c);
    case If(_, yes, no) =>
      BehindKeeps(yes, v, c);
      match no { case Some(x) => BehindKeeps(x, Q.Behind(yes, v, c), c); case None => }
    case Block(body) => BehindAllKeeps(body, v, c);
    case _ =>
  }

  lemma {:induction false} BehindAllKeeps(body: seq<Stmt>, v: Sight, c: Dialect)
    ensures Q.BehindAll(body, v, c) == v.(arrays := Q.BehindAll(body, v, c).arrays)
    decreases body, 0
  {
    if body != [] {
      BehindKeeps(body[0], v, c);
      BehindAllKeeps(body[1..], Q.Behind(body[0], v, c), c);
    }
  }

  lemma {:induction false} GivenKeeps(ds: seq<Declarator>, v: Sight, c: Dialect)
    ensures Q.GivenAll(ds, v, c) == v.(arrays := Q.GivenAll(ds, v, c).arrays)
    decreases ds
  {
    if ds != [] { GivenKeeps(ds[1..], Q.Given(ds[0], v, c), c); }
  }

  lemma {:induction false} StmtTaken(st: Stmt, v: Sight, s: Scope, r: Rules)
    requires Agree(v, s) && Hoists(StmtVarNames(st), v)
    ensures TakenBody(LowerStmt(st, s, r.dialect), r) <==> Q.QualifiedStmt(st, v, r)
    ensures LowerStmt(st, s, r.dialect).Accepted? ==>
      Agree(Q.Behind(st, v, r.dialect), LowerStmt(st, s, r.dialect).scope) &&
      (Codegen.Diverges(LowerStmt(st, s, r.dialect).value) <==> Q.StmtEnds(st))
    decreases st, 1
  {
    hide Agree, LowerExpr, LowerThrow, Q.QualifiedExpr, Q.QualifiedThrow;
    var c := r.dialect;
    match st
    case VarDecl(isVar, ds) => DeclaratorsTaken(ds, isVar, v, s, r);
    case If(test, yes, no) => IfTaken(st, v, s, r);
    case Block(body) => StmtsTaken(body, v, s, r);
    case Return(value) =>
      if value.Some? {
        ExprTaken(value.value, v, s, r);
        Onward(value.value, v, s, c);
        if LowerExpr(value.value, s, c).Accepted? { OneStatement(Ir.Return(LowerExpr(value.value, s, c).value), r); }
      }
    case ExprStmt(e) =>
      ExprTaken(e, v, s, r);
      Onward(e, v, s, c);
      if LowerExpr(e, s, c).Accepted? { OneStatement(Ir.Evaluate(LowerExpr(e, s, c).value), r); }
    case Throw(e) => ThrowTaken(e, v, s, r);
    case OtherStmt =>
  }

  lemma {:induction false} IfTaken(st: Stmt, v: Sight, s: Scope, r: Rules)
    requires Agree(v, s) && Hoists(StmtVarNames(st), v) && st.If?
    ensures TakenBody(LowerStmt(st, s, r.dialect), r) <==> Q.QualifiedStmt(st, v, r)
    ensures LowerStmt(st, s, r.dialect).Accepted? ==>
      Agree(Q.Behind(st, v, r.dialect), LowerStmt(st, s, r.dialect).scope) &&
      (Codegen.Diverges(LowerStmt(st, s, r.dialect).value) <==> Q.StmtEnds(st))
    decreases st, 0
  {
    match st case If(test, yes, no) =>
    var c := r.dialect;
    IfNames(st, v);
    ExprTaken(test, v, s, r);
    Onward(test, v, s, c);
    hide Agree, LowerExpr, Q.QualifiedExpr, Hoists, StmtVarNames, Fits;
    var t := LowerExpr(test, s, c);
    if t.Accepted? {
      StmtTaken(yes, v, t.scope, r);
      BehindKeeps(yes, v, c);
      hide FitsBody;
      var y := LowerStmt(yes, t.scope, c);
      if y.Accepted? {
        match no {
          case None => IfFits(t.value, y.value, [], r);
          case Some(x) =>
            var w := Q.Behind(yes, v, c);
            HoistsSame(StmtVarNames(x), v, w);
            StmtTaken(x, w, y.scope, r);
            var n := LowerStmt(x, y.scope, c);
            if n.Accepted? { IfFits(t.value, y.value, n.value, r); }
        }
      }
    }
  }

  lemma IfNames(st: Stmt, v: Sight)
    requires st.If? && Hoists(StmtVarNames(st), v)
    ensures Hoists(StmtVarNames(st.yes), v) && (st.no.Some? ==> Hoists(StmtVarNames(st.no.value), v))
  {
    var more := match st.no case Some(x) => StmtVarNames(x) case None => [];
    assert StmtVarNames(st) == StmtVarNames(st.yes) + more;
    HoistsParts(StmtVarNames(st.yes), more, v);
  }

  lemma HoistsSame(names: seq<string>, v: Sight, w: Sight)
    requires Hoists(names, v) && w.names == v.names
    ensures Hoists(names, w)
  {
    forall n | n in names ensures Q.Sees(w, n, Q.Own) { assert Q.Sees(v, n, Q.Own); }
  }

  lemma IfFits(t: Ir.E, yes: seq<Ir.S>, no: seq<Ir.S>, r: Rules)
    ensures FitsBody([Ir.If(t, yes, no)], r) <==> Fits(t, r) && FitsBody(yes, r) && FitsBody(no, r)
    ensures FitsBody([], r) && !Codegen.Diverges([])
    ensures Codegen.Diverges([Ir.If(t, yes, no)]) <==> Codegen.Diverges(yes) && Codegen.Diverges(no)
  {
    OneStatement(Ir.If(t, yes, no), r);
  }

  lemma {:induction false} ThrowTaken(e: Expr, v: Sight, s: Scope, r: Rules)
    requires Agree(v, s)
    ensures TakenBody(LowerThrow(e, s, r.dialect), r) <==> Q.QualifiedThrow(e, v, r)
    ensures LowerThrow(e, s, r.dialect).Accepted? ==>
      Agree(v, LowerThrow(e, s, r.dialect).scope) && Codegen.Diverges(LowerThrow(e, s, r.dialect).value)
    decreases e, 4
  {
    if FatalParts(e).Some? {
      var t, c := FatalParts(e).value, r.dialect;
      assert t.metric == e.first.arguments[0].expr && t.context == e.first.arguments[1].expr;
      hide *;
      ThrowForm(e, s, c);
      ThrowQualified(e, v, r);
      ModuleLoads(t.reporter, v, s, c);
      ExprTaken(t.metric, v, s, r);
      Onward(t.metric, v, s, c);
      var m := LowerExpr(t.metric, s, c);
      TakenMeans(m, r);
      if m.Accepted? {
        ExprTaken(t.context, v, m.scope, r);
        Onward(t.context, v, m.scope, c);
        var x := LowerExpr(t.context, m.scope, c);
        TakenMeans(x, r);
        if x.Accepted? {
          ContextIsCollection(t.context, v, m.scope, c);
          ModuleLoads(t.constructorOf, v, x.scope, c);
          FatalFits(m.value, t.message, r);
          PlainContext(r);
        }
      }
      TakenBodyMeans(LowerThrow(e, s, c), r);
    }
  }

  lemma FatalFits(metric: Ir.E, message: string, r: Rules)
    ensures FitsBody([Ir.Fatal(metric, message)], r) <==> Fits(metric, r)
    ensures Codegen.Diverges([Ir.Fatal(metric, message)])
  {
    OneStatement(Ir.Fatal(metric, message), r);
  }

  lemma TakenBodyMeans(low: Lowered<seq<Ir.S>>, r: Rules)
    ensures TakenBody(low, r) <==> low.Accepted? && FitsBody(low.value, r)
  {}

  lemma ThrowForm(e: Expr, s: Scope, c: Dialect)
    requires FatalParts(e).Some?
    ensures var t := FatalParts(e).value;
      var m := LowerExpr(t.metric, s, c);
      LowerThrow(e, s, c).Accepted? <==>
        Module(t.reporter, s, c) == Some(c.vocabulary.metricModule) && m.Accepted? &&
        LowerExpr(t.context, m.scope, c).Accepted? && LowerExpr(t.context, m.scope, c).value == CONTEXT &&
        Module(t.constructorOf, LowerExpr(t.context, m.scope, c).scope, c) == Some(c.vocabulary.errorModule)
    ensures var t := FatalParts(e).value;
      var m := LowerExpr(t.metric, s, c);
      LowerThrow(e, s, c).Accepted? ==>
        LowerThrow(e, s, c) == Accepted([Ir.Fatal(m.value, t.message)], LowerExpr(t.context, m.scope, c).scope)
  {
    hide FatalParts, LowerExpr, Module;
  }

  lemma ThrowQualified(e: Expr, v: Sight, r: Rules)
    requires FatalParts(e).Some?
    ensures var t := FatalParts(e).value;
      Q.QualifiedThrow(e, v, r) <==>
        Q.Loads(t.reporter, r.dialect.vocabulary.metricModule, v, r.dialect) &&
        Q.Loads(t.constructorOf, r.dialect.vocabulary.errorModule, v, r.dialect) &&
        Q.QualifiedExpr(t.metric, v, r) && Q.QualifiedExpr(t.context, v, r) && Q.NamesCollection(t.context, v)
  {
    hide FatalParts, Q.Loads, Q.QualifiedExpr, Q.NamesCollection;
  }

  lemma PlainContext(r: Rules)
    ensures Fits(CONTEXT, r)
  {
    var entry := Ir.Entry(COLLECTION, Ir.Argument(0));
    EntriesOfFront(entry, []);
    assert [entry] + [] == [entry];
    assert OneArgumentExpr(entry.value) && Codegen.ReturnsExpr(entry.value) && forall a :: CallArity.FitsExpr(entry.value, a);
  }

  lemma {:induction false} DeclaratorsTaken(ds: seq<Declarator>, isVar: bool, v: Sight, s: Scope, r: Rules)
    requires Agree(v, s) && Hoists(DeclaratorNames(ds), v)
    ensures TakenBody(LowerDeclarators(ds, isVar, s, r.dialect), r) <==> (ds == [] || isVar) && Q.QualifiedDeclarators(ds, v, r)
    ensures LowerDeclarators(ds, isVar, s, r.dialect).Accepted? ==>
      Agree(Q.GivenAll(ds, v, r.dialect), LowerDeclarators(ds, isVar, s, r.dialect).scope) &&
      !Codegen.Diverges(LowerDeclarators(ds, isVar, s, r.dialect).value)
    decreases ds, 0
  {
    if ds != [] {
      DeclaratorTaken(ds[0], isVar, v, s, r);
      hide Agree, LowerDeclarator, Q.QualifiedDeclarator;
      var first := LowerDeclarator(ds[0], isVar, s, r.dialect);
      if first.Accepted? {
        var w := Q.Given(ds[0], v, r.dialect);
        assert DeclaratorNames(ds) == (match ds[0].name case Some(n) => [n] case None => []) + DeclaratorNames(ds[1..]);
        HoistsParts(match ds[0].name case Some(n) => [n] case None => [], DeclaratorNames(ds[1..]), v);
        DeclaratorsTaken(ds[1..], isVar, w, first.scope, r);
        var rest := LowerDeclarators(ds[1..], isVar, first.scope, r.dialect);
        if rest.Accepted? { assert ([first.value] + rest.value)[1..] == rest.value; }
      }
    }
  }

  lemma {:induction false} DeclaratorTaken(d: Declarator, isVar: bool, v: Sight, s: Scope, r: Rules)
    requires Agree(v, s) && (d.name.Some? ==> Q.Sees(v, d.name.value, Q.Own))
    ensures var low := LowerDeclarator(d, isVar, s, r.dialect);
      low.Accepted? && FitsStmt(low.value, r) <==> isVar && Q.QualifiedDeclarator(d, v, r)
    ensures LowerDeclarator(d, isVar, s, r.dialect).Accepted? ==>
      isVar && Agree(Q.Given(d, v, r.dialect), LowerDeclarator(d, isVar, s, r.dialect).scope) &&
      LowerDeclarator(d, isVar, s, r.dialect).value.Bind?
    decreases d, 4
  {
    if d.name.Some? && d.init.Some? {
      var n, e, c := d.name.value, d.init.value, r.dialect;
      assert Holds(v.names[n], s.locals[n], s);
      ExprTaken(e, v, s, r);
      Onward(e, v, s, c);
      var low := LowerExpr(e, s, c);
      if low.Accepted? {
        ExprExtends(e, s, c);
        ArrayIsArray(e, v, s, c);
        hide LowerExpr, Q.QualifiedExpr, OrdinaryArray, Q.OrdinaryArray;
        assert Analysed(n, v, s);
        GivenAgrees(n, v, low.scope);
      }
    }
  }

  /** A variable learnt to hold an array. */
  lemma GivenAgrees(n: string, v: Sight, s: Scope)
    requires Agree(v, s) && n in v.names && Q.Variable(v.names[n])
    ensures s.locals[n].Slot? && Agree(v.(arrays := v.arrays + {n}), s.(arrays := s.arrays + {s.locals[n].index}))
  {
    assert Holds(v.names[n], s.locals[n], s);
    var w, t := v.(arrays := v.arrays + {n}), s.(arrays := s.arrays + {s.locals[n].index});
    AnalysesAside(v.names, s, t.mutable, t.arrays);
    forall m | m in w.names && Q.Variable(w.names[m]) ensures Analysed(m, w, t) {
      assert Analysed(m, v, s) && Holds(v.names[m], s.locals[m], s);
    }
  }

  // ---------------------------------------------------------------- validators

  lemma {:induction false} ParametersHeld(params: seq<Param>, k: nat)
    requires k <= |params|
    ensures forall n :: n in ParamLocals(params, k) <==> exists i :: 0 <= i < k && params[i].name == Some(n)
    ensures forall n | n in ParamLocals(params, k) :: ParamLocals(params, k)[n] == Ir.Argument(Q.PlaceOf(params, n, k))
  {
    if k > 0 { ParametersHeld(params, k - 1); }
  }

  lemma StartAgrees(params: seq<Param>)
    ensures Agree(Q.Sight(Q.Parameters(params), false, {}, {}), Scope(ParamLocals(params, |params|), 0, 0, 0, {}, {}))
  {
    ParametersHeld(params, |params|);
    ParametersNamed(params);
    hide ParamLocals, Q.PlaceOf, Q.Parameters, NamesAgree;
    OnlyParameters(Q.Parameters(params), Scope(ParamLocals(params, |params|), 0, 0, 0, {}, {}));
  }

  lemma OnlyParameters(names: map<string, Q.Binder>, s: Scope)
    requires forall n :: n in names <==> n in s.locals
    requires forall n | n in names :: names[n].Parameter? && s.locals[n] == Ir.Argument(names[n].place)
    ensures NamesAgree(names, s)
  {
    forall n | n in names ensures Holds(names[n], s.locals[n], s) {}
  }

  lemma ParametersNamed(params: seq<Param>)
    ensures forall n :: n in Q.Parameters(params) <==> exists i :: 0 <= i < |params| && params[i].name == Some(n)
    ensures forall n | n in Q.Parameters(params) :: Q.Parameters(params)[n] == Q.Parameter(Q.PlaceOf(params, n, |params|))
  {
    hide Q.PlaceOf;
    forall n ensures n in Q.Parameters(params) <==> exists i :: 0 <= i < |params| && params[i].name == Some(n) {
      if i :| 0 <= i < |params| && params[i].name == Some(n) {
        assert params[i].name.Some? && params[i].name.value == n;
      }
    }
  }

  lemma FunctionTaken(f: Function, r: Rules)
    ensures Q.QualifiedFunction(f, r) <==> LowerFunction(f, r.dialect).Accepted? && FitsBody(LowerFunction(f, r.dialect).value.body, r)
    ensures LowerFunction(f, r.dialect).Accepted? ==>
      LowerFunction(f, r.dialect).value.parameters == |f.params| &&
      (Codegen.Diverges(LowerFunction(f, r.dialect).value.body) <==> Q.Ends(f.body))
  {
    StartAgrees(f.params);
    hide Agree, ParamLocals, Q.Parameters;
    BodyTaken(f.body, Q.Sight(Q.Parameters(f.params), false, {}, {}), Scope(ParamLocals(f.params, |f.params|), 0, 0, 0, {}, {}), r);
    hide DeclareScope, LowerStmts, Q.QualifiedBody, FitsBody;
  }

  /** Lowering takes the qualified validators and no others. */
  lemma LowersExactly(f: Function, c: Dialect)
    ensures LowerFunction(f, c).Accepted? <==> Q.Qualified(f, c)
  {
    hide LowerFunction, Q.QualifiedFunction;
    FunctionTaken(f, Q.Rules(c, false, false, None));
  }

  /** The generable ones become functions and no others do. */
  lemma GeneratesExactly(f: Function, c: Dialect)
    ensures LowerFunction(f, c).Accepted? && Codegen.GenProgram(LowerFunction(f, c).value).Code? <==> Q.Generable(f, c)
  {
    FunctionTaken(f, Q.Rules(c, true, false, None));
    if LowerFunction(f, c).Accepted? { TransformArity.GeneratesExactly(LowerFunction(f, c).value); }
    hide LowerFunction, Q.QualifiedFunction, Codegen.GenProgram;
  }

  /** The whole pipeline takes the returning ones and no others. */
  lemma CompilesExactly(f: Function, c: Dialect)
    ensures Pipeline.Compiles(f, c) <==> Q.Returning(f, c)
  {
    FunctionTaken(f, Q.Rules(c, true, true, None));
    if LowerFunction(f, c).Accepted? { TransformArity.GeneratesExactly(LowerFunction(f, c).value); }
    hide LowerFunction, Q.QualifiedFunction, Codegen.GenProgram;
  }

  /** Beside a suite those type-check whose calls of its validators fit. */
  lemma TypeChecksExactly(f: Function, c: Dialect, suite: Pipeline.Suite)
    ensures Pipeline.TypeChecks(f, c, suite) <==> Q.Typed(f, c, Pipeline.Arities(suite))
  {
    FunctionTaken(f, Q.Rules(c, true, true, Some(Pipeline.Arities(suite))));
    if LowerFunction(f, c).Accepted? { TransformArity.GeneratesExactly(LowerFunction(f, c).value); }
    hide LowerFunction, Q.QualifiedFunction, Codegen.GenProgram, Pipeline.Arities;
  }
}
