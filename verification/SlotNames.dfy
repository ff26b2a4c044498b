/** Propagation of index slots from variable to variable until nothing new is bound. */
module SlotNames {
  import FiniteSets

  /** A variable, the slot it carries, and where in the text it was bound. */
  datatype Bind = Bind(name: string, slot: nat, boundAt: nat)

  /** A later assignment to `name` that uses some variable. */
  datatype Found = Found(name: string, at: nat)

  /** Assignments using a variable, from a position on: property reads, then call results. */
  type Uses = (string, nat) -> seq<Found>

  /** Every assignment found lies behind the position searched from and binds a name of
      the text. */
  ghost predicate Proper(uses: Uses, names: set<string>) {
    forall v, from, f | f in uses(v, from) :: f.at >= from && f.name in names
  }

  predicate OneEach(binds: seq<Bind>) {
    forall i, j | 0 <= i < j < |binds| :: binds[i].name != binds[j].name
  }

  function NamesOf(binds: seq<Bind>): set<string> {
    set b | b in binds :: b.name
  }

  /** A seed, or bound by an assignment that uses a variable already derived. */
  ghost predicate Derived(seeds: seq<Bind>, uses: Uses, b: Bind, steps: nat)
    decreases steps, 1
  {
    if steps == 0 then b in seeds
    else exists from: Bind :: Step(seeds, uses, from, b, steps)
  }

  ghost predicate Step(seeds: seq<Bind>, uses: Uses, from: Bind, b: Bind, steps: nat)
    requires steps > 0
    decreases steps, 0
  {
    Derived(seeds, uses, from, steps - 1) && b.slot == from.slot && Found(b.name, b.boundAt) in uses(from.name, from.boundAt)
  }

  ghost predicate Reached(seeds: seq<Bind>, uses: Uses, b: Bind) {
    exists steps: nat :: Derived(seeds, uses, b, steps)
  }

  ghost predicate AllReached(seeds: seq<Bind>, uses: Uses, binds: seq<Bind>) {
    forall b | b in binds :: Reached(seeds, uses, b)
  }

  lemma ReachedStep(seeds: seq<Bind>, uses: Uses, from: Bind, f: Found)
    requires Reached(seeds, uses, from) && f in uses(from.name, from.boundAt)
    ensures Reached(seeds, uses, Bind(f.name, from.slot, f.at))
  {
    var steps: nat :| Derived(seeds, uses, from, steps);
    var b := Bind(f.name, from.slot, f.at);
    assert Step(seeds, uses, from, b, steps + 1);
    assert Derived(seeds, uses, b, steps + 1);
  }

  /** No assignment behind a variable's binding is left unbound. */
  ghost predicate Expanded(uses: Uses, b: Bind, bound: set<string>) {
    forall f | f in uses(b.name, b.boundAt) :: f.name in bound
  }

  /** What holds all through: names bound once, seeds first and untouched, every slot
      that of a seed. */
  ghost predicate Sound(seeds: seq<Bind>, uses: Uses, binds: seq<Bind>, bound: set<string>) {
    seeds <= binds && OneEach(binds) && bound == NamesOf(binds) && AllReached(seeds, uses, binds)
  }

  lemma SoundGrows(seeds: seq<Bind>, uses: Uses, binds: seq<Bind>, bound: set<string>, from: Bind, f: Found)
    requires Sound(seeds, uses, binds, bound) && from in binds && f in uses(from.name, from.boundAt) && f.name !in bound
    ensures Sound(seeds, uses, binds + [Bind(f.name, from.slot, f.at)], bound + {f.name})
  {
    ReachedStep(seeds, uses, from, f);
    var b := Bind(f.name, from.slot, f.at);
    assert NamesOf(binds + [b]) == NamesOf(binds) + {f.name};
    forall i | 0 <= i < |binds| ensures binds[i].name != b.name { assert binds[i] in binds; }
    hide Reached;
  }

  /** One variable's assignments, in order; the first to bind a name keeps it. */
  method Expand(seeds: seq<Bind>, uses: Uses, from: Bind, binds: seq<Bind>, bound: set<string>, ghost names: set<string>)
    returns (more: seq<Bind>, all: set<string>)
    requires Proper(uses, names) && Sound(seeds, uses, binds, bound) && bound <= names && from in binds
    ensures Sound(seeds, uses, more, all) && binds <= more && bound <= all <= names && Expanded(uses, from, all)
    ensures |more| > |binds| <==> all != bound
  {
    more, all := binds, bound;
    var found := uses(from.name, from.boundAt);
    hide Sound, Proper;
    for i := 0 to |found|
      invariant Sound(seeds, uses, more, all) && binds <= more && bound <= all <= names
      invariant |more| > |binds| <==> all != bound
      invariant forall k | 0 <= k < i :: found[k].name in all
    {
      var f := found[i];
      if f.name !in all {
        assert from in more by { var k :| 0 <= k < |binds| && binds[k] == from; assert more[k] == from; }
        InNames(uses, names, from, f);
        SoundGrows(seeds, uses, more, all, from, f);
        more := more + [Bind(f.name, from.slot, f.at)];
        all := all + {f.name};
      }
    }
  }

  lemma InNames(uses: Uses, names: set<string>, from: Bind, f: Found)
    requires Proper(uses, names) && f in uses(from.name, from.boundAt)
    ensures f.name in names
  {}

  lemma ExpandedGrows(uses: Uses, b: Bind, bound: set<string>, all: set<string>)
    requires Expanded(uses, b, bound) && bound <= all
    ensures Expanded(uses, b, all)
  {}

  lemma ProperSubset(a: set<string>, b: set<string>)
    requires a < b
    ensures |a| < |b|
  {
    var x :| x in b && x !in a;
    assert a <= b - {x};
    FiniteSets.SubsetSize(a, b - {x});
  }

  /** One pass over the variables bound when it starts. It binds something new, leaving
      fewer names unbound, or finds every one of them expanded. */
  method Pass(seeds: seq<Bind>, uses: Uses, snapshot: seq<Bind>, bound: set<string>, ghost names: set<string>)
    returns (binds: seq<Bind>, all: set<string>, grew: bool)
    requires Proper(uses, names) && Sound(seeds, uses, snapshot, bound) && bound <= names
    ensures Sound(seeds, uses, binds, all) && bound <= all <= names
    ensures grew ==> |names - all| < |names - bound|
    ensures !grew ==> binds == snapshot && all == bound && forall b | b in binds :: Expanded(uses, b, all)
  {
    binds, all, grew := snapshot, bound, false;
    hide *;
    for i := 0 to |snapshot|
      invariant Sound(seeds, uses, binds, all) && snapshot <= binds && bound <= all <= names
      invariant |binds| > |snapshot| <==> all != bound
      invariant grew <==> all != bound
      invariant forall k | 0 <= k < i :: Expanded(uses, snapshot[k], all)
    {
      assert binds[i] == snapshot[i];
      var more, next := Expand(seeds, uses, snapshot[i], binds, all, names);
      forall k | 0 <= k < i ensures Expanded(uses, snapshot[k], next) { ExpandedGrows(uses, snapshot[k], all, next); }
      if |more| > |binds| { grew := true; }
      binds, all := more, next;
    }
    if grew {
      assert names - all < names - bound;
      ProperSubset(names - all, names - bound);
    } else {
      assert binds == snapshot;
    }
  }

  /** Passes over all bound variables until one binds nothing. At the end nothing
      reachable is unbound, and every slot comes from a seed. */
  method Propagate(seeds: seq<Bind>, uses: Uses, ghost names: set<string>) returns (binds: seq<Bind>)
    requires Proper(uses, names) && OneEach(seeds) && NamesOf(seeds) <= names
    ensures seeds <= binds && OneEach(binds) && AllReached(seeds, uses, binds)
    ensures forall b | b in binds :: Expanded(uses, b, NamesOf(binds))
  {
    Started(seeds, uses);
    binds := seeds;
    var bound := NamesOf(seeds);
    hide *;
    var grew := true;
    while grew
      invariant Sound(seeds, uses, binds, bound) && bound <= names
      invariant !grew ==> forall b | b in binds :: Expanded(uses, b, bound)
      decreases |names - bound|, grew
    {
      binds, bound, grew := Pass(seeds, uses, binds, bound, names);
    }
    Finished(seeds, uses, binds, bound);
  }

  lemma Started(seeds: seq<Bind>, uses: Uses)
    requires OneEach(seeds)
    ensures Sound(seeds, uses, seeds, NamesOf(seeds))
  {
    forall b | b in seeds ensures Reached(seeds, uses, b) { assert Derived(seeds, uses, b, 0); }
  }

  lemma Finished(seeds: seq<Bind>, uses: Uses, binds: seq<Bind>, bound: set<string>)
    requires Sound(seeds, uses, binds, bound)
    ensures seeds <= binds && OneEach(binds) && AllReached(seeds, uses, binds) && bound == NamesOf(binds)
  {}
}
