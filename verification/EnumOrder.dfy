/** When the order of the calls shows in the memoised walk over messages. A call cut off
    by the depth limit or by the cycle guard comes to nothing, and the shortened result of
    the message above it is cached; later calls return that. This happens exactly when
    some message, walked with an empty cache, cuts off another one with enum fields in reach. */
module EnumOrder {
  import opened EnumFields
  import opened Sequences

  // ---------------------------------------------------------------- enum fields in reach

  predicate HasEnum(entries: seq<Entry>) {
    exists e | e in entries :: e.EnumField?
  }

  ghost predicate LiveWithin(g: Graph, v: string, n: nat)
    decreases n
  {
    HasEnum(g(v)) || (n > 0 && exists e | e in g(v) && e.MessageField? :: LiveWithin(g, e.target, n - 1))
  }

  /** An enum field can be reached from this message. */
  ghost predicate Live(g: Graph, v: string) {
    exists n: nat :: LiveWithin(g, v, n)
  }

  lemma LiveAbove(g: Graph, v: string, e: Entry)
    requires e in g(v) && e.MessageField? && Live(g, e.target)
    ensures Live(g, v)
  {
    var n: nat :| LiveWithin(g, e.target, n);
    assert LiveWithin(g, v, n + 1);
  }

  lemma DeadHasNoEnum(g: Graph, v: string)
    requires !Live(g, v)
    ensures !HasEnum(g(v))
  {
    if HasEnum(g(v)) { assert LiveWithin(g, v, 0); }
  }

  // ---------------------------------------------------------------- calls cut off

  /** A call that returns nothing although nothing is known about its message. */
  predicate CutOff(v: string, depth: nat, visiting: seq<string>, cache: Cache) {
    v !in cache && (depth > LIMIT || v in visiting)
  }

  /** Somewhere below this call another message with enum fields in reach is cut off. */
  ghost predicate Hides(g: Graph, v: string, depth: nat, visiting: seq<string>, cache: Cache)
    decreases LIMIT + 1 - depth, 1, 0
  {
    v !in cache && depth <= LIMIT && v !in visiting && HidesBelow(g, v, g(v), depth, visiting + [v], cache)
  }

  ghost predicate HidesBelow(g: Graph, v: string, entries: seq<Entry>, depth: nat, visiting: seq<string>, cache: Cache)
    requires depth <= LIMIT
    decreases LIMIT + 1 - depth, 0, |entries|
  {
    entries != [] &&
    match entries[0]
    case EnumField(_, _) => HidesBelow(g, v, entries[1..], depth, visiting, cache)
    case MessageField(_, target) =>
      (target != v && Live(g, target) && CutOff(target, depth + 1, visiting, cache)) ||
      Hides(g, target, depth + 1, visiting, cache) ||
      HidesBelow(g, v, entries[1..], depth, visiting, Walk(g, target, depth + 1, visiting, cache).cache)
  }

  // ---------------------------------------------------------------- what a walk leaves in the cache

  /** Nothing cached is lost or changed. */
  predicate Extends(cache: Cache, later: Cache) {
    forall x | x in cache :: x in later && later[x] == cache[x]
  }

  /** Nothing being visited enters the cache. */
  predicate NoneOf(visiting: seq<string>, cache: Cache, later: Cache) {
    forall x | x in later && x in visiting :: x in cache
  }

  lemma {:induction false} WalkExtends(g: Graph, v: string, depth: nat, visiting: seq<string>, cache: Cache)
    ensures var w := Walk(g, v, depth, visiting, cache);
      Extends(cache, w.cache) && NoneOf(visiting, cache, w.cache) &&
      (CutOff(v, depth, visiting, cache) || (v in w.cache && w.cache[v] == w.out))
    decreases LIMIT + 1 - depth, 1, 0
  {
    if v !in cache && depth <= LIMIT && v !in visiting {
      EntriesExtend(g, g(v), map[], depth, visiting + [v], cache);
      var w := WalkEntries(g, g(v), map[], depth, visiting + [v], cache);
      forall x | x in w.cache[v := w.out] && x in visiting ensures x in cache {
        assert x in visiting + [v];
      }
    }
  }

  lemma {:induction false} EntriesExtend(g: Graph, entries: seq<Entry>, out: Paths, depth: nat, visiting: seq<string>, cache: Cache)
    requires depth <= LIMIT
    ensures var w := WalkEntries(g, entries, out, depth, visiting, cache);
      Extends(cache, w.cache) && NoneOf(visiting, cache, w.cache)
    decreases LIMIT + 1 - depth, 0, |entries|
  {
    WalkEntriesStep(g, entries, out, depth, visiting, cache);
    if entries != [] {
      hide Walk, WalkEntries, Prefixed;
      match entries[0]
      case EnumField(name, path) => EntriesExtend(g, entries[1..], out[name := path], depth, visiting, cache);
      case MessageField(name, target) =>
        WalkExtends(g, target, depth + 1, visiting, cache);
        var nested := Walk(g, target, depth + 1, visiting, cache);
        EntriesExtend(g, entries[1..], out + Prefixed(name, nested.out), depth, visiting, nested.cache);
    }
  }

  /** Below a message with nothing in reach only such messages are cached. */
  ghost predicate OnlyDead(g: Graph, cache: Cache, later: Cache) {
    forall x | x in later && Live(g, x) :: x in cache
  }

  lemma {:induction false} DeadWalk(g: Graph, v: string, depth: nat, visiting: seq<string>, cache: Cache)
    requires !Live(g, v)
    ensures OnlyDead(g, cache, Walk(g, v, depth, visiting, cache).cache)
    decreases LIMIT + 1 - depth, 1, 0
  {
    if v !in cache && depth <= LIMIT && v !in visiting {
      DeadEntries(g, v, g(v), map[], depth, visiting + [v], cache);
    }
  }

  lemma {:induction false} DeadEntries(g: Graph, v: string, entries: seq<Entry>, out: Paths, depth: nat, visiting: seq<string>, cache: Cache)
    requires !Live(g, v) && depth <= LIMIT && forall e | e in entries :: e in g(v)
    ensures OnlyDead(g, cache, WalkEntries(g, entries, out, depth, visiting, cache).cache)
    decreases LIMIT + 1 - depth, 0, |entries|
  {
    WalkEntriesStep(g, entries, out, depth, visiting, cache);
    if entries != [] {
      hide Walk, WalkEntries, Prefixed, Live;
      match entries[0]
      case EnumField(name, path) => DeadEntries(g, v, entries[1..], out[name := path], depth, visiting, cache);
      case MessageField(name, target) =>
        if Live(g, target) { LiveAbove(g, v, entries[0]); }
        DeadWalk(g, target, depth + 1, visiting, cache);
        var nested := Walk(g, target, depth + 1, visiting, cache);
        DeadEntries(g, v, entries[1..], out + Prefixed(name, nested.out), depth, visiting, nested.cache);
    }
  }

  // ---------------------------------------------------------------- complete results

  /** All enum fields of a message to a given depth, a message directly inside itself left out. */
  function Deep(g: Graph, v: string, n: nat): Paths
    decreases n, 0, 0
  {
    if n == 0 then map[] else DeepEntries(g, v, g(v), map[], n - 1)
  }

  function DeepEntries(g: Graph, v: string, entries: seq<Entry>, out: Paths, n: nat): Paths
    decreases n, 1, |entries|
  {
    if entries == [] then out
    else match entries[0]
      case EnumField(name, path) => DeepEntries(g, v, entries[1..], out[name := path], n)
      case MessageField(name, target) =>
        DeepEntries(g, v, entries[1..], out + Prefixed(name, if target == v then map[] else Deep(g, target, n)), n)
  }

  ghost predicate CompleteFrom(g: Graph, v: string, paths: Paths, n: nat) {
    forall m: nat | m >= n :: Deep(g, v, m) == paths
  }

  /** No depth shows more. */
  ghost predicate Complete(g: Graph, v: string, paths: Paths) {
    exists n: nat :: CompleteFrom(g, v, paths, n)
  }

  ghost predicate EntriesFrom(g: Graph, v: string, entries: seq<Entry>, out: Paths, paths: Paths, n: nat) {
    forall m: nat | m >= n :: DeepEntries(g, v, entries, out, m) == paths
  }

  ghost predicate EntriesComplete(g: Graph, v: string, entries: seq<Entry>, out: Paths, paths: Paths) {
    exists n: nat :: EntriesFrom(g, v, entries, out, paths, n)
  }

  lemma OneComplete(g: Graph, v: string, a: Paths, b: Paths)
    requires Complete(g, v, a) && Complete(g, v, b)
    ensures a == b
  {
    var m: nat :| CompleteFrom(g, v, a, m);
    var n: nat :| CompleteFrom(g, v, b, n);
    assert Deep(g, v, m + n) == a && Deep(g, v, m + n) == b;
  }

  lemma MessageComplete(g: Graph, v: string, paths: Paths)
    requires EntriesComplete(g, v, g(v), map[], paths)
    ensures Complete(g, v, paths)
  {
    var n: nat :| EntriesFrom(g, v, g(v), map[], paths, n);
    forall m: nat | m >= n + 1 ensures Deep(g, v, m) == paths {
      assert DeepEntries(g, v, g(v), map[], m - 1) == paths;
    }
    assert CompleteFrom(g, v, paths, n + 1);
  }

  lemma DeepStep(g: Graph, v: string, entries: seq<Entry>, out: Paths, n: nat)
    requires entries != []
    ensures DeepEntries(g, v, entries, out, n) == match entries[0]
      case EnumField(name, path) => DeepEntries(g, v, entries[1..], out[name := path], n)
      case MessageField(name, target) =>
        DeepEntries(g, v, entries[1..], out + Prefixed(name, if target == v then map[] else Deep(g, target, n)), n)
  {
    hide Deep, Prefixed;
  }

  /** One more entry in front. */
  lemma EnumComplete(g: Graph, v: string, entries: seq<Entry>, out: Paths, paths: Paths)
    requires entries != [] && entries[0].EnumField?
    requires EntriesComplete(g, v, entries[1..], out[entries[0].name := entries[0].path], paths)
    ensures EntriesComplete(g, v, entries, out, paths)
  {
    hide Deep, DeepEntries;
    var next := out[entries[0].name := entries[0].path];
    var n: nat :| EntriesFrom(g, v, entries[1..], next, paths, n);
    forall m: nat | m >= n ensures DeepEntries(g, v, entries, out, m) == paths {
      DeepStep(g, v, entries, out, m);
    }
    assert EntriesFrom(g, v, entries, out, paths, n);
  }

  lemma NestedComplete(g: Graph, v: string, entries: seq<Entry>, out: Paths, nested: Paths, paths: Paths)
    requires entries != [] && entries[0].MessageField?
    requires if entries[0].target == v then nested == map[] else Complete(g, entries[0].target, nested)
    requires EntriesComplete(g, v, entries[1..], out + Prefixed(entries[0].name, nested), paths)
    ensures EntriesComplete(g, v, entries, out, paths)
  {
    hide Deep, DeepEntries, Prefixed;
    var target := entries[0].target;
    var k: nat := 0;
    if target != v { k :| CompleteFrom(g, target, nested, k); }
    var next := out + Prefixed(entries[0].name, nested);
    var n: nat :| EntriesFrom(g, v, entries[1..], next, paths, n);
    forall m: nat | m >= n + k ensures DeepEntries(g, v, entries, out, m) == paths {
      DeepStep(g, v, entries, out, m);
      assert DeepEntries(g, v, entries[1..], next, m) == paths;
    }
    assert EntriesFrom(g, v, entries, out, paths, n + k);
  }

  lemma {:induction false} DeadDeep(g: Graph, v: string, n: nat)
    requires !Live(g, v)
    ensures Deep(g, v, n) == map[]
    decreases n, 0, 0
  {
    hide Live, DeepEntries;
    if n > 0 { DeadDeepEntries(g, v, g(v), n - 1); }
  }

  lemma {:induction false} DeadDeepEntries(g: Graph, v: string, entries: seq<Entry>, n: nat)
    requires !Live(g, v) && forall e | e in entries :: e in g(v)
    ensures DeepEntries(g, v, entries, map[], n) == map[]
    decreases n, 1, |entries|
  {
    if entries != [] {
      hide Live, Deep, DeepEntries, Prefixed;
      DeepStep(g, v, entries, map[], n);
      DeadHasNoEnum(g, v);
      assert entries[0] in g(v);
      var target := entries[0].target;
      if Live(g, target) { LiveAbove(g, v, entries[0]); }
      DeadDeep(g, target, n);
      NothingPrefixed(entries[0].name, map[]);
      DeadDeepEntries(g, v, entries[1..], n);
    }
  }

  lemma DeadComplete(g: Graph, v: string)
    requires !Live(g, v)
    ensures Complete(g, v, map[])
  {
    forall m: nat ensures Deep(g, v, m) == map[] { DeadDeep(g, v, m); }
    assert CompleteFrom(g, v, map[], 0);
  }

  // ---------------------------------------------------------------- nothing hidden: complete

  /** What the second cache knows is at least what the first one knows. */
  ghost predicate Covers(g: Graph, small: Cache, big: Cache) {
    forall x | x in small && Live(g, x) :: x in big
  }

  ghost predicate KnowsBelow(g: Graph, v: string, entries: seq<Entry>, cache: Cache) {
    forall e | e in entries && e.MessageField? && e.target != v && Live(g, e.target) :: e.target in cache
  }

  /** With a message the cache holds everything below it that matters. */
  ghost predicate Closed(g: Graph, cache: Cache) {
    forall x | x in cache :: KnowsBelow(g, x, g(x), cache)
  }

  ghost predicate AllComplete(g: Graph, cache: Cache) {
    forall x | x in cache :: Complete(g, x, cache[x])
  }

  lemma ClosedGrows(g: Graph, cache: Cache, later: Cache)
    requires Closed(g, cache) && Extends(cache, later) && OnlyDead(g, cache, later)
    ensures Closed(g, later)
  {
    forall x, e | x in later && e in g(x) && e.MessageField? && e.target != x && Live(g, e.target) ensures e.target in later {
      LiveAbove(g, x, e);
      assert KnowsBelow(g, x, g(x), cache);
    }
  }

  /** A walk over what the other cache already knows adds nothing to compare. */
  lemma {:induction false} Absorbed(g: Graph, v: string, depth: nat, visiting: seq<string>, cache: Cache, big: Cache)
    requires Closed(g, big) && Covers(g, cache, big) && v in big
    ensures Covers(g, Walk(g, v, depth, visiting, cache).cache, big)
    decreases LIMIT + 1 - depth, 1, 0
  {
    if v !in cache && depth <= LIMIT && v !in visiting {
      assert KnowsBelow(g, v, g(v), big);
      AbsorbedEntries(g, v, g(v), map[], depth, visiting + [v], cache, big);
    }
  }

  lemma {:induction false} AbsorbedEntries(g: Graph, v: string, entries: seq<Entry>, out: Paths, depth: nat, visiting: seq<string>, cache: Cache, big: Cache)
    requires Closed(g, big) && Covers(g, cache, big) && v in big && KnowsBelow(g, v, entries, big) && depth <= LIMIT
    ensures Covers(g, WalkEntries(g, entries, out, depth, visiting, cache).cache, big)
    decreases LIMIT + 1 - depth, 0, |entries|
  {
    WalkEntriesStep(g, entries, out, depth, visiting, cache);
    if entries != [] {
      hide Walk, WalkEntries, Prefixed, Live, Closed;
      match entries[0]
      case EnumField(name, path) => AbsorbedEntries(g, v, entries[1..], out[name := path], depth, visiting, cache, big);
      case MessageField(name, target) =>
        assert entries[0] in entries;
        if Live(g, target) {
          Absorbed(g, target, depth + 1, visiting, cache, big);
        } else {
          DeadWalk(g, target, depth + 1, visiting, cache);
        }
        var nested := Walk(g, target, depth + 1, visiting, cache);
        AbsorbedEntries(g, v, entries[1..], out + Prefixed(name, nested.out), depth, visiting, nested.cache, big);
    }
  }

  /** A message with nothing in reach comes to nothing under any complete cache. */
  lemma {:induction false} DeadResult(g: Graph, v: string, depth: nat, visiting: seq<string>, cache: Cache)
    requires !Live(g, v) && AllComplete(g, cache)
    ensures var w := Walk(g, v, depth, visiting, cache); w.out == map[] && AllComplete(g, w.cache)
    decreases LIMIT + 1 - depth, 1, 0
  {
    hide WalkEntries, Live, Complete;
    DeadComplete(g, v);
    if v in cache {
      OneComplete(g, v, cache[v], map[]);
    } else if depth <= LIMIT && v !in visiting {
      DeadResults(g, v, g(v), depth, visiting + [v], cache);
    }
  }

  lemma {:induction false} DeadResults(g: Graph, v: string, entries: seq<Entry>, depth: nat, visiting: seq<string>, cache: Cache)
    requires !Live(g, v) && AllComplete(g, cache) && depth <= LIMIT && forall e | e in entries :: e in g(v)
    ensures var w := WalkEntries(g, entries, map[], depth, visiting, cache); w.out == map[] && AllComplete(g, w.cache)
    decreases LIMIT + 1 - depth, 0, |entries|
  {
    WalkEntriesStep(g, entries, map[], depth, visiting, cache);
    if entries != [] {
      hide Walk, WalkEntries, Prefixed, Live, AllComplete;
      DeadHasNoEnum(g, v);
      assert entries[0] in g(v);
      var target := entries[0].target;
      if Live(g, target) { LiveAbove(g, v, entries[0]); }
      DeadResult(g, target, depth + 1, visiting, cache);
      NothingPrefixed(entries[0].name, map[]);
      DeadResults(g, v, entries[1..], depth, visiting, Walk(g, target, depth + 1, visiting, cache).cache);
    }
  }

  /** What both runs keep: the one that starts with nothing, and the one with a cache. */
  ghost predicate InStep(g: Graph, cache: Cache, big: Cache) {
    Covers(g, cache, big) && Closed(g, big) && AllComplete(g, big)
  }

  lemma DeadInStep(g: Graph, v: string, depth: nat, visiting: seq<string>, cache: Cache, big: Cache)
    requires !Live(g, v) && InStep(g, cache, big)
    ensures var w := Walk(g, v, depth, visiting, big);
      w.out == map[] && InStep(g, Walk(g, v, depth, visiting, cache).cache, w.cache)
  {
    hide Walk, Live, Closed, AllComplete;
    DeadResult(g, v, depth, visiting, big);
    DeadWalk(g, v, depth, visiting, cache);
    DeadWalk(g, v, depth, visiting, big);
    WalkExtends(g, v, depth, visiting, big);
    ClosedGrows(g, big, Walk(g, v, depth, visiting, big).cache);
  }

  lemma KnownInStep(g: Graph, v: string, depth: nat, visiting: seq<string>, cache: Cache, big: Cache)
    requires v in big && InStep(g, cache, big)
    ensures var w := Walk(g, v, depth, visiting, big);
      w.out == big[v] && w.cache == big && Complete(g, v, w.out) && InStep(g, Walk(g, v, depth, visiting, cache).cache, big)
  {
    hide WalkEntries, Live, Closed, Complete;
    Absorbed(g, v, depth, visiting, cache, big);
  }

  lemma HidesStep(g: Graph, v: string, entries: seq<Entry>, depth: nat, visiting: seq<string>, cache: Cache)
    requires depth <= LIMIT && entries != [] && !HidesBelow(g, v, entries, depth, visiting, cache)
    ensures entries[0].EnumField? ==> !HidesBelow(g, v, entries[1..], depth, visiting, cache)
    ensures entries[0].MessageField? ==>
      var target := entries[0].target;
      !(target != v && Live(g, target) && CutOff(target, depth + 1, visiting, cache)) &&
      !Hides(g, target, depth + 1, visiting, cache) &&
      !HidesBelow(g, v, entries[1..], depth, visiting, Walk(g, target, depth + 1, visiting, cache).cache)
  {
    hide Hides, Live, Walk;
  }

  /** A message and its result join both caches. */
  lemma Entered(g: Graph, v: string, cache: Cache, own: Paths, big: Cache, paths: Paths)
    requires InStep(g, cache, big) && KnowsBelow(g, v, g(v), big) && Complete(g, v, paths)
    ensures InStep(g, cache[v := own], big[v := paths])
  {
    hide Live, Complete;
    var later := big[v := paths];
    forall x | x in later ensures KnowsBelow(g, x, g(x), later) {
      if x != v { assert KnowsBelow(g, x, g(x), big); }
    }
  }

  /** A message whose walk from an empty cache cuts off nothing that matters gets its
      complete result under any cache such walks have left behind. */
  lemma {:induction false} WalkComplete(g: Graph, v: string, depth: nat, visiting: seq<string>, cache: Cache, big: Cache)
    requires InStep(g, cache, big) && !Hides(g, v, depth, visiting, cache)
    requires !Live(g, v) || !CutOff(v, depth, visiting, cache)
    ensures var w := Walk(g, v, depth, visiting, big);
      InStep(g, Walk(g, v, depth, visiting, cache).cache, w.cache) && Complete(g, v, w.out) && (Live(g, v) ==> v in w.cache)
    decreases LIMIT + 1 - depth, 1, 0
  {
    hide WalkEntries, Live, Complete, HidesBelow, Closed, AllComplete;
    if !Live(g, v) {
      DeadInStep(g, v, depth, visiting, cache, big);
      DeadComplete(g, v);
    } else if v in big {
      KnownInStep(g, v, depth, visiting, cache, big);
    } else {
      FieldsComplete(g, v, g(v), map[], depth, visiting + [v], cache, big);
      var e := WalkEntries(g, g(v), map[], depth, visiting + [v], cache);
      var w := WalkEntries(g, g(v), map[], depth, visiting + [v], big);
      MessageComplete(g, v, w.out);
      Entered(g, v, e.cache, e.out, w.cache, w.out);
    }
  }

  lemma {:induction false} FieldsComplete(g: Graph, v: string, entries: seq<Entry>, out: Paths, depth: nat, visiting: seq<string>, cache: Cache, big: Cache)
    requires InStep(g, cache, big) && depth <= LIMIT && !HidesBelow(g, v, entries, depth, visiting, cache)
    requires v in visiting && v !in cache && v !in big
    ensures var w := WalkEntries(g, entries, out, depth, visiting, big);
      InStep(g, WalkEntries(g, entries, out, depth, visiting, cache).cache, w.cache) &&
      KnowsBelow(g, v, entries, w.cache) && EntriesComplete(g, v, entries, out, w.out)
    decreases LIMIT + 1 - depth, 0, |entries|
  {
    WalkEntriesStep(g, entries, out, depth, visiting, cache);
    WalkEntriesStep(g, entries, out, depth, visiting, big);
    if entries == [] {
      hide Live, Complete, WalkEntries;
      assert EntriesFrom(g, v, entries, out, out, 0);
    } else {
      hide *;
      HidesStep(g, v, entries, depth, visiting, cache);
      match entries[0]
      case EnumField(name, path) =>
        FieldsComplete(g, v, entries[1..], out[name := path], depth, visiting, cache, big);
        EnumComplete(g, v, entries, out, WalkEntries(g, entries, out, depth, visiting, big).out);
        KnowsMore(g, v, entries, WalkEntries(g, entries, out, depth, visiting, big).cache);
      case MessageField(name, target) =>
        NextComplete(g, v, target, depth, visiting, cache, big);
        var own, nested := Walk(g, target, depth + 1, visiting, cache), Walk(g, target, depth + 1, visiting, big);
        FieldsComplete(g, v, entries[1..], out + Prefixed(name, nested.out), depth, visiting, own.cache, nested.cache);
        OutAside(g, entries[1..], out + Prefixed(name, own.out), out + Prefixed(name, nested.out), depth, visiting, own.cache);
        NestedComplete(g, v, entries, out, nested.out, WalkEntries(g, entries, out, depth, visiting, big).out);
        EntriesExtend(g, entries[1..], out + Prefixed(name, nested.out), depth, visiting, nested.cache);
        KnowsMore(g, v, entries, WalkEntries(g, entries, out, depth, visiting, big).cache);
    }
  }

  /** The cache a walk leaves does not depend on what was collected before. */
  lemma {:induction false} OutAside(g: Graph, entries: seq<Entry>, out: Paths, out1: Paths, depth: nat, visiting: seq<string>, cache: Cache)
    requires depth <= LIMIT
    ensures WalkEntries(g, entries, out, depth, visiting, cache).cache == WalkEntries(g, entries, out1, depth, visiting, cache).cache
    decreases |entries|
  {
    WalkEntriesStep(g, entries, out, depth, visiting, cache);
    WalkEntriesStep(g, entries, out1, depth, visiting, cache);
    if entries != [] {
      hide *;
      match entries[0]
      case EnumField(name, path) => OutAside(g, entries[1..], out[name := path], out1[name := path], depth, visiting, cache);
      case MessageField(name, target) =>
        var nested := Walk(g, target, depth + 1, visiting, cache);
        OutAside(g, entries[1..], out + Prefixed(name, nested.out), out1 + Prefixed(name, nested.out), depth, visiting, nested.cache);
    }
  }

  lemma KnowsMore(g: Graph, v: string, entries: seq<Entry>, cache: Cache)
    requires entries != [] && KnowsBelow(g, v, entries[1..], cache)
    requires entries[0].MessageField? && entries[0].target != v && Live(g, entries[0].target) ==> entries[0].target in cache
    ensures KnowsBelow(g, v, entries, cache)
  {
    hide Live;
    forall e | e in entries && e.MessageField? && e.target != v && Live(g, e.target) ensures e.target in cache {
      assert e == entries[0] || e in entries[1..];
    }
  }

  /** One nested message: the containing one itself comes to nothing in both runs. */
  lemma {:induction false} NextComplete(g: Graph, v: string, target: string, depth: nat, visiting: seq<string>, cache: Cache, big: Cache)
    requires InStep(g, cache, big) && depth <= LIMIT && v in visiting && v !in cache && v !in big
    requires !(target != v && Live(g, target) && CutOff(target, depth + 1, visiting, cache))
    requires !Hides(g, target, depth + 1, visiting, cache)
    ensures var own, nested := Walk(g, target, depth + 1, visiting, cache), Walk(g, target, depth + 1, visiting, big);
      InStep(g, own.cache, nested.cache) && v !in own.cache && v !in nested.cache && Extends(big, nested.cache) &&
      (if target == v then nested.out == map[] else Complete(g, target, nested.out) && (Live(g, target) ==> target in nested.cache))
    decreases LIMIT + 1 - (depth + 1), 2, 0
  {
    hide Walk, Hides, Live, Complete, InStep, CutOff;
    WalkExtends(g, target, depth + 1, visiting, cache);
    WalkExtends(g, target, depth + 1, visiting, big);
    if target == v {
      WalkStep(g, v, depth + 1, visiting, cache);
      WalkStep(g, v, depth + 1, visiting, big);
    } else {
      WalkComplete(g, target, depth + 1, visiting, cache, big);
    }
  }

  // ---------------------------------------------------------------- passes over all messages

  /** The fields found for a message; only non-empty ones are stored. */
  function FieldsOf(found: map<string, Paths>, v: string): Paths {
    if v in found then found[v] else map[]
  }

  ghost predicate NothingHidden(g: Graph, v: string) {
    !Hides(g, v, 0, [], map[])
  }

  lemma PassStep(g: Graph, messages: seq<string>, found: map<string, Paths>, cache: Cache)
    requires messages != []
    ensures var w := Walk(g, messages[0], 0, [], cache);
      WalkAll(g, messages, found, cache) ==
      WalkAll(g, messages[1..], if |w.out| > 0 then found[messages[0] := w.out] else found, w.cache)
  {
    hide Walk;
  }

  lemma {:induction false} OthersStay(g: Graph, messages: seq<string>, found: map<string, Paths>, cache: Cache, v: string)
    requires v !in messages
    ensures FieldsOf(WalkAll(g, messages, found, cache).found, v) == FieldsOf(found, v)
    ensures v in WalkAll(g, messages, found, cache).found <==> v in found
    decreases |messages|
  {
    if messages != [] {
      hide Walk, WalkAll;
      PassStep(g, messages, found, cache);
      var w := Walk(g, messages[0], 0, [], cache);
      OthersStay(g, messages[1..], if |w.out| > 0 then found[messages[0] := w.out] else found, w.cache, v);
    }
  }

  lemma KeepsStep(g: Graph, cache: Cache, big: Cache)
    requires InStep(g, cache, big)
    ensures InStep(g, map[], big)
  {}

  /** Where nothing that matters is cut off, every order finds the complete results. */
  lemma {:induction false} PassComplete(g: Graph, messages: seq<string>, found: map<string, Paths>, cache: Cache)
    requires InStep(g, map[], cache) && Distinct(messages)
    requires forall v | v in messages :: NothingHidden(g, v) && v !in found
    ensures forall v | v in messages :: Complete(g, v, FieldsOf(WalkAll(g, messages, found, cache).found, v))
    decreases |messages|
  {
    if messages != [] {
      hide Walk, WalkAll, Hides, InStep, Complete, Live;
      PassStep(g, messages, found, cache);
      var v, rest := messages[0], messages[1..];
      assert NothingHidden(g, v);
      WalkComplete(g, v, 0, [], map[], cache);
      KeepsStep(g, Walk(g, v, 0, [], map[]).cache, Walk(g, v, 0, [], cache).cache);
      var w := Walk(g, v, 0, [], cache);
      var next := if |w.out| > 0 then found[v := w.out] else found;
      assert FieldsOf(next, v) == w.out;
      assert forall u :: u in messages <==> u == v || u in rest;
      PassComplete(g, rest, next, w.cache);
      OthersStay(g, rest, next, w.cache, v);
    }
  }

  /** A message whose call on a fresh cache and a message walked before it: what the pass
      then stores for the second one. */
  lemma {:induction false} CachedIsFound(g: Graph, messages: seq<string>, found: map<string, Paths>, cache: Cache, p: string)
    requires p in messages && p in cache && p !in found && Distinct(messages)
    ensures FieldsOf(WalkAll(g, messages, found, cache).found, p) == cache[p]
    decreases |messages|
  {
    hide Walk, WalkAll;
    PassStep(g, messages, found, cache);
    var v, rest := messages[0], messages[1..];
    WalkExtends(g, v, 0, [], cache);
    var w := Walk(g, v, 0, [], cache);
    var next := if |w.out| > 0 then found[v := w.out] else found;
    if v == p {
      OthersStay(g, rest, next, w.cache, p);
    } else {
      CachedIsFound(g, rest, next, w.cache, p);
    }
  }

  // ---------------------------------------------------------------- something hidden: order shows

  /** A key that lies below this field. */
  predicate Under(key: string, field: string) {
    |key| > |field| && key[..|field|] == field && key[|field|] == '.'
  }

  predicate Lacks(paths: Paths, field: string) {
    forall k | k in paths :: !Under(k, field)
  }

  /** Field names hold no dot, and no two fields of a message share a name. */
  predicate Named(entries: seq<Entry>) {
    (forall e | e in entries :: '.' !in e.name) &&
    forall i, j | 0 <= i < j < |entries| :: entries[i].name != entries[j].name
  }

  /** The messages form a whole: what they hold is among them or holds nothing. */
  ghost predicate Whole(g: Graph, all: set<string>) {
    forall v | v in all :: Named(g(v)) && forall e | e in g(v) && e.MessageField? :: e.target in all || g(e.target) == []
  }

  /** The result lacks what lies behind this field, though there is an enum field behind it. */
  ghost predicate Shortened(g: Graph, p: string, e: Entry, paths: Paths) {
    e in g(p) && e.MessageField? && e.target != p && Live(g, e.target) && Lacks(paths, e.name)
  }

  lemma PrefixedUnder(field: string, nested: Paths, other: string)
    requires '.' !in field && '.' !in other
    ensures field != other ==> Lacks(Prefixed(field, nested), other)
    ensures nested != map[] ==> exists k :: k in Prefixed(field, nested) && Under(k, field)
  {
    var p := Prefixed(field, nested);
    forall k | k in p && Under(k, other) ensures field == other {
      var x :| x in nested && k == field + "." + x;
      SameHead(field, other, k);
    }
    if nested != map[] {
      var x :| x in nested;
      PrefixedSpec(field, nested, x);
      assert Under(field + "." + x, field);
    }
  }

  lemma SameHead(a: string, b: string, k: string)
    requires '.' !in a && '.' !in b && Under(k, a) && Under(k, b)
    ensures a == b
  {
    assert forall i | 0 <= i < |a| :: k[i] == a[i] by { assert a == k[..|a|]; }
    assert forall i | 0 <= i < |b| :: k[i] == b[i] by { assert b == k[..|b|]; }
    assert |a| == |b|;
  }

  /** Nothing that was collected is dropped, and other fields add nothing under this one. */
  lemma {:induction false} FieldsKept(g: Graph, entries: seq<Entry>, out: Paths, depth: nat, visiting: seq<string>, cache: Cache, field: string)
    requires depth <= LIMIT && '.' !in field && (forall e | e in entries :: '.' !in e.name)
    ensures var w := WalkEntries(g, entries, out, depth, visiting, cache);
      out.Keys <= w.out.Keys &&
      (Lacks(out, field) && (forall e | e in entries :: e.name != field) ==> Lacks(w.out, field))
    decreases |entries|
  {
    WalkEntriesStep(g, entries, out, depth, visiting, cache);
    if entries != [] {
      hide Walk, WalkEntries, Prefixed;
      assert entries[0] in entries;
      match entries[0]
      case EnumField(name, path) =>
        NoDotUnder(name, field);
        FieldsKept(g, entries[1..], out[name := path], depth, visiting, cache, field);
      case MessageField(name, target) =>
        var nested := Walk(g, target, depth + 1, visiting, cache);
        PrefixedUnder(name, nested.out, field);
        FieldsKept(g, entries[1..], out + Prefixed(name, nested.out), depth, visiting, nested.cache, field);
    }
  }

  lemma NoDotUnder(name: string, field: string)
    requires '.' !in name
    ensures !Under(name, field)
  {}

  /** Some message entered the cache with a shortened result. */
  ghost predicate SomeShortened(g: Graph, all: set<string>, cache: Cache, later: Cache) {
    exists p, e :: p in all && p !in cache && p in later && Shortened(g, p, e, later[p])
  }

  lemma ShortenedLater(g: Graph, all: set<string>, cache: Cache, first: Cache, later: Cache, last: Cache)
    requires SomeShortened(g, all, first, later) && Extends(cache, first) && Extends(later, last)
    ensures SomeShortened(g, all, cache, last)
  {
    hide Shortened;
    var p, e :| p in all && p !in first && p in later && Shortened(g, p, e, later[p]);
    assert p in last && last[p] == later[p];
  }

  /** Wherever something is cut off, the message above it is cached without it. */
  lemma {:induction false} HiddenIsShortened(g: Graph, all: set<string>, v: string, depth: nat, visiting: seq<string>, cache: Cache)
    requires Whole(g, all) && Hides(g, v, depth, visiting, cache) && (v in all || g(v) == [])
    ensures SomeShortened(g, all, cache, Walk(g, v, depth, visiting, cache).cache)
    decreases LIMIT + 1 - depth, 1, 0
  {
    hide Live, HidesBelow, Shortened, WalkEntries;
    NothingBelow(g, v, depth, visiting + [v], cache);
    assert g(v) != [] && v in all;
    HiddenBelow(g, all, v, g(v), map[], depth, visiting + [v], cache);
    EntriesExtend(g, g(v), map[], depth, visiting + [v], cache);
    var w := WalkEntries(g, g(v), map[], depth, visiting + [v], cache);
    var later := w.cache[v := w.out];
    assert v in visiting + [v];
    if SomeShortened(g, all, cache, w.cache) {
      var p, e :| p in all && p !in cache && p in w.cache && Shortened(g, p, e, w.cache[p]);
      assert p in later && later[p] == w.cache[p];
    } else {
      var e :| e in g(v) && Shortened(g, v, e, w.out);
      assert later[v] == w.out;
    }
  }

  lemma NothingBelow(g: Graph, v: string, depth: nat, visiting: seq<string>, cache: Cache)
    requires depth <= LIMIT
    ensures !HidesBelow(g, v, [], depth, visiting, cache)
  {}

  lemma HiddenCases(g: Graph, v: string, entries: seq<Entry>, depth: nat, visiting: seq<string>, cache: Cache)
    requires depth <= LIMIT && HidesBelow(g, v, entries, depth, visiting, cache)
    ensures entries != []
    ensures entries[0].EnumField? ==> HidesBelow(g, v, entries[1..], depth, visiting, cache)
    ensures entries[0].MessageField? ==>
      var target := entries[0].target;
      (target != v && Live(g, target) && CutOff(target, depth + 1, visiting, cache)) ||
      Hides(g, target, depth + 1, visiting, cache) ||
      HidesBelow(g, v, entries[1..], depth, visiting, Walk(g, target, depth + 1, visiting, cache).cache)
  {
    hide Hides, Live, Walk, CutOff;
  }

  lemma {:induction false} HiddenBelow(g: Graph, all: set<string>, v: string, entries: seq<Entry>, out: Paths, depth: nat, visiting: seq<string>, cache: Cache)
    requires Whole(g, all) && v in all && depth <= LIMIT && HidesBelow(g, v, entries, depth, visiting, cache)
    requires Named(entries) && (forall e | e in entries :: e in g(v)) && forall e | e in entries :: Lacks(out, e.name)
    ensures var w := WalkEntries(g, entries, out, depth, visiting, cache);
      SomeShortened(g, all, cache, w.cache) || exists e :: e in g(v) && Shortened(g, v, e, w.out)
    decreases LIMIT + 1 - depth, 0, |entries|
  {
    WalkEntriesStep(g, entries, out, depth, visiting, cache);
    HiddenCases(g, v, entries, depth, visiting, cache);
    hide *;
    match entries[0]
    case EnumField(name, path) =>
      LacksAfter(entries, out, out[name := path]);
      HiddenBelow(g, all, v, entries[1..], out[name := path], depth, visiting, cache);
    case MessageField(name, target) =>
      WalkExtends(g, target, depth + 1, visiting, cache);
      var nested := Walk(g, target, depth + 1, visiting, cache);
      var next := out + Prefixed(name, nested.out);
      EntriesExtend(g, entries[1..], next, depth, visiting, nested.cache);
      var w := WalkEntries(g, entries[1..], next, depth, visiting, nested.cache);
      if target != v && Live(g, target) && CutOff(target, depth + 1, visiting, cache) {
        CutOffShortens(g, v, entries, out, depth, visiting, cache);
      } else if Hides(g, target, depth + 1, visiting, cache) {
        TargetOf(g, all, v, entries);
        HiddenIsShortened(g, all, target, depth + 1, visiting, cache);
        SameCache(cache);
        ShortenedLater(g, all, cache, cache, nested.cache, w.cache);
      } else {
        LacksAfter(entries, out, next);
        HiddenBelow(g, all, v, entries[1..], next, depth, visiting, nested.cache);
        if SomeShortened(g, all, nested.cache, w.cache) {
          SameCache(w.cache);
          ShortenedLater(g, all, cache, nested.cache, w.cache, w.cache);
        }
      }
  }

  lemma SameCache(cache: Cache)
    ensures Extends(cache, cache)
  {}

  lemma TargetOf(g: Graph, all: set<string>, v: string, entries: seq<Entry>)
    requires Whole(g, all) && v in all && entries != [] && entries[0].MessageField? && forall e | e in entries :: e in g(v)
    ensures entries[0].target in all || g(entries[0].target) == []
  {
    assert entries[0] in g(v);
  }

  /** One field more leaves the other fields lacking. */
  lemma LacksAfter(entries: seq<Entry>, out: Paths, next: Paths)
    requires entries != [] && Named(entries) && forall e | e in entries :: Lacks(out, e.name)
    requires match entries[0]
      case EnumField(name, path) => next == out[name := path]
      case MessageField(name, _) => exists nested :: next == out + Prefixed(name, nested)
    ensures Named(entries[1..]) && forall e | e in entries[1..] :: e in entries && Lacks(next, e.name)
  {
    hide Prefixed;
    forall e | e in entries[1..] ensures Lacks(next, e.name) {
      var i :| 0 <= i < |entries| - 1 && entries[1..][i] == e;
      assert entries[i + 1] == e && entries[0].name != e.name && e in entries;
      match entries[0]
      case EnumField(name, _) => NoDotUnder(name, e.name);
      case MessageField(name, _) =>
        var nested :| next == out + Prefixed(name, nested);
        PrefixedUnder(name, nested, e.name);
    }
  }

  lemma CutOffShortens(g: Graph, v: string, entries: seq<Entry>, out: Paths, depth: nat, visiting: seq<string>, cache: Cache)
    requires depth <= LIMIT && entries != [] && entries[0].MessageField? && entries[0] in g(v) && Named(entries)
    requires entries[0].target != v && Live(g, entries[0].target) && CutOff(entries[0].target, depth + 1, visiting, cache)
    requires Lacks(out, entries[0].name)
    ensures Shortened(g, v, entries[0], WalkEntries(g, entries, out, depth, visiting, cache).out)
  {
    hide WalkEntries, Live, Prefixed;
    var name := entries[0].name;
    WalkEntriesStep(g, entries, out, depth, visiting, cache);
    NothingPrefixed(name, out);
    forall e | e in entries[1..] ensures e.name != name && '.' !in e.name {
      var i :| 0 <= i < |entries| - 1 && entries[1..][i] == e;
      assert entries[i + 1] == e && e in entries;
    }
    assert entries[0] in entries;
    FieldsKept(g, entries[1..], out, depth, visiting, cache, name);
  }

  /** What every message newly in the cache with an enum field of its own has: a field. */
  ghost predicate EnumsShow(g: Graph, cache: Cache, later: Cache) {
    forall x | x in later && x !in cache && HasEnum(g(x)) :: later[x] != map[]
  }

  lemma {:induction false} WalkShows(g: Graph, v: string, depth: nat, visiting: seq<string>, cache: Cache)
    ensures EnumsShow(g, cache, Walk(g, v, depth, visiting, cache).cache)
    decreases LIMIT + 1 - depth, 1, 0
  {
    hide WalkEntries;
    if v !in cache && depth <= LIMIT && v !in visiting {
      EntriesShow(g, g(v), map[], depth, visiting + [v], cache);
    }
  }

  lemma {:induction false} EntriesShow(g: Graph, entries: seq<Entry>, out: Paths, depth: nat, visiting: seq<string>, cache: Cache)
    requires depth <= LIMIT
    ensures var w := WalkEntries(g, entries, out, depth, visiting, cache);
      EnumsShow(g, cache, w.cache) && out.Keys <= w.out.Keys && (HasEnum(entries) ==> w.out != map[])
    decreases LIMIT + 1 - depth, 0, |entries|
  {
    WalkEntriesStep(g, entries, out, depth, visiting, cache);
    if entries == [] {
      hide Walk, WalkEntries;
    } else {
      hide *;
      EnumFirst(entries);
      match entries[0]
      case EnumField(name, path) =>
        EntriesShow(g, entries[1..], out[name := path], depth, visiting, cache);
        assert name in out[name := path];
      case MessageField(name, target) =>
        WalkShows(g, target, depth + 1, visiting, cache);
        WalkExtends(g, target, depth + 1, visiting, cache);
        var nested := Walk(g, target, depth + 1, visiting, cache);
        EntriesShow(g, entries[1..], out + Prefixed(name, nested.out), depth, visiting, nested.cache);
        var w := WalkEntries(g, entries[1..], out + Prefixed(name, nested.out), depth, visiting, nested.cache);
        EntriesExtend(g, entries[1..], out + Prefixed(name, nested.out), depth, visiting, nested.cache);
        ShowOn(g, cache, nested.cache, w.cache);
    }
  }

  lemma EnumFirst(entries: seq<Entry>)
    requires entries != []
    ensures HasEnum(entries) <==> entries[0].EnumField? || HasEnum(entries[1..])
  {
    assert forall e :: e in entries <==> e == entries[0] || e in entries[1..];
  }

  lemma ShowOn(g: Graph, cache: Cache, next: Cache, later: Cache)
    requires EnumsShow(g, cache, next) && EnumsShow(g, next, later) && Extends(next, later)
    ensures EnumsShow(g, cache, later)
  {
    hide HasEnum;
  }

  /** In a message's own walk, what a field adds is what its message is cached with. */
  lemma {:induction false} FieldShows(g: Graph, p: string, entries: seq<Entry>, e: Entry, out: Paths, cache: Cache)
    requires e in entries && e.MessageField? && e.target != p && forall d | d in entries :: '.' !in d.name
    ensures var w := WalkEntries(g, entries, out, 0, [p], cache);
      e.target in w.cache && (w.cache[e.target] != map[] ==> !Lacks(w.out, e.name))
    decreases |entries|
  {
    WalkEntriesStep(g, entries, out, 0, [p], cache);
    hide Walk, WalkEntries, Prefixed, Lacks;
    var rest := entries[1..];
    assert e == entries[0] || e in rest;
    match entries[0]
    case EnumField(name, path) =>
      FieldShows(g, p, rest, e, out[name := path], cache);
    case MessageField(name, target) =>
      var nested := Walk(g, target, 1, [p], cache);
      var next := out + Prefixed(name, nested.out);
      if e in rest {
        FieldShows(g, p, rest, e, next, nested.cache);
      } else {
        FirstShows(g, p, rest, name, target, out, cache);
      }
  }

  lemma FirstShows(g: Graph, p: string, rest: seq<Entry>, name: string, target: string, out: Paths, cache: Cache)
    requires target != p && '.' !in name
    ensures var nested := Walk(g, target, 1, [p], cache);
      var w := WalkEntries(g, rest, out + Prefixed(name, nested.out), 0, [p], nested.cache);
      target in w.cache && (w.cache[target] != map[] ==> !Lacks(w.out, name))
  {
    hide Walk, WalkEntries, Prefixed;
    WalkExtends(g, target, 1, [p], cache);
    var nested := Walk(g, target, 1, [p], cache);
    PrefixedUnder(name, nested.out, name);
    EntriesExtend(g, rest, out + Prefixed(name, nested.out), 0, [p], nested.cache);
    EntriesShow(g, rest, out + Prefixed(name, nested.out), 0, [p], nested.cache);
  }

  /** The result of a message's walk on its own. */
  function Own(g: Graph, v: string): Paths {
    Walk(g, v, 0, [], map[]).out
  }

  lemma OwnStep(g: Graph, v: string)
    ensures var w := WalkEntries(g, g(v), map[], 0, [v], map[]);
      Walk(g, v, 0, [], map[]) == Walked(w.out, w.cache[v := w.out])
  {
    hide WalkEntries;
    assert [] + [v] == [v];
    WalkStep(g, v, 0, [], map[]);
  }

  /** A field that the message's own walk misses too: its message came to nothing there. */
  lemma MissedInOwn(g: Graph, all: set<string>, p: string, e: Entry)
    requires Whole(g, all) && p in all && Shortened(g, p, e, Own(g, p))
    ensures var c := Walk(g, p, 0, [], map[]).cache;
      e.target in c && c[e.target] == map[] && !HasEnum(g(e.target))
  {
    hide Walk, WalkEntries, Live, Lacks, HasEnum;
    OwnStep(g, p);
    FieldShows(g, p, g(p), e, map[], map[]);
    WalkShows(g, p, 0, [], map[]);
  }

  /** One message walked first leaves another one with a result that is not its own. */
  ghost predicate Spoils(g: Graph, u: string, p: string) {
    var c := Walk(g, u, 0, [], map[]).cache;
    p in c && c[p] != Own(g, p)
  }

  /** A shortened result is somewhere a wrong one: where the field nearest to its enum
      field was cut off. */
  lemma {:induction false} ShortenedSpoils(g: Graph, all: set<string>, u: string, p: string, e: Entry, n: nat) returns (u1: string, p1: string)
    requires Whole(g, all) && u in all && p in all && p in Walk(g, u, 0, [], map[]).cache
    requires Shortened(g, p, e, Walk(g, u, 0, [], map[]).cache[p]) && LiveWithin(g, e.target, n)
    ensures u1 in all && p1 in all && Spoils(g, u1, p1)
    decreases n
  {
    hide Walk, Live, Lacks;
    if !Lacks(Own(g, p), e.name) {
      u1, p1 := u, p;
    } else {
      MissedInOwn(g, all, p, e);
      var y := e.target;
      var d :| d in g(y) && d.MessageField? && LiveWithin(g, d.target, n - 1);
      if d.target == y {
        u1, p1 := ShortenedSpoils(g, all, u, p, e, n - 1);
      } else {
        NextShortened(g, all, p, e, d, n - 1);
        u1, p1 := ShortenedSpoils(g, all, p, y, d, n - 1);
      }
    }
  }

  lemma NextShortened(g: Graph, all: set<string>, p: string, e: Entry, d: Entry, n: nat)
    requires Whole(g, all) && p in all && e in g(p) && e.MessageField? && d in g(e.target) && d.MessageField? && d.target != e.target
    requires LiveWithin(g, d.target, n)
    ensures e.target in all && Shortened(g, e.target, d, map[])
  {}

  /** Two orders of the same messages that find different fields. */
  lemma SpoiledOrders(g: Graph, all: set<string>, u: string, p: string) returns (ms: seq<string>, ns: seq<string>)
    requires u in all && p in all && Spoils(g, u, p)
    ensures Lists(ms, all) && Lists(ns, all)
    ensures FieldsOf(WalkAll(g, ms, map[], map[]).found, p) != FieldsOf(WalkAll(g, ns, map[], map[]).found, p)
  {
    hide Walk, WalkAll;
    WalkExtends(g, u, 0, [], map[]);
    var first := ListedFrom(p, all);
    var second := ListedFrom(u, all);
    ms, ns := [p] + first, [u] + second;
    assert ms[1..] == first && ns[1..] == second;
    PassStep(g, ms, map[], map[]);
    PassStep(g, ns, map[], map[]);
    var own, w := Walk(g, p, 0, [], map[]), Walk(g, u, 0, [], map[]);
    OthersStay(g, first, if |own.out| > 0 then map[p := own.out] else map[], own.cache, p);
    CachedIsFound(g, second, if |w.out| > 0 then map[u := w.out] else map[], w.cache, p);
  }

  /** All orders find the same. */
  ghost predicate OrderFree(g: Graph, all: set<string>) {
    forall ms, ns | Lists(ms, all) && Lists(ns, all) ::
      WalkAll(g, ms, map[], map[]).found == WalkAll(g, ns, map[], map[]).found
  }

  /** The order never shows, and the results are complete, if no message walked on its own
      cuts off another one with an enum field in reach. */
  lemma NothingHiddenOrderFree(g: Graph, all: set<string>)
    requires forall u | u in all :: NothingHidden(g, u)
    ensures OrderFree(g, all)
    ensures forall ms, v | Lists(ms, all) && v in all :: Complete(g, v, FieldsOf(WalkAll(g, ms, map[], map[]).found, v))
  {
    hide Complete, WalkAll, Hides;
    forall ms | Lists(ms, all)
      ensures forall v | v in all :: Complete(g, v, FieldsOf(WalkAll(g, ms, map[], map[]).found, v))
    {
      PassComplete(g, ms, map[], map[]);
    }
    forall ms, ns | Lists(ms, all) && Lists(ns, all)
      ensures WalkAll(g, ms, map[], map[]).found == WalkAll(g, ns, map[], map[]).found
    {
      var a, b := WalkAll(g, ms, map[], map[]).found, WalkAll(g, ns, map[], map[]).found;
      forall v ensures FieldsOf(a, v) == FieldsOf(b, v) {
        if v in all {
          OneComplete(g, v, FieldsOf(a, v), FieldsOf(b, v));
        } else {
          OthersStay(g, ms, map[], map[], v);
          OthersStay(g, ns, map[], map[], v);
        }
      }
      NonEmptyFound(g, ms, map[], map[]);
      NonEmptyFound(g, ns, map[], map[]);
      SameFields(a, b);
    }
  }

  lemma SameFields(a: map<string, Paths>, b: map<string, Paths>)
    requires (forall v | v in a :: a[v] != map[]) && (forall v | v in b :: b[v] != map[])
    requires forall v :: FieldsOf(a, v) == FieldsOf(b, v)
    ensures a == b
  {
    forall v ensures (v in a <==> v in b) && (v in a ==> a[v] == b[v]) {
      assert FieldsOf(a, v) == FieldsOf(b, v);
    }
  }

  /** On a whole set of messages the order of the calls never shows exactly when no message,
      walked on its own, cuts off another one that has an enum field in reach. */
  lemma OrderShowsExactly(g: Graph, all: set<string>)
    requires Whole(g, all)
    ensures OrderFree(g, all) <==> forall u | u in all :: NothingHidden(g, u)
  {
    hide WalkAll, Walk, Hides, Live, Whole, Shortened;
    if forall u | u in all :: NothingHidden(g, u) {
      NothingHiddenOrderFree(g, all);
    } else {
      var u :| u in all && Hides(g, u, 0, [], map[]);
      HiddenIsShortened(g, all, u, 0, [], map[]);
      var c := Walk(g, u, 0, [], map[]).cache;
      var p, e :| p in all && p in c && Shortened(g, p, e, c[p]);
      LiveTarget(g, p, e, c[p]);
      var n: nat :| LiveWithin(g, e.target, n);
      var u1, p1 := ShortenedSpoils(g, all, u, p, e, n);
      var ms, ns := SpoiledOrders(g, all, u1, p1);
    }
  }

  lemma LiveTarget(g: Graph, p: string, e: Entry, paths: Paths)
    requires Shortened(g, p, e, paths)
    ensures e.MessageField? && exists n: nat :: LiveWithin(g, e.target, n)
  {
    assert Live(g, e.target);
  }

  // ---------------------------------------------------------------- an acyclic chain that is too long

  /** Six messages, each holding the next, the last with an enum field. */
  predicate Chain(g: Graph, m: seq<string>) {
    |m| == LIMIT + 2 && Distinct(m) &&
    (forall i | 0 <= i <= LIMIT :: g(m[i]) == [MessageField(BACK, m[i + 1])]) && g(m[LIMIT + 1]) == [EnumField("kind", "Kind")]
  }

  /** The enum field of the last message, seen from n messages above. */
  function Link(n: nat): Paths {
    if n == 0 then KIND else Prefixed(BACK, Link(n - 1))
  }

  /** None of the chain from here on. */
  predicate Untouched(m: seq<string>, i: nat, visiting: seq<string>, cache: Cache) {
    forall j | i <= j < |m| :: m[j] !in visiting && m[j] !in cache
  }

  /** From anywhere in the chain: the field is found, unless the limit comes first. */
  lemma {:induction false} ChainWalk(g: Graph, m: seq<string>, i: nat, depth: nat, visiting: seq<string>, cache: Cache)
    requires Chain(g, m) && i <= LIMIT + 1 && depth <= LIMIT + 1 && Untouched(m, i, visiting, cache)
    ensures Walk(g, m[i], depth, visiting, cache).out == if depth + (LIMIT + 1 - i) <= LIMIT then Link(LIMIT + 1 - i) else map[]
    decreases LIMIT + 1 - i
  {
    hide *;
    ChainParts(g, m, i, visiting, cache);
    ChainStep(g, m, i, depth, visiting, cache);
    if depth <= LIMIT && i <= LIMIT {
      ChainWalk(g, m, i + 1, depth + 1, visiting + [m[i]], cache);
      NothingPrefixed(BACK, map[]);
      LinkStep(LIMIT - i);
    }
  }

  /** One message of the chain. */
  lemma ChainStep(g: Graph, m: seq<string>, i: nat, depth: nat, visiting: seq<string>, cache: Cache)
    requires Chain(g, m) && i <= LIMIT + 1 && m[i] !in visiting && m[i] !in cache
    ensures depth > LIMIT ==> Walk(g, m[i], depth, visiting, cache) == Walked(map[], cache)
    ensures depth <= LIMIT && i == LIMIT + 1 ==> Walk(g, m[i], depth, visiting, cache) == Walked(KIND, cache[m[i] := KIND])
    ensures depth <= LIMIT && i <= LIMIT ==>
      var nested := Walk(g, m[i + 1], depth + 1, visiting + [m[i]], cache);
      var out := map[] + Prefixed(BACK, nested.out);
      Walk(g, m[i], depth, visiting, cache) == Walked(out, nested.cache[m[i] := out])
  {
    hide Walk, WalkEntries, Prefixed;
    WalkStep(g, m[i], depth, visiting, cache);
    if depth <= LIMIT {
      if i == LIMIT + 1 {
        OneEntry(g, EnumField("kind", "Kind"), map[], depth, visiting + [m[i]], cache);
      } else {
        OneEntry(g, MessageField(BACK, m[i + 1]), map[], depth, visiting + [m[i]], cache);
      }
    }
  }

  /** Only the chain from here on enters the cache. */
  lemma {:induction false} ChainAbove(g: Graph, m: seq<string>, i: nat, depth: nat, visiting: seq<string>, cache: Cache, j: nat)
    requires Chain(g, m) && j < i <= LIMIT + 1 && depth <= LIMIT + 1 && Untouched(m, i, visiting, cache)
    requires m[j] !in cache
    ensures m[j] !in Walk(g, m[i], depth, visiting, cache).cache
    decreases LIMIT + 1 - i
  {
    hide *;
    ChainParts(g, m, i, visiting, cache);
    ChainStep(g, m, i, depth, visiting, cache);
    if depth <= LIMIT && i <= LIMIT {
      ChainAbove(g, m, i + 1, depth + 1, visiting + [m[i]], cache, j);
    }
  }

  lemma LinkStep(n: nat)
    ensures map[] + Prefixed(BACK, Link(n)) == Link(n + 1)
  {
    hide Prefixed;
  }

  lemma ChainParts(g: Graph, m: seq<string>, i: nat, visiting: seq<string>, cache: Cache)
    requires Chain(g, m) && i <= LIMIT + 1 && Untouched(m, i, visiting, cache)
    ensures |m| == LIMIT + 2 && LIMIT == 4 && m[i] !in visiting && m[i] !in cache
    ensures forall j | 0 <= j < |m| && j != i :: m[j] != m[i]
    ensures if i <= LIMIT then Untouched(m, i + 1, visiting + [m[i]], cache) else Link(0) == KIND
  {
    hide Prefixed;
  }

  lemma LinkShows()
    ensures "a.a.a.a.kind" in Link(LIMIT) && Link(LIMIT)["a.a.a.a.kind"] == "Kind"
    ensures "a.a.a.a.a.kind" in Link(LIMIT + 1) && Link(LIMIT + 1)["a.a.a.a.a.kind"] == "Kind"
  {
    hide Prefixed;
    LinkNext(0, "kind", "a.kind");
    LinkNext(1, "a.kind", "a.a.kind");
    LinkNext(2, "a.a.kind", "a.a.a.kind");
    LinkNext(3, "a.a.a.kind", "a.a.a.a.kind");
    LinkNext(4, "a.a.a.a.kind", "a.a.a.a.a.kind");
  }

  lemma LinkNext(n: nat, k: string, next: string)
    requires k in Link(n) && next == BACK + "." + k
    ensures next in Link(n + 1) && Link(n + 1)[next] == Link(n)[k]
  {
    hide *;
    LinkIs(n);
    PrefixedSpec(BACK, Link(n), k);
  }

  lemma LinkIs(n: nat)
    ensures Link(n + 1) == Prefixed(BACK, Link(n))
  {
    hide Prefixed;
  }

  /** No cycle is needed. Walked from its first message, the chain is cut off at the limit,
      and the second message keeps that shortened result; walked from the second message
      first, both see the field. */
  lemma ChainsDependOnOrder(g: Graph, m: seq<string>)
    requires Chain(g, m)
    ensures Walk(g, m[0], 0, [], map[]).out == map[]
    ensures Walk(g, m[1], 0, [], Walk(g, m[0], 0, [], map[]).cache).out == map[]
    ensures Walk(g, m[1], 0, [], map[]).out == Link(LIMIT) && "a.a.a.a.kind" in Link(LIMIT)
    ensures Walk(g, m[0], 0, [], Walk(g, m[1], 0, [], map[]).cache).out == Link(LIMIT + 1) && "a.a.a.a.a.kind" in Link(LIMIT + 1)
  {
    hide *;
    LinkShows();
    ChainStarts(g, m);
    ChainWalk(g, m, 0, 0, [], map[]);
    ChainWalk(g, m, 1, 0, [], map[]);
    FirstLeaves(g, m);
    SecondLeaves(g, m);
  }

  lemma FirstLeaves(g: Graph, m: seq<string>)
    requires Chain(g, m)
    ensures Walk(g, m[1], 0, [], Walk(g, m[0], 0, [], map[]).cache).out == map[]
  {
    hide *;
    ChainStarts(g, m);
    ChainStep(g, m, 0, 0, [], map[]);
    ChainWalk(g, m, 1, 1, [m[0]], map[]);
    WalkExtends(g, m[1], 1, [m[0]], map[]);
    NotCutOff(m[1], [m[0]], map[]);
    WalkStep(g, m[1], 0, [], Walk(g, m[0], 0, [], map[]).cache);
  }

  lemma SecondLeaves(g: Graph, m: seq<string>)
    requires Chain(g, m)
    ensures Walk(g, m[0], 0, [], Walk(g, m[1], 0, [], map[]).cache).out == Link(LIMIT + 1)
  {
    hide *;
    ChainStarts(g, m);
    ChainWalk(g, m, 1, 0, [], map[]);
    ChainAbove(g, m, 1, 0, [], map[], 0);
    WalkExtends(g, m[1], 0, [], map[]);
    NotCutOff(m[1], [], map[]);
    var cache := Walk(g, m[1], 0, [], map[]).cache;
    ChainStep(g, m, 0, 0, [], cache);
    WalkStep(g, m[1], 1, [m[0]], cache);
    LinkStep(LIMIT);
  }

  lemma NotCutOff(v: string, visiting: seq<string>, cache: Cache)
    requires v !in visiting
    ensures !CutOff(v, 0, visiting, cache) && !CutOff(v, 1, visiting, cache)
  {}

  lemma ChainStarts(g: Graph, m: seq<string>)
    requires Chain(g, m)
    ensures |m| == LIMIT + 2 && LIMIT == 4 && m[0] != m[1] && [] + [m[0]] == [m[0]]
    ensures Untouched(m, 0, [], map[]) && Untouched(m, 1, [], map[]) && Untouched(m, 1, [m[0]], map[])
  {}
}
