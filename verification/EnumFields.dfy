/** Collecting the enum-typed fields of a message, nested messages included as dotted
    paths: depth-limited, cycle-guarded, memoised across calls. */
module EnumFields {
  import opened Values

  /** What one spec entry amounts to; other entries contribute nothing. */
  datatype Entry = EnumField(name: string, path: string) | MessageField(name: string, target: string)

  /** The entries of each message variable; an unknown variable has none. */
  type Graph = string -> seq<Entry>

  type Paths = map<string, string>

  type Cache = map<string, Paths>

  const LIMIT: nat := 4

  /** Nested paths, behind the field they are reached through. */
  function Prefixed(field: string, nested: Paths): Paths {
    map x | x in (set k | k in nested :: field + "." + k) && |x| > |field| && x[|field| + 1..] in nested :: nested[x[|field| + 1..]]
  }

  lemma PrefixedSpec(field: string, nested: Paths, k: string)
    requires k in nested
    ensures field + "." + k in Prefixed(field, nested) && Prefixed(field, nested)[field + "." + k] == nested[k]
  {
    var x := field + "." + k;
    assert x[|field| + 1..] == k;
  }

  /** Result and cache. */
  datatype Walked = Walked(out: Paths, cache: Cache)

  // ---------------------------------------------------------------- the memoised walk

  function Walk(g: Graph, v: string, depth: nat, visiting: seq<string>, cache: Cache): Walked
    decreases LIMIT + 1 - depth, 1, 0
  {
    if v in cache then Walked(cache[v], cache)
    else if depth > LIMIT || v in visiting then Walked(map[], cache)
    else
      var w := WalkEntries(g, g(v), map[], depth, visiting + [v], cache);
      Walked(w.out, w.cache[v := w.out])
  }

  function WalkEntries(g: Graph, entries: seq<Entry>, out: Paths, depth: nat, visiting: seq<string>, cache: Cache): Walked
    requires depth <= LIMIT
    decreases LIMIT + 1 - depth, 0, |entries|
  {
    if entries == [] then Walked(out, cache)
    else match entries[0]
      case EnumField(name, path) => WalkEntries(g, entries[1..], out[name := path], depth, visiting, cache)
      case MessageField(name, target) =>
        var nested := Walk(g, target, depth + 1, visiting, cache);
        WalkEntries(g, entries[1..], out + Prefixed(name, nested.out), depth, visiting, nested.cache)
  }

  /** The walker as it runs; it terminates on every graph, cycles included. */
  class Walker {
    const graph: Graph
    var visiting: seq<string>
    var cache: Cache

    constructor (graph: Graph)
      ensures this.graph == graph && visiting == [] && cache == map[]
    {
      this.graph := graph;
      visiting, cache := [], map[];
    }

    method CollectEnumFields(v: string, depth: nat) returns (out: Paths)
      modifies this
      ensures Walked(out, cache) == Walk(graph, v, depth, old(visiting), old(cache))
      ensures visiting == old(visiting)
      decreases LIMIT + 1 - depth
    {
      hide *;
      WalkStep(graph, v, depth, visiting, cache);
      if v in cache { return cache[v]; }
      if depth > LIMIT || v in visiting { return map[]; }
      visiting := visiting + [v];
      out := map[];
      var entries := graph(v);
      assert entries[0..] == entries;
      for i := 0 to |entries|
        invariant visiting == old(visiting) + [v]
        invariant WalkEntries(graph, entries, map[], depth, visiting, old(cache)) ==
                  WalkEntries(graph, entries[i..], out, depth, visiting, cache)
      {
        assert entries[i..][0] == entries[i] && entries[i..][1..] == entries[i + 1..];
        WalkEntriesStep(graph, entries[i..], out, depth, visiting, cache);
        match entries[i] {
          case EnumField(name, path) =>
            out := out[name := path];
          case MessageField(name, target) =>
            var nested := CollectEnumFields(target, depth + 1);
            out := out + Prefixed(name, nested);
        }
      }
      WalkEntriesStep(graph, [], out, depth, visiting, cache);
      assert entries[|entries|..] == [];
      visiting := visiting[..|visiting| - 1];
      cache := cache[v := out];
    }

    /** The outer loop: every message in turn, one cache for all. */
    method CollectAll(messages: seq<string>) returns (found: map<string, Paths>)
      requires visiting == []
      modifies this
      ensures visiting == []
      ensures Collected(found, cache) == WalkAll(graph, messages, map[], old(cache))
    {
      found := map[];
      for i := 0 to |messages|
        invariant visiting == []
        invariant WalkAll(graph, messages, map[], old(cache)) == WalkAll(graph, messages[i..], found, cache)
      {
        assert messages[i..][0] == messages[i] && messages[i..][1..] == messages[i + 1..];
        var fields := CollectEnumFields(messages[i], 0);
        if |fields| > 0 { found := found[messages[i] := fields]; }
      }
    }
  }

  datatype Collected = Collected(found: map<string, Paths>, cache: Cache)

  function WalkAll(g: Graph, messages: seq<string>, found: map<string, Paths>, cache: Cache): Collected {
    if messages == [] then Collected(found, cache)
    else
      var w := Walk(g, messages[0], 0, [], cache);
      WalkAll(g, messages[1..], if |w.out| > 0 then found[messages[0] := w.out] else found, w.cache)
  }

  // ---------------------------------------------------------------- the plain recursion

  /** No message contains itself, and no chain of messages is longer than its rank. */
  ghost predicate Ranked(g: Graph, rank: string -> nat) {
    forall v: string, e | e in g(v) && e.MessageField? :: rank(e.target) < rank(v)
  }

  /** The same collection with neither limit, guard nor cache. */
  ghost function Plain(g: Graph, rank: string -> nat, v: string): Paths
    requires Ranked(g, rank)
    decreases rank(v), 1, 0
  {
    PlainEntries(g, rank, v, g(v), map[])
  }

  ghost function PlainEntries(g: Graph, rank: string -> nat, v: string, entries: seq<Entry>, out: Paths): Paths
    requires Ranked(g, rank) && forall e | e in entries :: e in g(v)
    decreases rank(v), 0, |entries|
  {
    if entries == [] then out
    else match entries[0]
      case EnumField(name, path) => PlainEntries(g, rank, v, entries[1..], out[name := path])
      case MessageField(name, target) =>
        assert entries[0] in g(v);
        PlainEntries(g, rank, v, entries[1..], out + Prefixed(name, Plain(g, rank, target)))
  }

  /** Every cached result is the plain one. */
  ghost predicate CacheIsPlain(g: Graph, rank: string -> nat, cache: Cache)
    requires Ranked(g, rank)
  {
    forall v | v in cache :: cache[v] == Plain(g, rank, v)
  }

  /** Nothing being visited is at or below this rank. */
  ghost predicate AllAbove(visiting: seq<string>, rank: string -> nat, low: nat) {
    forall u | u in visiting :: rank(u) >= low
  }

  lemma WalkStep(g: Graph, v: string, depth: nat, visiting: seq<string>, cache: Cache)
    ensures v !in cache && depth <= LIMIT && v !in visiting ==>
      var w := WalkEntries(g, g(v), map[], depth, visiting + [v], cache);
      Walk(g, v, depth, visiting, cache) == Walked(w.out, w.cache[v := w.out])
    ensures v !in cache && (depth > LIMIT || v in visiting) ==> Walk(g, v, depth, visiting, cache) == Walked(map[], cache)
    ensures v in cache ==> Walk(g, v, depth, visiting, cache) == Walked(cache[v], cache)
  {
    hide WalkEntries;
  }

  lemma WalkEntriesStep(g: Graph, entries: seq<Entry>, out: Paths, depth: nat, visiting: seq<string>, cache: Cache)
    requires depth <= LIMIT
    ensures WalkEntries(g, entries, out, depth, visiting, cache) ==
      if entries == [] then Walked(out, cache)
      else match entries[0]
        case EnumField(name, path) => WalkEntries(g, entries[1..], out[name := path], depth, visiting, cache)
        case MessageField(name, target) =>
          var nested := Walk(g, target, depth + 1, visiting, cache);
          WalkEntries(g, entries[1..], out + Prefixed(name, nested.out), depth, visiting, nested.cache)
  {
    hide Walk, Prefixed;
  }

  lemma PlainStep(g: Graph, rank: string -> nat, v: string, entries: seq<Entry>, out: Paths)
    requires Ranked(g, rank) && forall e | e in entries :: e in g(v)
    ensures PlainEntries(g, rank, v, entries, out) ==
      if entries == [] then out
      else match entries[0]
        case EnumField(name, path) => PlainEntries(g, rank, v, entries[1..], out[name := path])
        case MessageField(name, target) => PlainEntries(g, rank, v, entries[1..], out + Prefixed(name, Plain(g, rank, target)))
  {
    hide Plain, Prefixed;
  }

  lemma Below(g: Graph, rank: string -> nat, v: string, e: Entry, visiting: seq<string>)
    requires Ranked(g, rank) && e in g(v) && e.MessageField? && AllAbove(visiting, rank, rank(v))
    ensures rank(e.target) < rank(v) && AllAbove(visiting, rank, rank(e.target) + 1)
  {}

  /** Where chains fit the limit, guard and limit never act, and whatever the cache
      holds from earlier calls, the walk gives the plain result and keeps it so. */
  lemma {:induction false} WalkIsPlain(g: Graph, rank: string -> nat, v: string, depth: nat, visiting: seq<string>, cache: Cache)
    requires Ranked(g, rank) && depth + rank(v) <= LIMIT
    requires CacheIsPlain(g, rank, cache) && AllAbove(visiting, rank, rank(v) + 1)
    ensures var w := Walk(g, v, depth, visiting, cache);
      w.out == Plain(g, rank, v) && CacheIsPlain(g, rank, w.cache) && v in w.cache && cache.Keys <= w.cache.Keys
    decreases rank(v), 1, 0
  {
    if v !in cache {
      assert v !in visiting;
      assert AllAbove(visiting + [v], rank, rank(v));
      EntriesArePlain(g, rank, v, g(v), map[], depth, visiting + [v], cache);
      var w := WalkEntries(g, g(v), map[], depth, visiting + [v], cache);
      assert Plain(g, rank, v) == PlainEntries(g, rank, v, g(v), map[]);
    }
  }

  lemma {:induction false} EntriesArePlain(g: Graph, rank: string -> nat, v: string, entries: seq<Entry>, out: Paths, depth: nat, visiting: seq<string>, cache: Cache)
    requires Ranked(g, rank) && depth + rank(v) <= LIMIT && forall e | e in entries :: e in g(v)
    requires CacheIsPlain(g, rank, cache) && AllAbove(visiting, rank, rank(v))
    ensures var w := WalkEntries(g, entries, out, depth, visiting, cache);
      w.out == PlainEntries(g, rank, v, entries, out) && CacheIsPlain(g, rank, w.cache) && cache.Keys <= w.cache.Keys
    decreases rank(v), 0, |entries|
  {
    WalkEntriesStep(g, entries, out, depth, visiting, cache);
    PlainStep(g, rank, v, entries, out);
    if entries != [] {
      hide *;
      match entries[0]
      case EnumField(name, path) =>
        EntriesArePlain(g, rank, v, entries[1..], out[name := path], depth, visiting, cache);
      case MessageField(name, target) =>
        Below(g, rank, v, entries[0], visiting);
        WalkIsPlain(g, rank, target, depth + 1, visiting, cache);
        var nested := Walk(g, target, depth + 1, visiting, cache);
        EntriesArePlain(g, rank, v, entries[1..], out + Prefixed(name, nested.out), depth, visiting, nested.cache);
    }
  }

  /** Any messages in any order: each non-empty result is the plain one. */
  lemma {:induction false} AllArePlain(g: Graph, rank: string -> nat, messages: seq<string>, found: map<string, Paths>, cache: Cache)
    requires Ranked(g, rank) && CacheIsPlain(g, rank, cache) && forall v | v in messages :: rank(v) <= LIMIT
    ensures var c := WalkAll(g, messages, found, cache);
      CacheIsPlain(g, rank, c.cache) &&
      (forall v | v in messages :: (v in c.found ==> c.found[v] == Plain(g, rank, v) || (v in found && c.found[v] == found[v])) &&
                                   (Plain(g, rank, v) != map[] ==> v in c.found && c.found[v] == Plain(g, rank, v))) &&
      (forall v :: v !in messages ==> (v in c.found <==> v in found) && (v in found ==> c.found[v] == found[v]))
    decreases |messages|
  {
    if messages != [] {
      var v := messages[0];
      WalkIsPlain(g, rank, v, 0, [], cache);
      var w := Walk(g, v, 0, [], cache);
      var next := if |w.out| > 0 then found[v := w.out] else found;
      AllArePlain(g, rank, messages[1..], next, w.cache);
      assert forall u :: u in messages <==> u == v || u in messages[1..];
    }
  }

  /** One pass over all messages, in any order, repeats allowed: exactly the messages with
      enum fields are found, each with its plain result. */
  lemma PassIsPlain(g: Graph, rank: string -> nat, messages: seq<string>)
    requires Ranked(g, rank) && forall v | v in messages :: rank(v) <= LIMIT
    ensures var c := WalkAll(g, messages, map[], map[]);
      forall v | v in messages :: (v in c.found <==> Plain(g, rank, v) != map[]) && (v in c.found ==> c.found[v] == Plain(g, rank, v))
  {
    AllArePlain(g, rank, messages, map[], map[]);
    NonEmptyFound(g, messages, map[], map[]);
  }

  lemma {:induction false} NonEmptyFound(g: Graph, messages: seq<string>, found: map<string, Paths>, cache: Cache)
    requires forall v | v in found :: found[v] != map[]
    ensures forall v | v in WalkAll(g, messages, found, cache).found :: WalkAll(g, messages, found, cache).found[v] != map[]
    decreases |messages|
  {
    if messages != [] {
      var w := Walk(g, messages[0], 0, [], cache);
      NonEmptyFound(g, messages[1..], if |w.out| > 0 then found[messages[0] := w.out] else found, w.cache);
    }
  }

  // ---------------------------------------------------------------- where the cache shows

  const KIND: Paths := map["kind" := "Kind"]

  const BACK: string := "a"

  /** Two messages that hold each other, one with an enum field. */
  predicate Mutual(g: Graph, a: string, b: string) {
    a != b && g(a) == [EnumField("kind", "Kind"), MessageField("b", b)] && g(b) == [MessageField(BACK, a)]
  }

  lemma OneEntry(g: Graph, e: Entry, out: Paths, depth: nat, visiting: seq<string>, cache: Cache)
    requires depth <= LIMIT
    ensures WalkEntries(g, [e], out, depth, visiting, cache) == match e
      case EnumField(name, path) => Walked(out[name := path], cache)
      case MessageField(name, target) =>
        var nested := Walk(g, target, depth + 1, visiting, cache);
        Walked(out + Prefixed(name, nested.out), nested.cache)
  {
    assert [e][1..] == [];
    hide *;
    WalkEntriesStep(g, [e], out, depth, visiting, cache);
    match e {
      case EnumField(name, path) => WalkEntriesStep(g, [], out[name := path], depth, visiting, cache);
      case MessageField(name, target) =>
        var nested := Walk(g, target, depth + 1, visiting, cache);
        WalkEntriesStep(g, [], out + Prefixed(name, nested.out), depth, visiting, nested.cache);
    }
  }

  /** The first message's own entries, the second contributing nothing. */
  lemma EntriesOfFirst(g: Graph, a: string, b: string, depth: nat, visiting: seq<string>, cache: Cache)
    requires Mutual(g, a, b) && depth <= LIMIT && Walk(g, b, depth + 1, visiting, cache).out == map[]
    ensures WalkEntries(g, g(a), map[], depth, visiting, cache) == Walked(KIND, Walk(g, b, depth + 1, visiting, cache).cache)
  {
    hide *;
    MutualParts(g, a, b);
    WalkEntriesStep(g, g(a), map[], depth, visiting, cache);
    OneEntry(g, MessageField("b", b), KIND, depth, visiting, cache);
    NothingPrefixed("b", KIND);
  }

  lemma MutualParts(g: Graph, a: string, b: string)
    requires Mutual(g, a, b)
    ensures 1 <= LIMIT && a != b && g(a) != [] && g(a)[0] == EnumField("kind", "Kind") && g(a)[1..] == [MessageField("b", b)]
    ensures g(b) == [MessageField(BACK, a)] && [] + [a] == [a] && [] + [b] == [b] && map[]["kind" := "Kind"] == KIND
    ensures a in [b] + [a] && b in [b] + [a] && a in [a] + [b] && a !in [b] && b !in [a]
  {}

  lemma KindPrefixed()
    ensures map[] + Prefixed(BACK, KIND) == map["a.kind" := "Kind"]
  {
    var x := BACK + "." + "kind";
    assert x == "a.kind" && x[2..] == "kind";
    PrefixedSpec(BACK, KIND, "kind");
    var p := Prefixed(BACK, KIND);
    forall y | y in p ensures y == x {
      assert y in (set k | k in KIND :: BACK + "." + k);
    }
    assert p.Keys == {x};
  }

  lemma NothingPrefixed(field: string, out: Paths)
    ensures out + Prefixed(field, map[]) == out
  {
    assert Prefixed(field, map[]) == map[];
  }

  /** The second message walked on its own: it sees the first one's field. */
  lemma SecondAlone(g: Graph, a: string, b: string, none: Cache)
    requires Mutual(g, a, b) && none == map[]
    ensures Walk(g, b, 0, [], none).out == map["a.kind" := "Kind"]
  {
    hide *;
    MutualParts(g, a, b);
    KindPrefixed();
    WalkStep(g, b, 2, [b] + [a], none);
    EntriesOfFirst(g, a, b, 1, [b] + [a], none);
    WalkStep(g, a, 1, [b], none);
    OneEntry(g, MessageField(BACK, a), map[], 0, [b], none);
    WalkStep(g, b, 0, [], none);
  }

  /** Walked below the first, the second finds nothing and that is remembered. */
  lemma SecondBelowFirst(g: Graph, a: string, b: string, none: Cache)
    requires Mutual(g, a, b) && none == map[]
    ensures var w := Walk(g, b, 1, [a], none); w.out == map[] && b in w.cache && w.cache[b] == map[]
  {
    hide *;
    MutualParts(g, a, b);
    NothingPrefixed(BACK, map[]);
    WalkStep(g, a, 2, [a] + [b], none);
    OneEntry(g, MessageField(BACK, a), map[], 1, [a] + [b], none);
    WalkStep(g, b, 1, [a], none);
  }

  lemma SecondAfterFirst(g: Graph, a: string, b: string, none: Cache)
    requires Mutual(g, a, b) && none == map[]
    ensures Walk(g, b, 0, [], Walk(g, a, 0, [], none).cache).out == map[]
  {
    hide *;
    MutualParts(g, a, b);
    SecondBelowFirst(g, a, b, none);
    EntriesOfFirst(g, a, b, 0, [a], none);
    WalkStep(g, a, 0, [], none);
    WalkStep(g, b, 0, [], Walk(g, a, 0, [], none).cache);
  }

  /** On a cycle the order of the calls shows: asked for first, the second message sees
      the first one's field; asked for after the first, a cut-off result is returned. */
  lemma CyclesDependOnOrder(g: Graph, a: string, b: string)
    requires Mutual(g, a, b)
    ensures Walk(g, b, 0, [], map[]).out == map["a.kind" := "Kind"]
    ensures Walk(g, b, 0, [], Walk(g, a, 0, [], map[]).cache).out == map[]
  {
    hide *;
    SecondAlone(g, a, b, map[]);
    SecondAfterFirst(g, a, b, map[]);
  }
}
