/** The walk leaves out no object, however deep in objects and lists, and visits none twice. */
module WalkCoverage {
  import opened Values
  import opened Decimals
  import opened Json
  import opened JsonPointers

  /** Where a document sits in another: the position taken at each level. */
  type Place = seq<nat>

  function At(d: Doc, place: Place): Option<Doc>
    decreases |place|
  {
    if place == [] then Some(d)
    else match d
      case Dict(members) => if place[0] < |members| then At(members[place[0]].value, place[1..]) else None
      case List(items) => if place[0] < |items| then At(items[place[0]], place[1..]) else None
      case _ => None
  }

  /** The steps a path to that place takes: escaped keys and plain numbers. */
  function StepsTo(d: Doc, place: Place): seq<string>
    requires At(d, place).Some?
    decreases |place|
  {
    if place == [] then []
    else match d
      case Dict(members) => [Escape(members[place[0]].key)] + StepsTo(members[place[0]].value, place[1..])
      case List(items) => [Decimal(place[0])] + StepsTo(items[place[0]], place[1..])
  }

  /** Each object at each place is visited, under the path that leads there. */
  lemma {:induction false} WalkVisits(d: Doc, place: Place, path: string)
    requires At(d, place).Some? && At(d, place).value.Dict?
    ensures Visit(At(d, place).value, path + Join(StepsTo(d, place))) in Walk(d, path)
    decreases |place|
  {
    if place == [] {
      assert path + Join([]) == path;
    } else {
      var step := StepsTo(d, place)[0];
      JoinedOnto(path, step, StepsTo(d, place)[1..]);
      assert StepsTo(d, place) == [step] + StepsTo(d, place)[1..];
      match d
      case Dict(members) =>
        WalkVisits(members[place[0]].value, place[1..], path + "/" + step);
        InMembers(members, place[0], path);
      case List(items) =>
        WalkVisits(items[place[0]], place[1..], path + "/" + step);
        InItems(items, place[0], 0, path);
    }
  }

  lemma JoinedOnto(path: string, step: string, steps: seq<string>)
    ensures path + Join([step] + steps) == path + "/" + step + Join(steps)
  {
    assert ([step] + steps)[1..] == steps;
    assert path + ("/" + step + Join(steps)) == path + "/" + step + Join(steps);
  }

  lemma {:induction false} InMembers(members: seq<Pair>, k: nat, path: string)
    requires k < |members|
    ensures forall v | v in Walk(members[k].value, path + "/" + Escape(members[k].key)) :: v in WalkMembers(members, path)
  {
    hide Walk;
    assert WalkMember(members[0], path) == Walk(members[0].value, path + "/" + Escape(members[0].key));
    if k > 0 { InMembers(members[1..], k - 1, path); }
  }

  lemma {:induction false} InItems(items: seq<Doc>, k: nat, i: nat, path: string)
    requires k < |items|
    ensures forall v | v in Walk(items[k], path + "/" + Decimal(i + k)) :: v in WalkItems(items, i, path)
  {
    hide Walk, Decimal;
    if k > 0 { InItems(items[1..], k - 1, i + 1, path); }
  }

  // ---------------------------------------------------------------- as many visits as objects

  function Objects(d: Doc): nat
    decreases d, 1
  {
    match d
    case Dict(members) => 1 + ObjectsInMembers(members)
    case List(items) => ObjectsInItems(items)
    case _ => 0
  }

  function ObjectsInMember(m: Pair): nat
    decreases m, 2
  {
    Objects(m.value)
  }

  function ObjectsInMembers(members: seq<Pair>): nat
    decreases members, 0
  {
    if members == [] then 0 else ObjectsInMember(members[0]) + ObjectsInMembers(members[1..])
  }

  function ObjectsInItems(items: seq<Doc>): nat
    decreases items, 0
  {
    if items == [] then 0 else Objects(items[0]) + ObjectsInItems(items[1..])
  }

  lemma {:induction false} WalkCounts(d: Doc, path: string)
    ensures |Walk(d, path)| == Objects(d)
    decreases d, 1
  {
    match d
    case Dict(members) => MembersCount(members, path);
    case List(items) => ItemsCount(items, 0, path);
    case _ =>
  }

  lemma {:induction false} MemberCounts(m: Pair, path: string)
    ensures |WalkMember(m, path)| == ObjectsInMember(m)
    decreases m, 2
  {
    WalkCounts(m.value, path + "/" + Escape(m.key));
  }

  lemma {:induction false} MembersCount(members: seq<Pair>, path: string)
    ensures |WalkMembers(members, path)| == ObjectsInMembers(members)
    decreases members, 0
  {
    if members != [] {
      MemberCounts(members[0], path);
      MembersCount(members[1..], path);
    }
  }

  lemma {:induction false} ItemsCount(items: seq<Doc>, i: nat, path: string)
    ensures |WalkItems(items, i, path)| == ObjectsInItems(items)
    decreases items, 0
  {
    if items != [] {
      WalkCounts(items[0], path + "/" + Decimal(i));
      ItemsCount(items[1..], i + 1, path);
    }
  }
}
