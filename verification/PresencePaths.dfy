/** What conformance is for: at every depth the shape and the verdicts name the same
    keys, so no verdict is missing and none is about a key that is not there. */
module PresencePaths {
  import opened Values
  import opened Json
  import opened PresenceLint

  type Path = seq<string>

  function Under(step: string, paths: set<Path>): set<Path> {
    set p | p in paths :: [step] + p
  }

  // ---------------------------------------------------------------- keys a shape names

  function NodeKeys(typed: Doc): set<Path>
    decreases typed, 2
  {
    match typed
    case Dict(members) => MemberKeys(members)
    case List(items) => if items != [] then Under("[]", NodeKeys(items[0])) else {}
    case _ => {}
  }

  function MemberKeys(members: seq<Pair>): set<Path>
    decreases members, 0
  {
    if members == [] then {} else KeyAndBelow(members[0]) + MemberKeys(members[1..])
  }

  function KeyAndBelow(m: Pair): set<Path>
    decreases m, 3
  {
    {[m.key]} + Under(m.key, NodeKeys(m.value))
  }

  // ---------------------------------------------------------------- keys the verdicts name

  function VerdictKeys(node: Doc): set<Path>
    decreases Size(node), 1
  {
    if !node.Dict? then {}
    else
      FieldsSize(node.members);
      (match Fields(node.members) case Dict(verdicts) => VerdictMembers(verdicts) case _ => {}) +
      (match Item(node.members) case Some(item) => Under("[]", VerdictKeys(item)) case None => {})
  }

  function VerdictMembers(verdicts: seq<Pair>): set<Path>
    decreases 1 + SizeMembers(verdicts), 0
  {
    if verdicts == [] then {}
    else
      assert SizeMember(verdicts[0]) == Size(verdicts[0].value);
      {[verdicts[0].key]} + Under(verdicts[0].key, VerdictKeys(verdicts[0].value)) + VerdictMembers(verdicts[1..])
  }

  lemma FieldsSize(node: seq<Pair>)
    ensures Size(Fields(node)) < Size(Dict(node)) || (Fields(node) == Dict([]) && Size(Dict(node)) >= 1)
    ensures Item(node).Some? ==> Size(Item(node).value) < Size(Dict(node))
    ensures Fields(node).Dict? ==> 1 + SizeMembers(Fields(node).members) <= Size(Dict(node))
  {
    if Get(node, "fields").Some? { ValueOf(node, "fields"); }
    if Get(node, "items").Some? { ValueOf(node, "items"); }
  }

  // ---------------------------------------------------------------- they agree

  lemma {:induction false} VerdictMembersSpec(verdicts: seq<Pair>, p: Path)
    requires UniqueKeys(verdicts)
    ensures p in VerdictMembers(verdicts) <==>
      p != [] && match Get(verdicts, p[0]) case Some(node) => |p| == 1 || p[1..] in VerdictKeys(node) case None => false
  {
    hide VerdictKeys;
    if verdicts != [] {
      var v := verdicts[0];
      VerdictMembersSpec(verdicts[1..], p);
      UnderSpec(v.key, VerdictKeys(v.value), p);
      if |p| == 1 { assert p == [p[0]]; }
      if p != [] && p[0] == v.key { GetSpec(verdicts[1..], v.key); }
    }
  }

  lemma UnderSpec(step: string, paths: set<Path>, p: Path)
    ensures p in Under(step, paths) <==> p != [] && p[0] == step && p[1..] in paths
  {
    if p != [] && p[0] == step && p[1..] in paths { assert p == [step] + p[1..]; }
  }

  lemma {:induction false} MemberKeysSpec(members: seq<Pair>, p: Path)
    requires UniqueKeys(members)
    ensures p in MemberKeys(members) <==>
      p != [] && match Get(members, p[0]) case Some(typed) => |p| == 1 || p[1..] in NodeKeys(typed) case None => false
  {
    hide NodeKeys;
    if members != [] {
      var m := members[0];
      MemberKeysSpec(members[1..], p);
      UnderSpec(m.key, NodeKeys(m.value), p);
      if |p| == 1 { assert p == [p[0]]; }
      if p != [] && p[0] == m.key { GetSpec(members[1..], m.key); }
    }
  }

  /** Conforming trees name the same keys at every depth. */
  lemma {:induction false} SameKeys(shape: Doc, presence: Doc)
    requires WellKeyed(shape) && WellKeyed(presence) && Conforms(shape, presence)
    ensures MemberKeys(shape.members) == VerdictMembers(presence.members)
    decreases Size(shape), 0
  {
    var a, b := shape.members, presence.members;
    ConformsByKey(a, b);
    forall p ensures p in MemberKeys(a) <==> p in VerdictMembers(b) {
      MemberKeysSpec(a, p);
      VerdictMembersSpec(b, p);
      if p != [] { SameKeysAt(a, b, p[0]); }
    }
  }

  lemma {:induction false} SameKeysAt(a: seq<Pair>, b: seq<Pair>, key: string)
    requires WellKeyed(Dict(a)) && WellKeyed(Dict(b))
    requires forall k | k in KeysOf(a) + KeysOf(b) :: KeyConforms(a, b, k)
    ensures Get(a, key).Some? <==> Get(b, key).Some?
    ensures Get(a, key).Some? ==> NodeKeys(Get(a, key).value) == VerdictKeys(Get(b, key).value)
    decreases Size(Dict(a)), 0, 0
  {
    hide WellKeyed, NodeConforms, NodeKeys, VerdictKeys, Size;
    GetSpec(a, key);
    GetSpec(b, key);
    if key in KeysOf(a) + KeysOf(b) {
      assert KeyConforms(a, b, key);
      ValueOf(a, key);
      ValueOf(b, key);
      SameNodeKeys(Get(a, key).value, Get(b, key).value);
    }
  }

  lemma {:induction false} SameNodeKeys(typed: Doc, node: Doc)
    requires WellKeyed(typed) && WellKeyed(node) && NodeConforms(typed, node)
    ensures NodeKeys(typed) == VerdictKeys(node)
    decreases Size(typed), 1
  {
    NodeParts(typed, node);
    if Get(node.members, "fields").Some? { ValueOf(node.members, "fields"); }
    if Item(node.members).Some? { ValueOf(node.members, "items"); }
    ElementParts(typed);
    if typed.Dict? {
      SameKeys(typed, Fields(node.members));
    } else if Element(typed).Some? {
      SameNodeKeys(Element(typed).value, Item(node.members).value);
    } else if typed.List? && typed.items != [] {
      assert NodeKeys(typed.items[0]) == {};
    }
  }
}
