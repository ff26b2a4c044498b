/** The linter's parity check between the shape of an operation's variables and the
    verdicts on which of them are always present. */
module PresenceLint {
  import opened Values
  import opened Json

  const VOCABULARY: set<string> := {"always", "conditional", "undetermined"}

  // ---------------------------------------------------------------- conformance

  predicate IsContainer(d: Doc) {
    d.Dict? || d.List?
  }

  /** The element shape whose keys need verdicts of their own. */
  function Element(typed: Doc): Option<Doc> {
    if typed.List? && typed.items != [] && IsContainer(typed.items[0]) then Some(typed.items[0]) else None
  }

  /** Absent and null are the same to a lookup that defaults to null. */
  function Item(node: seq<Pair>): Option<Doc> {
    match Get(node, "items") case Some(Nothing) => None case other => other
  }

  function Fields(node: seq<Pair>): Doc {
    match Get(node, "fields") case Some(d) => d case None => Dict([])
  }

  predicate HasVerdict(node: seq<Pair>) {
    match Get(node, "presence") case Some(Words(v)) => v in VOCABULARY case _ => false
  }

  /** The verdict tree mirrors the shape tree: the same keys at every level, a verdict on
      each, element verdicts exactly on lists of objects or lists, those always `always`. */
  predicate Conforms(shape: Doc, presence: Doc)
    decreases shape, 1
  {
    shape.Dict? && presence.Dict? && KeysOf(shape.members) == KeysOf(presence.members) &&
    MembersConform(shape.members, presence.members)
  }

  predicate MembersConform(members: seq<Pair>, verdicts: seq<Pair>)
    decreases members, 0
  {
    members == [] || (MemberConforms(members[0], verdicts) && MembersConform(members[1..], verdicts))
  }

  predicate MemberConforms(m: Pair, verdicts: seq<Pair>)
    decreases m, 3
  {
    match Get(verdicts, m.key)
    case Some(node) => NodeConforms(m.value, node)
    case None => false
  }

  predicate NodeConforms(typed: Doc, node: Doc)
    decreases typed, 2
  {
    node.Dict? && HasVerdict(node.members) &&
    (if typed.Dict? then Conforms(typed, Fields(node.members)) else Get(node.members, "fields").None?) &&
    (match (Element(typed), Item(node.members))
     case (Some(element), Some(item)) =>
       assert element == typed.items[0];
       item.Dict? && Get(item.members, "presence") == Some(Words("always")) && NodeConforms(element, item)
     case (Some(_), None) => false
     case (None, item) => item.None?)
  }

  // ---------------------------------------------------------------- undetermined verdicts

  function IsUndetermined(node: seq<Pair>): nat {
    if Get(node, "presence") == Some(Words("undetermined")) then 1 else 0
  }

  /** How many nodes at or below this one are undetermined. */
  function UndeterminedNode(typed: Doc, node: Doc): nat
    decreases typed, 2
  {
    if !node.Dict? then 0
    else
      IsUndetermined(node.members) +
      (match typed
       case Dict(members) => (match Fields(node.members) case Dict(verdicts) => Undetermined(members, verdicts, KeysOf(members)) case _ => 0)
       case _ => 0) +
      (match (Element(typed), Item(node.members))
       case (Some(element), Some(item)) =>
         assert element == typed.items[0];
         UndeterminedNode(element, item)
       case _ => 0)
  }

  /** The same over those members whose key is in `keys`. */
  function Undetermined(members: seq<Pair>, verdicts: seq<Pair>, keys: set<string>): nat
    decreases members, 0
  {
    if members == [] then 0
    else UndeterminedMember(members[0], verdicts, keys) + Undetermined(members[1..], verdicts, keys)
  }

  function UndeterminedMember(m: Pair, verdicts: seq<Pair>, keys: set<string>): nat
    decreases m, 3
  {
    if m.key !in keys then 0
    else match Get(verdicts, m.key) case Some(node) => UndeterminedNode(m.value, node) case None => 0
  }

  // ---------------------------------------------------------------- by key

  predicate KeyConforms(shape: seq<Pair>, presence: seq<Pair>, key: string) {
    match (Get(shape, key), Get(presence, key))
    case (Some(typed), Some(node)) => NodeConforms(typed, node)
    case _ => false
  }

  lemma {:induction false} MembersByKey(members: seq<Pair>, verdicts: seq<Pair>)
    ensures MembersConform(members, verdicts) <==> forall m | m in members :: MemberConforms(m, verdicts)
  {
    if members != [] {
      var first, rest := members[0], members[1..];
      assert MembersConform(members, verdicts) == (MemberConforms(first, verdicts) && MembersConform(rest, verdicts));
      hide *;
      MembersByKey(rest, verdicts);
      if MemberConforms(first, verdicts) && MembersConform(rest, verdicts) {
        forall m | m in members ensures MemberConforms(m, verdicts) { assert m == first || m in rest; }
      }
      if forall m | m in members :: MemberConforms(m, verdicts) {
        assert first in members;
        forall m | m in rest ensures MemberConforms(m, verdicts) { assert m in members; }
      }
    }
  }

  lemma ConformsByKey(shape: seq<Pair>, presence: seq<Pair>)
    requires UniqueKeys(shape)
    ensures Conforms(Dict(shape), Dict(presence)) <==>
            forall key | key in KeysOf(shape) + KeysOf(presence) :: KeyConforms(shape, presence, key)
  {
    hide NodeConforms;
    MembersByKey(shape, presence);
    forall key ensures Get(shape, key).Some? <==> key in KeysOf(shape) { GetSpec(shape, key); }
    forall key ensures Get(presence, key).Some? <==> key in KeysOf(presence) { GetSpec(presence, key); }
    forall m | m in shape ensures Get(shape, m.key) == Some(m.value) {
      var i :| 0 <= i < |shape| && shape[i] == m;
      GetAt(shape, i);
    }
    if forall key | key in KeysOf(shape) + KeysOf(presence) :: KeyConforms(shape, presence, key) {
      forall m | m in shape ensures MemberConforms(m, presence) { assert KeyConforms(shape, presence, m.key); }
      forall key | key in KeysOf(presence) ensures key in KeysOf(shape) { assert KeyConforms(shape, presence, key); }
    }
    if Conforms(Dict(shape), Dict(presence)) {
      forall key | key in KeysOf(shape) + KeysOf(presence) ensures KeyConforms(shape, presence, key) {
        GetSpec(shape, key);
        var i :| 0 <= i < |shape| && shape[i] == Pair(key, Get(shape, key).value);
        assert MemberConforms(shape[i], presence);
      }
    }
  }

  lemma {:induction false} UndeterminedNone(members: seq<Pair>, verdicts: seq<Pair>)
    ensures Undetermined(members, verdicts, {}) == 0
  {
    hide UndeterminedNode;
    if members != [] { UndeterminedNone(members[1..], verdicts); }
  }

  /** Taking one key off the set takes off its node's count. */
  lemma {:induction false} UndeterminedLess(members: seq<Pair>, verdicts: seq<Pair>, keys: set<string>, key: string)
    requires UniqueKeys(members) && key in keys
    ensures Undetermined(members, verdicts, keys) == Undetermined(members, verdicts, keys - {key}) +
      match (Get(members, key), Get(verdicts, key)) case (Some(typed), Some(node)) => UndeterminedNode(typed, node) case _ => 0
  {
    hide UndeterminedNode;
    if members != [] {
      if members[0].key == key {
        UndeterminedElsewhere(members[1..], verdicts, keys, key);
      } else {
        UndeterminedLess(members[1..], verdicts, keys, key);
      }
    }
  }

  lemma {:induction false} UndeterminedElsewhere(members: seq<Pair>, verdicts: seq<Pair>, keys: set<string>, key: string)
    requires forall m | m in members :: m.key != key
    ensures Undetermined(members, verdicts, keys) == Undetermined(members, verdicts, keys - {key})
  {
    hide UndeterminedNode;
    if members != [] { UndeterminedElsewhere(members[1..], verdicts, keys, key); }
  }

  // ---------------------------------------------------------------- size of a shape

  function Size(d: Doc): (n: nat)
    ensures n >= 1
    decreases d, 1
  {
    match d
    case List(items) => 1 + SizeAll(items)
    case Dict(members) => 1 + SizeMembers(members)
    case _ => 1
  }

  function SizeAll(items: seq<Doc>): nat
    decreases items, 0
  {
    if items == [] then 0 else Size(items[0]) + SizeAll(items[1..])
  }

  function SizeMember(m: Pair): (n: nat)
    ensures n >= 1
    decreases m, 2
  {
    Size(m.value)
  }

  function SizeMembers(members: seq<Pair>): nat
    decreases members, 0
  {
    if members == [] then 0 else SizeMember(members[0]) + SizeMembers(members[1..])
  }

  lemma {:induction false} SizeOfMember(members: seq<Pair>, key: string)
    requires Get(members, key).Some?
    ensures Size(Get(members, key).value) <= SizeMembers(members)
  {
    if members[0].key != key { SizeOfMember(members[1..], key); }
  }

  // ---------------------------------------------------------------- the checker

  /** One key on its own, as the checker descends into list elements. */
  function Lone(d: Doc): Doc {
    Dict([Pair("[]", d)])
  }

  lemma LoneConforms(element: Doc, item: Doc)
    ensures Conforms(Lone(element), Lone(item)) <==> NodeConforms(element, item)
    ensures Undetermined(Lone(element).members, Lone(item).members, KeysOf(Lone(element).members)) == UndeterminedNode(element, item)
    ensures Size(Lone(element)) == 1 + Size(element)
    ensures WellKeyed(element) ==> WellKeyed(Lone(element))
  {
    var a, b := Lone(element).members, Lone(item).members;
    assert a[1..] == [] && a[0] in a && b[0] in b;
    assert KeysOf(a) == {"[]"} && KeysOf(b) == {"[]"} && Get(b, "[]") == Some(item);
    LoneSize(element);
    hide NodeConforms, UndeterminedNode, Size, WellKeyed, KeysOf, Get;
    assert MemberConforms(a[0], b) == NodeConforms(element, item);
    assert MembersConform(a, b) == (MemberConforms(a[0], b) && MembersConform(a[1..], b));
    assert Undetermined(a, b, {"[]"}) == UndeterminedMember(a[0], b, {"[]"}) + Undetermined(a[1..], b, {"[]"});
  }

  lemma LoneSize(element: Doc)
    ensures Size(Lone(element)) == 1 + Size(element)
    ensures WellKeyed(element) ==> WellKeyed(Lone(element))
  {
    var a := Lone(element).members;
    assert a[1..] == [] && SizeMember(a[0]) == Size(element) && WellKeyedMember(a[0]) == WellKeyed(element);
    assert SizeMembers(a) == SizeMember(a[0]) + SizeMembers(a[1..]);
    assert WellKeyedMembers(a) == (WellKeyedMember(a[0]) && WellKeyedMembers(a[1..]));
  }

  class Linter {
    var errors: seq<string>
    var undetermined: nat

    constructor ()
      ensures errors == [] && undetermined == 0
    {
      errors, undetermined := [], 0;
    }

    /** Compare one level key by key, whatever the order, and descend. `completed` is
        false when a verdict is a list or an object, on which the lookup raises. */
    method CheckPresenceLevel(path: string, shape: Doc, presence: Doc) returns (completed: bool)
      requires WellKeyed(shape)
      modifies this
      ensures old(errors) <= errors
      ensures completed && errors == old(errors) <==> Conforms(shape, presence)
      ensures Conforms(shape, presence) ==>
        undetermined == old(undetermined) + Undetermined(shape.members, presence.members, KeysOf(shape.members))
      decreases Size(shape), 1
    {
      if !shape.Dict? || !presence.Dict? {
        errors := errors + [path + ": variablesShape/variablesPresence are not both objects"];
        return true;
      }
      var a, b := shape.members, presence.members;
      ConformsByKey(a, b);
      UndeterminedNone(a, b);
      ghost var all := KeysOf(a) + KeysOf(b);
      ghost var total := Undetermined(a, b, KeysOf(a));
      AllKeysCount(a, b);
      var todo := KeysOf(a) + KeysOf(b);
      hide *;
      while todo != {}
        invariant todo <= all && old(errors) <= errors
        invariant errors == old(errors) <==> forall key | key in all - todo :: KeyConforms(a, b, key)
        invariant errors == old(errors) ==> undetermined + Undetermined(a, b, todo) == old(undetermined) + total
        decreases |todo|
      {
        var key :| key in todo;
        label before:
        completed := CheckKey(path + "/" + key, a, b, key);
        UndeterminedLess(a, b, todo, key);
        todo := todo - {key};
        if !completed { return; }
      }
      completed := true;
    }

    method Report(error: string)
      modifies this
      ensures errors == old(errors) + [error] && undetermined == old(undetermined)
    {
      errors := errors + [error];
    }

    /** One key of the two trees. */
    method CheckKey(here: string, a: seq<Pair>, b: seq<Pair>, key: string) returns (completed: bool)
      requires WellKeyed(Dict(a)) && key in KeysOf(a) + KeysOf(b)
      modifies this
      ensures old(errors) <= errors
      ensures completed && errors == old(errors) <==> KeyConforms(a, b, key)
      ensures KeyConforms(a, b, key) ==>
        undetermined == old(undetermined) + UndeterminedNode(Get(a, key).value, Get(b, key).value)
      decreases Size(Dict(a)), 0
    {
      hide NodeConforms, UndeterminedNode, WellKeyed, Size;
      var typed, node := Get(a, key), Get(b, key);
      if node.None? {
        Report(here + ": typed by variablesShape with no variablesPresence verdict");
        return true;
      }
      if typed.None? {
        Report(here + ": a presence verdict for a key variablesShape does not carry");
        return true;
      }
      ValueOf(a, key);
      completed := CheckNode(here, typed.value, node.value);
    }

    /** A key's verdict node against its shape. */
    method CheckNode(here: string, typed: Doc, node: Doc) returns (completed: bool)
      requires WellKeyed(typed)
      modifies this
      ensures old(errors) <= errors
      ensures completed && errors == old(errors) <==> NodeConforms(typed, node)
      ensures NodeConforms(typed, node) ==> undetermined == old(undetermined) + UndeterminedNode(typed, node)
      decreases Size(typed), 4
    {
      NodeParts(typed, node);
      hide *;
      if !node.Dict? {
        Report(here + ": presence node is not an object");
        return true;
      }
      var known := CheckVerdict(here, node.members);
      if !known { return false; }
      completed := CheckFields(here, typed, node.members);
      if !completed { return false; }
      completed := CheckItems(here, typed, node.members);
    }

    /** The verdict itself; looking up a list or an object in the vocabulary raises. */
    method CheckVerdict(here: string, node: seq<Pair>) returns (completed: bool)
      modifies this
      ensures old(errors) <= errors
      ensures completed && errors == old(errors) <==> HasVerdict(node)
      ensures HasVerdict(node) ==> undetermined == old(undetermined) + IsUndetermined(node)
    {
      var verdict := match Get(node, "presence") case Some(d) => d case None => Nothing;
      if IsContainer(verdict) { return false; }
      if !verdict.Words? || verdict.s !in VOCABULARY {
        Report(here + ": presence is not in the vocabulary");
      } else if verdict.s == "undetermined" {
        undetermined := undetermined + 1;
      }
      return true;
    }

    /** Verdicts on the keys of an object, and on nothing else. */
    method CheckFields(here: string, typed: Doc, node: seq<Pair>) returns (completed: bool)
      requires WellKeyed(typed)
      modifies this
      ensures old(errors) <= errors
      ensures completed && errors == old(errors) <==> FieldsConform(typed, node)
      ensures FieldsConform(typed, node) ==> undetermined == old(undetermined) + FieldsUndetermined(typed, node)
      decreases Size(typed), 2
    {
      hide Conforms, Undetermined, Fields, WellKeyed, Size;
      if typed.Dict? {
        completed := CheckPresenceLevel(here, typed, Fields(node));
        ConformingAreObjects(typed, Fields(node));
      } else {
        if Get(node, "fields").Some? { Report(here + ": nested field verdicts on a variable that is not an object"); }
        return true;
      }
    }

    /** Verdicts on the elements of a list of objects or lists, and on nothing else. */
    method CheckItems(here: string, typed: Doc, node: seq<Pair>) returns (completed: bool)
      requires WellKeyed(typed)
      modifies this
      ensures old(errors) <= errors
      ensures completed && errors == old(errors) <==> ItemsConform(typed, node)
      ensures ItemsConform(typed, node) ==> undetermined == old(undetermined) + ItemsUndetermined(typed, node)
      decreases Size(typed), 3
    {
      var element, item := Element(typed), Item(node);
      ElementParts(typed);
      ItemsCases(typed, node);
      hide *;
      if element.Some? {
        if item.None? || !item.value.Dict? {
          Report(here + ": a list of objects with no element verdicts");
          return true;
        }
        if Get(item.value.members, "presence") != Some(Words("always")) {
          Report(here + ": list-element presence is not 'always'");
        }
        LoneConforms(element.value, item.value);
        completed := CheckPresenceLevel(here, Lone(element.value), Lone(item.value));
      } else {
        if item.Some? { Report(here + ": element verdicts on a variable that is not a list of objects"); }
        return true;
      }
    }
  }

  predicate FieldsConform(typed: Doc, node: seq<Pair>) {
    if typed.Dict? then Conforms(typed, Fields(node)) else Get(node, "fields").None?
  }

  function FieldsUndetermined(typed: Doc, node: seq<Pair>): nat {
    if typed.Dict? && Fields(node).Dict? then Undetermined(typed.members, Fields(node).members, KeysOf(typed.members)) else 0
  }

  predicate ItemsConform(typed: Doc, node: seq<Pair>) {
    match (Element(typed), Item(node))
    case (Some(element), Some(item)) => item.Dict? && Get(item.members, "presence") == Some(Words("always")) && NodeConforms(element, item)
    case (Some(_), None) => false
    case (None, item) => item.None?
  }

  function ItemsUndetermined(typed: Doc, node: seq<Pair>): nat {
    match (Element(typed), Item(node)) case (Some(element), Some(item)) => UndeterminedNode(element, item) case _ => 0
  }

  lemma ItemsCases(typed: Doc, node: seq<Pair>)
    ensures Element(typed).Some? && Item(node).Some? ==>
      var element, item := Element(typed).value, Item(node).value;
      (ItemsConform(typed, node) <==> item.Dict? && Get(item.members, "presence") == Some(Words("always")) && NodeConforms(element, item)) &&
      ItemsUndetermined(typed, node) == UndeterminedNode(element, item)
    ensures Element(typed).Some? && Item(node).None? ==> !ItemsConform(typed, node)
    ensures Element(typed).None? ==> (ItemsConform(typed, node) <==> Item(node).None?) && ItemsUndetermined(typed, node) == 0
  {
    hide NodeConforms, UndeterminedNode, Element, Item, Get;
  }

  lemma NodeParts(typed: Doc, node: Doc)
    ensures NodeConforms(typed, node) <==>
      node.Dict? && HasVerdict(node.members) && FieldsConform(typed, node.members) && ItemsConform(typed, node.members)
    ensures node.Dict? ==>
      UndeterminedNode(typed, node) == IsUndetermined(node.members) + FieldsUndetermined(typed, node.members) + ItemsUndetermined(typed, node.members)
  {
    hide Conforms, HasVerdict, Fields, Item, Undetermined, IsUndetermined;
  }

  lemma ConformingAreObjects(shape: Doc, presence: Doc)
    requires shape.Dict?
    ensures Conforms(shape, presence) ==> presence.Dict?
  {}

  /** A list is larger than its element with a key around it. */
  lemma ElementParts(typed: Doc)
    ensures Element(typed).Some? ==> Size(Element(typed).value) + 1 <= Size(typed)
    ensures Element(typed).Some? && WellKeyed(typed) ==> WellKeyed(Element(typed).value)
  {
    if Element(typed).Some? && WellKeyed(typed) { WellKeyedItem(typed.items, 0); }
  }

  lemma ValueOf(members: seq<Pair>, key: string)
    requires Get(members, key).Some?
    ensures Size(Get(members, key).value) < Size(Dict(members))
    ensures WellKeyed(Dict(members)) ==> WellKeyed(Get(members, key).value)
  {
    hide WellKeyedMember;
    SizeOfMember(members, key);
    GetSpec(members, key);
    var i :| 0 <= i < |members| && members[i] == Pair(key, Get(members, key).value);
    if WellKeyed(Dict(members)) { WellKeyedAt(members, i); }
  }

  lemma AllKeysCount(a: seq<Pair>, b: seq<Pair>)
    ensures Undetermined(a, b, KeysOf(a) + KeysOf(b)) == Undetermined(a, b, KeysOf(a))
  {
    SameCount(a, b, KeysOf(a) + KeysOf(b), KeysOf(a));
  }

  lemma {:induction false} SameCount(members: seq<Pair>, verdicts: seq<Pair>, x: set<string>, y: set<string>)
    requires forall m | m in members :: m.key in x <==> m.key in y
    ensures Undetermined(members, verdicts, x) == Undetermined(members, verdicts, y)
  {
    hide UndeterminedNode;
    if members != [] { SameCount(members[1..], verdicts, x, y); }
  }
}
