/** Conformance place by place: what each single node must be, and that nothing else is
    asked of the two trees together. */
module PresencePlaces {
  import opened Values
  import opened Json
  import opened PresenceLint

  /** One level down: to a key of an object, or to the element of a list. */
  datatype Step = Key(key: string) | Entry

  /** The typed value at a place. */
  function TypedAt(typed: Doc, place: seq<Step>): Option<Doc>
    decreases |place|
  {
    if place == [] then Some(typed)
    else match TypedBelow(typed, place[0]) case Some(x) => TypedAt(x, place[1..]) case None => None
  }

  function TypedBelow(typed: Doc, step: Step): Option<Doc> {
    match step
    case Key(key) => if typed.Dict? then Get(typed.members, key) else None
    case Entry => Element(typed)
  }

  /** The verdict node at a place. */
  function NodeAt(node: Doc, place: seq<Step>): Option<Doc>
    decreases |place|
  {
    if place == [] then Some(node)
    else match NodeBelow(node, place[0]) case Some(x) => NodeAt(x, place[1..]) case None => None
  }

  function NodeBelow(node: Doc, step: Step): Option<Doc> {
    if !node.Dict? then None
    else match step
      case Key(key) => (match Fields(node.members) case Dict(verdicts) => Get(verdicts, key) case _ => None)
      case Entry => Item(node.members)
  }

  /** One node: an object with a verdict of the vocabulary, with field verdicts in an object
      if anything, and with none at all unless the value has keys. */
  predicate Sound(typed: Doc, node: Doc) {
    node.Dict? && HasVerdict(node.members) &&
    if typed.Dict? then Fields(node.members).Dict? else Get(node.members, "fields").None?
  }

  /** At one place: there is a node exactly where there is a value, it is sound, and an
      element is always there. */
  ghost predicate Right(typed: Doc, node: Doc, place: seq<Step>) {
    match (TypedAt(typed, place), NodeAt(node, place))
    case (Some(t), Some(n)) =>
      Sound(t, n) && (place != [] && place[|place| - 1].Entry? ==> Get(n.members, "presence") == Some(Words("always")))
    case (None, None) => true
    case _ => false
  }

  ghost predicate RightEverywhere(typed: Doc, node: Doc) {
    forall place :: Right(typed, node, place)
  }

  /** Right here and right below each step. */
  ghost predicate RightBelow(typed: Doc, node: Doc, step: Step) {
    match (TypedBelow(typed, step), NodeBelow(node, step))
    case (Some(t), Some(n)) => RightEverywhere(t, n) && (step.Entry? ==> n.Dict? && Get(n.members, "presence") == Some(Words("always")))
    case (None, None) => true
    case _ => false
  }

  lemma StepOn(typed: Doc, node: Doc, step: Step, place: seq<Step>)
    ensures TypedAt(typed, [step] + place) == (match TypedBelow(typed, step) case Some(x) => TypedAt(x, place) case None => None)
    ensures NodeAt(node, [step] + place) == (match NodeBelow(node, step) case Some(x) => NodeAt(x, place) case None => None)
  {
    assert ([step] + place)[0] == step && ([step] + place)[1..] == place;
  }

  lemma EverywhereByStep(typed: Doc, node: Doc)
    ensures RightEverywhere(typed, node) <==> Sound(typed, node) && forall step :: RightBelow(typed, node, step)
  {
    hide TypedBelow, NodeBelow, Sound, TypedAt, NodeAt;
    Here(typed, node);
    if RightEverywhere(typed, node) {
      assert Right(typed, node, []);
      forall step ensures RightBelow(typed, node, step) { BelowIsRight(typed, node, step); }
    }
    if Sound(typed, node) && forall step :: RightBelow(typed, node, step) {
      forall place ensures Right(typed, node, place) {
        if place != [] {
          assert RightBelow(typed, node, place[0]);
          RightFromBelow(typed, node, place[0], place[1..]);
          assert [place[0]] + place[1..] == place;
        }
      }
    }
  }

  lemma Here(typed: Doc, node: Doc)
    ensures Right(typed, node, []) <==> Sound(typed, node)
  {}

  lemma BelowIsRight(typed: Doc, node: Doc, step: Step)
    requires RightEverywhere(typed, node)
    ensures RightBelow(typed, node, step)
  {
    hide TypedBelow, NodeBelow, TypedAt, NodeAt;
    StepOn(typed, node, step, []);
    assert Right(typed, node, [step] + []);
    assert [step] + [] == [step];
    NothingMore(typed, node, step);
    match (TypedBelow(typed, step), NodeBelow(node, step)) {
      case (Some(t), Some(n)) =>
        forall place ensures Right(t, n, place) {
          assert Right(typed, node, [step] + place);
          StepOn(typed, node, step, place);
          if place != [] { assert ([step] + place)[|place|] == place[|place| - 1]; } else { NothingAt(t, n); }
        }
      case _ =>
    }
  }

  lemma NothingAt(typed: Doc, node: Doc)
    ensures TypedAt(typed, []) == Some(typed) && NodeAt(node, []) == Some(node)
  {}

  lemma NothingMore(typed: Doc, node: Doc, step: Step)
    ensures TypedBelow(typed, step).Some? ==> TypedAt(TypedBelow(typed, step).value, []) == TypedBelow(typed, step)
    ensures NodeBelow(node, step).Some? ==> NodeAt(NodeBelow(node, step).value, []) == NodeBelow(node, step)
  {
    hide TypedBelow, NodeBelow;
  }

  lemma RightFromBelow(typed: Doc, node: Doc, step: Step, place: seq<Step>)
    requires RightBelow(typed, node, step)
    ensures Right(typed, node, [step] + place)
  {
    hide TypedBelow, NodeBelow, TypedAt, NodeAt;
    StepOn(typed, node, step, place);
    match (TypedBelow(typed, step), NodeBelow(node, step)) {
      case (Some(t), Some(n)) =>
        assert Right(t, n, place);
        if place == [] { NothingAt(t, n); } else { assert ([step] + place)[|place|] == place[|place| - 1]; }
      case _ =>
    }
  }

  // ---------------------------------------------------------------- conformance

  /** Key by key: verdicts on exactly the typed keys, right everywhere below each. */
  ghost predicate RightKeys(members: seq<Pair>, verdicts: seq<Pair>) {
    forall key :: match (Get(members, key), Get(verdicts, key))
      case (Some(t), Some(n)) => RightEverywhere(t, n)
      case (None, None) => true
      case _ => false
  }

  lemma {:induction false} KeysEverywhere(members: seq<Pair>, verdicts: seq<Pair>)
    requires WellKeyed(Dict(members))
    ensures Conforms(Dict(members), Dict(verdicts)) <==> RightKeys(members, verdicts)
    decreases Size(Dict(members)), 0
  {
    assert UniqueKeys(members);
    ConformsByKey(members, verdicts);
    hide Conforms, NodeConforms, RightEverywhere, WellKeyed, Size, KeysOf, UniqueKeys, Get;
    forall key ensures key in KeysOf(members) + KeysOf(verdicts) <==> Get(members, key).Some? || Get(verdicts, key).Some? {
      GetSpec(members, key);
      GetSpec(verdicts, key);
    }
    forall key | Get(members, key).Some? && Get(verdicts, key).Some?
      ensures NodeConforms(Get(members, key).value, Get(verdicts, key).value) <==> RightEverywhere(Get(members, key).value, Get(verdicts, key).value)
    {
      ValueOf(members, key);
      NodeEverywhere(Get(members, key).value, Get(verdicts, key).value);
    }
    if RightKeys(members, verdicts) {
      forall key | key in KeysOf(members) + KeysOf(verdicts) ensures KeyConforms(members, verdicts, key) {}
    }
  }

  /** A verdict node conforms exactly when it is right at every place. */
  lemma {:induction false} NodeEverywhere(typed: Doc, node: Doc)
    requires WellKeyed(typed)
    ensures NodeConforms(typed, node) <==> RightEverywhere(typed, node)
    decreases Size(typed), 1
  {
    EverywhereByStep(typed, node);
    if node.Dict? {
      NodeParts(typed, node);
      KeySteps(typed, node);
      ElementParts(typed);
      if typed.Dict? && Fields(node.members).Dict? { KeysEverywhere(typed.members, Fields(node.members).members); }
      if Element(typed).Some? && Item(node.members).Some? { NodeEverywhere(Element(typed).value, Item(node.members).value); }
      EntryStep(typed, node);
      StepsAre(typed, node);
      FieldsSound(typed, node);
    }
    hide Conforms, RightKeys, RightEverywhere, RightBelow, HasVerdict, Size, WellKeyed, Element, Item, Fields;
  }

  lemma StepsAre(typed: Doc, node: Doc)
    ensures (forall step :: RightBelow(typed, node, step)) <==>
      RightBelow(typed, node, Entry) && forall key :: RightBelow(typed, node, Key(key))
  {
    hide RightBelow;
    if RightBelow(typed, node, Entry) && forall key :: RightBelow(typed, node, Key(key)) {
      forall step ensures RightBelow(typed, node, step) {
        match step case Key(key) => assert RightBelow(typed, node, Key(key)); case Entry =>
      }
    }
  }

  lemma KeySteps(typed: Doc, node: Doc)
    requires node.Dict?
    ensures typed.Dict? && Fields(node.members).Dict? ==>
      ((forall key :: RightBelow(typed, node, Key(key))) <==> RightKeys(typed.members, Fields(node.members).members))
    ensures !typed.Dict? && Get(node.members, "fields").None? ==> forall key :: RightBelow(typed, node, Key(key))
  {
    hide RightEverywhere, Get;
    if typed.Dict? && Fields(node.members).Dict? {
      var a, b := typed.members, Fields(node.members).members;
      if forall key :: RightBelow(typed, node, Key(key)) {
        forall key ensures match (Get(a, key), Get(b, key))
          case (Some(t), Some(n)) => RightEverywhere(t, n)
          case (None, None) => true
          case _ => false
        {
          assert RightBelow(typed, node, Key(key));
        }
      }
    }
    NoKeys();
  }

  lemma NoKeys()
    ensures forall key :: Get([], key) == None
  {}

  lemma EntryStep(typed: Doc, node: Doc)
    requires node.Dict? && WellKeyed(typed)
    requires Element(typed).Some? && Item(node.members).Some? ==>
      (NodeConforms(Element(typed).value, Item(node.members).value) <==> RightEverywhere(Element(typed).value, Item(node.members).value))
    ensures RightBelow(typed, node, Entry) <==> ItemsConform(typed, node.members)
  {
    hide RightEverywhere, NodeConforms, Element, Item, WellKeyed;
  }

  lemma FieldsSound(typed: Doc, node: Doc)
    requires node.Dict?
    ensures Sound(typed, node) <==>
      HasVerdict(node.members) && if typed.Dict? then Fields(node.members).Dict? else Get(node.members, "fields").None?
    ensures FieldsConform(typed, node.members) ==> if typed.Dict? then Fields(node.members).Dict? else Get(node.members, "fields").None?
    ensures FieldsConform(typed, node.members) <==>
      if typed.Dict? then Fields(node.members).Dict? && Conforms(typed, Fields(node.members)) else Get(node.members, "fields").None?
  {
    hide HasVerdict, Fields, MembersConform, KeysOf;
  }

  /** The check passes exactly when both trees are objects, verdicts stand on exactly the
      typed keys, and below each everything is right. */
  lemma ConformsEverywhere(shape: Doc, presence: Doc)
    requires WellKeyed(shape)
    ensures Conforms(shape, presence) <==> shape.Dict? && presence.Dict? && RightKeys(shape.members, presence.members)
  {
    if shape.Dict? && presence.Dict? { KeysEverywhere(shape.members, presence.members); }
    hide RightKeys, MembersConform, KeysOf;
  }
}
