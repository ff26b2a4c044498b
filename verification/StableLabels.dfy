/** What the stable name of an array entry says: which keys it is made of, and that it
    tells different identities apart as long as no value that identifies prints the separator. */
module StableLabels {
  import opened Values
  import opened Json
  import opened JsonPointers
  import opened StablePaths
  import opened Sequences

  /** Keys an object must have to belong to a family, and the keys that then identify it. */
  datatype Family = Family(has: set<string>, keys: seq<string>)

  /** The first family that fits counts. */
  const FAMILIES: seq<Family> := [
    Family({"handlerModule"}, ["type", "handlerModule", "handlerFunction"]),
    Family({"tag", "module"}, ["tag", "module"]),
    Family({"wireTag"}, ["wireTag", "actionType"]),
    Family({"name"}, ["name"]),
    Family({"tag"}, ["tag"])
  ]

  lemma FirstFamily(members: seq<Pair>)
    ensures forall i | 0 <= i < |FAMILIES| && FAMILIES[i].has <= KeysOf(members) &&
      (forall j | 0 <= j < i :: !(FAMILIES[j].has <= KeysOf(members))) :: IdentityKeys(members) == FAMILIES[i].keys
    ensures (forall i | 0 <= i < |FAMILIES| :: !(FAMILIES[i].has <= KeysOf(members))) ==> IdentityKeys(members) == []
  {
    var has := KeysOf(members);
    assert FAMILIES[0].has <= has <==> "handlerModule" in has;
    assert FAMILIES[1].has <= has <==> "tag" in has && "module" in has;
    assert FAMILIES[2].has <= has <==> "wireTag" in has;
    assert FAMILIES[3].has <= has <==> "name" in has;
    assert FAMILIES[4].has <= has <==> "tag" in has;
    hide KeysOf;
  }

  // ---------------------------------------------------------------- telling apart

  function ShownValue(members: seq<Pair>, key: string, show: Printer): string {
    show(match Get(members, key) case Some(v) => v case None => Nothing)
  }

  /** No value under these keys prints the character that separates the parts of an identity. */
  predicate Unseparated(members: seq<Pair>, keys: seq<string>, show: Printer) {
    forall key | key in keys :: ';' !in ShownValue(members, key, show)
  }

  /** The same keys identify both, and their values print alike. */
  ghost predicate SameIdentity(a: seq<Pair>, b: seq<Pair>, show: Printer) {
    IdentityKeys(a) == IdentityKeys(b) && forall key | key in IdentityKeys(a) :: ShownValue(a, key, show) == ShownValue(b, key, show)
  }

  /** Keys without either separator, none of which looks like a position. */
  predicate PlainKeys(keys: seq<string>) {
    forall key | key in keys :: key != "" && ';' !in key && '=' !in key && key[0] != '#'
  }

  lemma IdentityKeysPlain(members: seq<Pair>)
    ensures PlainKeys(IdentityKeys(members))
  {
    hide KeysOf;
  }

  lemma ShownFree(members: seq<Pair>, key: string, show: Printer)
    requires ';' !in ShownValue(members, key, show) && ';' !in key
    ensures ';' !in Shown(members, key, show) && Shown(members, key, show) == key + ['='] + ShownValue(members, key, show)
  {}

  /** Equal identity texts come from equal keys and equally printed values. */
  lemma {:induction false} IdentityTells(a: seq<Pair>, b: seq<Pair>, keys: seq<string>, others: seq<string>, show: Printer)
    requires PlainKeys(keys) && PlainKeys(others) && keys != [] && others != []
    requires Unseparated(a, keys, show) && Unseparated(b, others, show)
    requires Identity(a, keys, show) == Identity(b, others, show)
    ensures keys == others && forall key | key in keys :: ShownValue(a, key, show) == ShownValue(b, key, show)
    decreases |keys|
  {
    var k, o := keys[0], others[0];
    assert k in keys && o in others;
    ShownFree(a, k, show);
    ShownFree(b, o, show);
    var x, y := Shown(a, k, show), Shown(b, o, show);
    hide Shown, ShownValue;
    assert |keys| > 1 ==> ';' in Identity(a, keys, show) by { if |keys| > 1 { assert Identity(a, keys, show)[|x|] == ';'; } }
    assert |others| > 1 ==> ';' in Identity(b, others, show) by { if |others| > 1 { assert Identity(b, others, show)[|y|] == ';'; } }
    if |keys| > 1 {
      assert Identity(a, keys, show) == x + [';'] + Identity(a, keys[1..], show);
      assert Identity(b, others, show) == y + [';'] + Identity(b, others[1..], show);
      SplitAt(x, Identity(a, keys[1..], show), y, Identity(b, others[1..], show), ';');
      assert PlainKeys(keys[1..]) && PlainKeys(others[1..]);
      IdentityTells(a, b, keys[1..], others[1..], show);
    }
    SplitAt(k, ShownValue(a, k, show), o, ShownValue(b, o, show), '=');
    assert keys == [k] + keys[1..] && others == [o] + others[1..];
  }

  lemma {:induction false} SameText(a: seq<Pair>, b: seq<Pair>, keys: seq<string>, show: Printer)
    requires forall key | key in keys :: ShownValue(a, key, show) == ShownValue(b, key, show)
    ensures Identity(a, keys, show) == Identity(b, keys, show)
    decreases |keys|
  {
    if keys != [] {
      assert keys[0] in keys;
      assert forall key | key in keys[1..] :: key in keys;
      hide ShownValue;
      assert Shown(a, keys[0], show) == Shown(b, keys[0], show) by { AsValue(a, keys[0], show); AsValue(b, keys[0], show); }
      hide Shown;
      if |keys| > 1 { SameText(a, b, keys[1..], show); }
    }
  }

  lemma AsValue(members: seq<Pair>, key: string, show: Printer)
    ensures Shown(members, key, show) == key + "=" + ShownValue(members, key, show)
  {}

  lemma EscapeInjective(s: string, t: string)
    requires Escape(s) == Escape(t)
    ensures s == t
  {
    EscapeRoundTrip(s);
    EscapeRoundTrip(t);
  }

  lemma {:induction false} IdentityStart(members: seq<Pair>, keys: seq<string>, show: Printer)
    requires PlainKeys(keys) && keys != []
    ensures keys[0] in keys && Identity(members, keys, show) != "" && Identity(members, keys, show)[0] == keys[0][0]
  {
    assert keys[0] in keys;
    assert Shown(members, keys[0], show)[0] == keys[0][0];
    hide Shown;
  }

  /** Two entries get one name exactly when they carry the same identity, or neither carries
      one and they stand at the same position. */
  lemma LabelsTell(d: Doc, e: Doc, part: string, other: string, show: Printer)
    requires Identified(d) ==> Unseparated(d.members, IdentityKeys(d.members), show)
    requires Identified(e) ==> Unseparated(e.members, IdentityKeys(e.members), show)
    ensures Label(d, part, show) == Label(e, other, show) <==>
      (Identified(d) && Identified(e) && SameIdentity(d.members, e.members, show)) || (!Identified(d) && !Identified(e) && part == other)
  {
    if Identified(d) { IdentityKeysPlain(d.members); IdentityStart(d.members, IdentityKeys(d.members), show); }
    if Identified(e) { IdentityKeysPlain(e.members); IdentityStart(e.members, IdentityKeys(e.members), show); }
    hide Identity, IdentityKeys, Escape, ShownValue, PlainKeys, Unseparated;
    var x := if Identified(d) then Identity(d.members, IdentityKeys(d.members), show) else "#" + part;
    var y := if Identified(e) then Identity(e.members, IdentityKeys(e.members), show) else "#" + other;
    assert Label(d, part, show) == Escape(x) && Label(e, other, show) == Escape(y);
    if Escape(x) == Escape(y) { EscapeInjective(x, y); }
    if Identified(d) && Identified(e) {
      if x == y { IdentityTells(d.members, e.members, IdentityKeys(d.members), IdentityKeys(e.members), show); }
      if SameIdentity(d.members, e.members, show) { SameText(d.members, e.members, IdentityKeys(d.members), show); }
    } else if !Identified(d) && !Identified(e) {
      assert x[1..] == part && y[1..] == other;
    } else if Identified(d) {
      assert y[0] == '#' && x[0] != '#' by { IdentityKeysPlain(d.members); FirstCharacter(d.members); }
    } else {
      assert x[0] == '#' && y[0] != '#' by { IdentityKeysPlain(e.members); FirstCharacter(e.members); }
    }
  }

  lemma FirstCharacter(members: seq<Pair>)
    ensures IdentityKeys(members) != [] ==> IdentityKeys(members)[0] != "" && IdentityKeys(members)[0][0] != '#'
  {
    hide KeysOf;
  }

  /** Where values may print the separator, names do not tell identities apart: one tag with
      a semicolon in it passes for a tag and a module. */
  lemma SeparatorsConfuse(show: Printer)
    requires forall s :: show(Words(s)) == s
    ensures var one, two := Dict([Pair("tag", Words("a;module=b"))]), Dict([Pair("tag", Words("a")), Pair("module", Words("b"))]);
      Label(one, "0", show) == Label(two, "1", show) && IdentityKeys(one.members) != IdentityKeys(two.members)
  {
    var a, b := [Pair("tag", Words("a;module=b"))], [Pair("tag", Words("a")), Pair("module", Words("b"))];
    assert KeysOf(a) == {"tag"} && KeysOf(b) == {"tag", "module"} by { assert a[0] in a && b[0] in b && b[1] in b; }
    assert IdentityKeys(a) == ["tag"] && IdentityKeys(b) == ["tag", "module"];
    assert b[1..] == [Pair("module", Words("b"))];
    assert Get(a, "tag") == Some(Words("a;module=b")) && Get(b, "tag") == Some(Words("a")) && Get(b, "module") == Some(Words("b"));
    assert ["tag", "module"][1..] == ["module"];
    assert Identity(a, ["tag"], show) == "tag" + "=" + "a;module=b";
    assert Identity(b, ["tag", "module"], show) == ("tag" + "=" + "a") + ";" + ("module" + "=" + "b");
    assert "tag" + "=" + "a;module=b" == ("tag" + "=" + "a") + ";" + ("module" + "=" + "b");
    hide Escape, Identity, IdentityKeys;
  }
}
