/** Paths that name array entries by the identity they carry, so that reordering the
    entries moves no path. */
module StablePaths {
  import opened Values
  import opened Decimals
  import opened Json
  import opened JsonPointers

  /** How a looked-up value prints; a missing one prints as null does. */
  type Printer = Doc -> string

  // ---------------------------------------------------------------- identities

  /** The keys that identify an object, by the first family it belongs to. */
  function IdentityKeys(members: seq<Pair>): seq<string> {
    var has := KeysOf(members);
    if "handlerModule" in has then ["type", "handlerModule", "handlerFunction"]
    else if "module" in has && "tag" in has then ["tag", "module"]
    else if "wireTag" in has then ["wireTag", "actionType"]
    else if "name" in has then ["name"]
    else if "tag" in has then ["tag"]
    else []
  }

  function Shown(members: seq<Pair>, key: string, show: Printer): string {
    key + "=" + show(match Get(members, key) case Some(v) => v case None => Nothing)
  }

  function Identity(members: seq<Pair>, keys: seq<string>, show: Printer): string {
    if keys == [] then ""
    else if |keys| == 1 then Shown(members, keys[0], show)
    else Shown(members, keys[0], show) + ";" + Identity(members, keys[1..], show)
  }

  predicate Identified(d: Doc) {
    d.Dict? && IdentityKeys(d.members) != []
  }

  /** The step that names an array entry. */
  function Label(item: Doc, part: string, show: Printer): string {
    Escape(if Identified(item) then Identity(item.members, IdentityKeys(item.members), show) else "#" + part)
  }

  // ---------------------------------------------------------------- which entry a step means

  predicate IsDigit(c: char) {
    '0' <= c <= '9'
  }

  /** White space that `int` ignores at both ends. */
  predicate IsBlank(c: char) {
    c == ' ' || '\t' <= c <= '\r'
  }

  function TrimLeft(s: string): string {
    if s != "" && IsBlank(s[0]) then TrimLeft(s[1..]) else s
  }

  function TrimRight(s: string): string {
    if s != "" && IsBlank(s[|s| - 1]) then TrimRight(s[..|s| - 1]) else s
  }

  /** Digits, single underscores between them allowed. */
  predicate Grouped(s: string) {
    s != "" && IsDigit(s[0]) &&
    (|s| == 1 || Grouped(s[1..]) || (s[1] == '_' && Grouped(s[2..])))
  }

  function DropUnderscores(s: string): string {
    if s == "" then "" else (if s[0] == '_' then "" else [s[0]]) + DropUnderscores(s[1..])
  }

  /** `int(s)`, absent where it raises. */
  function PythonInt(s: string): Option<int> {
    var t := TrimRight(TrimLeft(s));
    var signed := t != "" && (t[0] == '-' || t[0] == '+');
    var digits := if signed then t[1..] else t;
    if !Grouped(digits) then None
    else
      var k: int := ParseNat(DropUnderscores(digits));
      Some(if signed && t[0] == '-' then -k else k)
  }

  /** The entry a step picks out of `n`; negative numbers count from the end. */
  function Picked(part: string, n: nat): (i: Option<nat>)
    ensures i.Some? ==> i.value < n
  {
    match PythonInt(part)
    case Some(k) =>
      var i: int := if k < 0 then n + k else k;
      if 0 <= i < n then Some(i as nat) else None
    case None => None
  }

  /** A plain number picks the entry of that number. */
  lemma PickedPlain(s: string, n: nat)
    requires IsIndex(s)
    ensures Picked(s, n) == if ParseNat(s) < n then Some(ParseNat(s)) else None
  {
    assert s[0] in s && s[|s| - 1] in s;
    assert !IsBlank(s[0]) && !IsBlank(s[|s| - 1]);
    assert TrimRight(TrimLeft(s)) == s;
    PlainGrouped(s);
  }

  lemma {:induction false} PlainGrouped(s: string)
    requires IsIndex(s)
    ensures Grouped(s) && DropUnderscores(s) == s
  {
    assert s[0] in s && [s[0]] + s[1..] == s;
    if |s| > 1 {
      assert forall c | c in s[1..] :: c in s;
      PlainGrouped(s[1..]);
    }
  }

  lemma {:induction false} TrimmedLeft(blanks: string, t: string)
    requires (forall c | c in blanks :: IsBlank(c)) && t != "" && !IsBlank(t[0])
    ensures TrimLeft(blanks + t) == t
  {
    if blanks == "" {
      assert blanks + t == t;
    } else {
      assert (blanks + t)[1..] == blanks[1..] + t;
      TrimmedLeft(blanks[1..], t);
    }
  }

  lemma {:induction false} TrimmedRight(t: string, blanks: string)
    requires (forall c | c in blanks :: IsBlank(c)) && t != "" && !IsBlank(t[|t| - 1])
    ensures TrimRight(t + blanks) == t
    decreases |blanks|
  {
    if blanks == "" {
      assert t + blanks == t;
    } else {
      assert (t + blanks)[..|t + blanks| - 1] == t + blanks[..|blanks| - 1];
      assert (t + blanks)[|t + blanks| - 1] == blanks[|blanks| - 1];
      TrimmedRight(t, blanks[..|blanks| - 1]);
    }
  }

  /** A number is read through space around it and a sign before it. */
  lemma SignedReads(before: string, sign: string, n: nat, behind: string)
    requires forall c | c in before || c in behind :: IsBlank(c)
    requires sign == "" || sign == "+" || sign == "-"
    ensures PythonInt(before + (sign + Decimal(n)) + behind) == Some((if sign == "-" then -1 else 1) * n)
  {
    ParseDecimal(n);
    var t, digits := sign + Decimal(n), Decimal(n);
    assert digits[0] in digits && digits[|digits| - 1] in digits && t[|t| - 1] == digits[|digits| - 1];
    assert !IsBlank(t[0]) && !IsBlank(t[|t| - 1]);
    assert before + t + behind == before + (t + behind) && (t + behind)[0] == t[0];
    TrimmedLeft(before, t + behind);
    TrimmedRight(t, behind);
    SignedDigits(sign, n);
    TrimmedLeft("", t);
    TrimmedRight(t, "");
    assert "" + t == t && t + "" == t;
    hide *;
    Trimmed(before + t + behind, t);
  }

  lemma SignedDigits(sign: string, n: nat)
    requires sign == "" || sign == "+" || sign == "-"
    ensures PythonInt(sign + Decimal(n)) == Some((if sign == "-" then -1 else 1) * n)
  {
    ParseDecimal(n);
    var t, digits := sign + Decimal(n), Decimal(n);
    assert digits[0] in digits && digits[|digits| - 1] in digits && t[|t| - 1] == digits[|digits| - 1];
    assert !IsBlank(t[0]) && !IsBlank(t[|t| - 1]);
    assert TrimRight(TrimLeft(t)) == t;
    PlainGrouped(digits);
    assert sign == "" ==> t == digits && t[0] != '+' && t[0] != '-';
    assert sign != "" ==> t[0] == sign[0] && t[1..] == digits;
    hide *;
    ReadsTrimmed(t, digits, sign != "");
  }

  lemma ReadsTrimmed(t: string, digits: string, signed: bool)
    requires t != "" && TrimRight(TrimLeft(t)) == t && Grouped(digits) && DropUnderscores(digits) == digits
    requires if signed then (t[0] == '+' || t[0] == '-') && t[1..] == digits else t[0] != '+' && t[0] != '-' && t == digits
    ensures PythonInt(t) == Some((if signed && t[0] == '-' then -1 else 1) * ParseNat(digits))
  {
    hide TrimLeft, TrimRight, Grouped, ParseNat, DropUnderscores;
  }

  lemma Trimmed(s: string, t: string)
    requires TrimRight(TrimLeft(s)) == t && TrimRight(TrimLeft(t)) == t
    ensures PythonInt(s) == PythonInt(t)
  {
    hide TrimLeft, TrimRight, Grouped, ParseNat, DropUnderscores;
  }

  // ---------------------------------------------------------------- the stable form of a path

  function StableParts(d: Doc, parts: seq<string>, show: Printer): Option<seq<string>>
    decreases |parts|
  {
    if parts == [] then Some([])
    else match d
      case Dict(members) =>
        (match Get(members, Unescape(parts[0]))
         case Some(v) => Prepended(parts[0], StableParts(v, parts[1..], show))
         case None => None)
      case List(items) =>
        var part := Unescape(parts[0]);
        (match Picked(part, |items|)
         case Some(i) => Prepended(Label(items[i], part, show), StableParts(items[i], parts[1..], show))
         case None => None)
      case _ => None
  }

  function Prepended(part: string, rest: Option<seq<string>>): Option<seq<string>> {
    match rest case Some(more) => Some([part] + more) case None => None
  }

  /** Follow a path, naming as it goes; a path that leads nowhere raises. */
  method StableIdentityPath(document: Doc, path: string, show: Printer) returns (stable: Option<string>)
    ensures stable == match StableParts(document, Split(path), show) case Some(parts) => Some(Join(parts)) case None => None
  {
    var current := document;
    var result: seq<string> := [];
    var parts := Split(path);
    hide Split, Unescape, Picked, Label, Join;
    assert parts[0..] == parts;
    NothingBefore(StableParts(document, parts, show));
    for i := 0 to |parts|
      invariant StableParts(document, parts, show) ==
        match StableParts(current, parts[i..], show) case Some(more) => Some(result + more) case None => None
    {
      assert parts[i..][0] == parts[i] && parts[i..][1..] == parts[i + 1..];
      match current {
        case List(items) =>
          var part := Unescape(parts[i]);
          var picked := Picked(part, |items|);
          if picked.None? { return None; }
          current := items[picked.value];
          PushStep(result, Label(current, part, show), StableParts(current, parts[i + 1..], show));
          result := result + [Label(current, part, show)];
        case Dict(members) =>
          var next := Get(members, Unescape(parts[i]));
          if next.None? { return None; }
          current := next.value;
          PushStep(result, parts[i], StableParts(current, parts[i + 1..], show));
          result := result + [parts[i]];
        case _ =>
          return None;
      }
    }
    assert parts[|parts|..] == [] && result + [] == result;
    return Some(Join(result));
  }

  lemma NothingBefore(rest: Option<seq<string>>)
    ensures rest.Some? ==> [] + rest.value == rest.value
  {}

  lemma PushStep(result: seq<string>, part: string, rest: Option<seq<string>>)
    ensures rest.Some? ==> result + Prepended(part, rest).value == result + [part] + rest.value
  {}

  // ---------------------------------------------------------------- stable paths of a whole document

  function StableOf(d: Doc, path: string, show: Printer): Option<string> {
    match StableParts(d, Split(path), show) case Some(parts) => Some(Join(parts)) case None => None
  }

  /** Stable paths of all objects, taken directly. */
  function Stable(d: Doc, path: string, show: Printer): seq<string>
    decreases d, 1
  {
    match d
    case Dict(members) => [path] + StableMembers(members, path, show)
    case List(items) => StableItems(items, 0, path, show)
    case _ => []
  }

  function StableMember(m: Pair, path: string, show: Printer): seq<string>
    decreases m, 2
  {
    Stable(m.value, path + "/" + Escape(m.key), show)
  }

  function StableMembers(members: seq<Pair>, path: string, show: Printer): seq<string>
    decreases members, 0
  {
    if members == [] then [] else StableMember(members[0], path, show) + StableMembers(members[1..], path, show)
  }

  function StableItems(items: seq<Doc>, i: nat, path: string, show: Printer): seq<string>
    decreases items, 0
  {
    if items == [] then []
    else Stable(items[0], path + "/" + Label(items[0], Decimal(i), show), show) + StableItems(items[1..], i + 1, path, show)
  }

  /** A walked path together with its stable form, both relative to where they start. */
  ghost predicate Pairs(d: Doc, path: string, v: Visit, from: string, stable: string, show: Printer) {
    exists steps, names :: PairsVia(d, path, v, from, stable, show, steps, names)
  }

  ghost predicate PairsVia(d: Doc, path: string, v: Visit, from: string, stable: string, show: Printer, steps: seq<string>, names: seq<string>) {
    Plain(steps) && v.path == path + Join(steps) && stable == from + Join(names) && StableParts(d, steps, show) == Some(names)
  }

  /** Walk and direct collection go through the document side by side. */
  ghost predicate SideBySide(d: Doc, path: string, vs: seq<Visit>, from: string, ss: seq<string>, show: Printer) {
    |vs| == |ss| && forall i | 0 <= i < |vs| :: Pairs(d, path, vs[i], from, ss[i], show)
  }

  lemma PairsBy(d: Doc, child: Doc, path: string, step: string, v: Visit, from: string, name: string, stable: string, show: Printer)
    requires Pairs(child, path + "/" + step, v, from + "/" + name, stable, show) && '/' !in step
    requires forall steps: seq<string> :: StableParts(d, [step] + steps, show) == Prepended(name, StableParts(child, steps, show))
    ensures Pairs(d, path, v, from, stable, show)
  {
    var steps, names :| PairsVia(child, path + "/" + step, v, from + "/" + name, stable, show, steps, names);
    var more, all := [step] + steps, [name] + names;
    JoinUnder(path, step, steps);
    JoinUnder(from, name, names);
    assert StableParts(d, more, show) == Prepended(name, StableParts(child, steps, show));
    assert StableParts(d, more, show) == Some(all);
    assert Plain(more);
    hide StableParts, Join, Plain, Prepended;
    assert PairsVia(d, path, v, from, stable, show, more, all);
  }

  lemma JoinUnder(path: string, step: string, steps: seq<string>)
    ensures path + Join([step] + steps) == path + "/" + step + Join(steps)
  {
    assert ([step] + steps)[1..] == steps;
    assert path + "/" + step + Join(steps) == path + ("/" + step + Join(steps));
  }

  lemma SideBySideBy(d: Doc, child: Doc, path: string, step: string, vs: seq<Visit>, from: string, name: string, ss: seq<string>, show: Printer)
    requires SideBySide(child, path + "/" + step, vs, from + "/" + name, ss, show) && '/' !in step
    requires forall steps: seq<string> :: StableParts(d, [step] + steps, show) == Prepended(name, StableParts(child, steps, show))
    ensures SideBySide(d, path, vs, from, ss, show)
  {
    forall i | 0 <= i < |vs| ensures Pairs(d, path, vs[i], from, ss[i], show) {
      PairsBy(d, child, path, step, vs[i], from, name, ss[i], show);
    }
  }

  lemma SideBySideConcat(d: Doc, path: string, from: string, a: seq<Visit>, x: seq<string>, b: seq<Visit>, y: seq<string>, show: Printer)
    requires SideBySide(d, path, a, from, x, show) && SideBySide(d, path, b, from, y, show)
    ensures SideBySide(d, path, a + b, from, x + y, show)
  {
    hide Pairs;
  }

  lemma {:induction false} WalkAlongside(d: Doc, path: string, from: string, show: Printer)
    requires WellKeyed(d)
    ensures SideBySide(d, path, Walk(d, path), from, Stable(d, from, show), show)
    decreases d, 3
  {
    match d
    case Dict(members) =>
      assert path + Join([]) == path && from + Join([]) == from && StableParts(d, [], show) == Some([]);
      assert PairsVia(d, path, Visit(d, path), from, from, show, [], []);
      assert SideBySide(d, path, [Visit(d, path)], from, [from], show);
      MembersAlongside(d, members, 0, path, from, show);
      assert members[0..] == members;
      SideBySideConcat(d, path, from, [Visit(d, path)], [from], WalkMembers(members, path), StableMembers(members, from, show), show);
    case List(items) =>
      ItemsAlongside(d, items, 0, path, from, show);
      assert items[0..] == items;
    case _ =>
  }

  lemma {:induction false} MembersAlongside(d: Doc, members: seq<Pair>, i: nat, path: string, from: string, show: Printer)
    requires d == Dict(members) && WellKeyed(d) && i <= |members|
    ensures SideBySide(d, path, WalkMembers(members[i..], path), from, StableMembers(members[i..], from, show), show)
    decreases members, 2, |members| - i
  {
    if i < |members| {
      var m := members[i];
      assert members[i..][0] == m && members[i..][1..] == members[i + 1..];
      MembersAlongside(d, members, i + 1, path, from, show);
      WellKeyedAt(members, i);
      GetAt(members, i);
      MemberAlongside(m, path, from, show);
      StableMemberStep(d, members, i, show);
      EscapeRoundTrip(m.key);
      SideBySideBy(d, m.value, path, Escape(m.key), WalkMember(m, path), from, Escape(m.key), StableMember(m, from, show), show);
      SideBySideConcat(d, path, from, WalkMember(m, path), StableMember(m, from, show), WalkMembers(members[i + 1..], path), StableMembers(members[i + 1..], from, show), show);
    }
  }

  lemma {:induction false} MemberAlongside(m: Pair, path: string, from: string, show: Printer)
    requires WellKeyed(m.value)
    ensures SideBySide(m.value, path + "/" + Escape(m.key), WalkMember(m, path), from + "/" + Escape(m.key), StableMember(m, from, show), show)
    decreases m, 4
  {
    WalkAlongside(m.value, path + "/" + Escape(m.key), from + "/" + Escape(m.key), show);
  }

  lemma StableMemberStep(d: Doc, members: seq<Pair>, i: nat, show: Printer)
    requires d == Dict(members) && i < |members| && Get(members, members[i].key) == Some(members[i].value)
    ensures var step := Escape(members[i].key);
      forall steps: seq<string> :: StableParts(d, [step] + steps, show) == Prepended(step, StableParts(members[i].value, steps, show))
  {
    var step := Escape(members[i].key);
    EscapeRoundTrip(members[i].key);
    forall steps: seq<string> ensures StableParts(d, [step] + steps, show) == Prepended(step, StableParts(members[i].value, steps, show)) {
      assert ([step] + steps)[1..] == steps;
    }
  }

  lemma {:induction false} ItemsAlongside(d: Doc, items: seq<Doc>, i: nat, path: string, from: string, show: Printer)
    requires d == List(items) && WellKeyed(d) && i <= |items|
    ensures SideBySide(d, path, WalkItems(items[i..], i, path), from, StableItems(items[i..], i, from, show), show)
    decreases items, 2, |items| - i
  {
    if i < |items| {
      var item, step := items[i], Decimal(i);
      var name := Label(item, step, show);
      assert items[i..][0] == item && items[i..][1..] == items[i + 1..];
      ItemsAlongside(d, items, i + 1, path, from, show);
      WellKeyedItem(items, i);
      WalkAlongside(item, path + "/" + step, from + "/" + name, show);
      ParseDecimal(i);
      StableItemStep(d, items, i, show);
      SideBySideBy(d, item, path, step, Walk(item, path + "/" + step), from, name, Stable(item, from + "/" + name, show), show);
      SideBySideConcat(d, path, from, Walk(item, path + "/" + step), Stable(item, from + "/" + name, show),
                       WalkItems(items[i + 1..], i + 1, path), StableItems(items[i + 1..], i + 1, from, show), show);
    }
  }

  lemma StableItemStep(d: Doc, items: seq<Doc>, i: nat, show: Printer)
    requires d == List(items) && i < |items|
    ensures forall steps: seq<string> ::
      StableParts(d, [Decimal(i)] + steps, show) == Prepended(Label(items[i], Decimal(i), show), StableParts(items[i], steps, show))
  {
    ParseDecimal(i);
    PlainUnescape(Decimal(i));
    PickedPlain(Decimal(i), |items|);
    hide Picked, PythonInt;
    forall steps: seq<string>
      ensures StableParts(d, [Decimal(i)] + steps, show) == Prepended(Label(items[i], Decimal(i), show), StableParts(items[i], steps, show))
    {
      assert ([Decimal(i)] + steps)[1..] == steps;
    }
  }

  /** The stable form of each walked path, in walking order, is the direct collection. */
  lemma StableOfWalked(d: Doc, show: Printer)
    requires WellKeyed(d)
    ensures |Walk(d, "")| == |Stable(d, "", show)|
    ensures forall i | 0 <= i < |Walk(d, "")| :: StableOf(d, Walk(d, "")[i].path, show) == Some(Stable(d, "", show)[i])
  {
    WalkAlongside(d, "", "", show);
    var vs, ss := Walk(d, ""), Stable(d, "", show);
    forall i | 0 <= i < |vs| ensures StableOf(d, vs[i].path, show) == Some(ss[i]) {
      assert Pairs(d, "", vs[i], "", ss[i], show);
      var steps, names :| PairsVia(d, "", vs[i], "", ss[i], show, steps, names);
      assert "" + Join(steps) == Join(steps) && "" + Join(names) == Join(names);
      SplitJoin(steps);
    }
  }
}
