/** Paths into a document: escaped key and index steps (RFC 6901 sections 3 and 4), the
    walk that produces them, and the resolution that follows them. */
module JsonPointers {
  import opened Values
  import opened Decimals
  import opened Json

  // ---------------------------------------------------------------- escaping

  /** `s.replace(c, with)` for a one-character pattern. */
  function ReplaceChar(s: string, c: char, with: string): string {
    if s == "" then "" else (if s[0] == c then with else [s[0]]) + ReplaceChar(s[1..], c, with)
  }

  /** `s.replace("~" + c, with)` */
  function ReplaceTilde(s: string, c: char, with: char): string {
    if |s| < 2 then s
    else if s[0] == '~' && s[1] == c then [with] + ReplaceTilde(s[2..], c, with)
    else [s[0]] + ReplaceTilde(s[1..], c, with)
  }

  function Escape(s: string): string {
    ReplaceChar(ReplaceChar(s, '~', "~0"), '/', "~1")
  }

  function Unescape(s: string): string {
    ReplaceTilde(ReplaceTilde(s, '1', '/'), '0', '~')
  }

  lemma {:induction false} SlashesBack(s: string)
    ensures ReplaceTilde(Escape(s), '1', '/') == ReplaceChar(s, '~', "~0")
  {
    if s != "" {
      SlashesBack(s[1..]);
      var t := ReplaceChar(s[1..], '~', "~0");
      var e := Escape(s[1..]);
      if s[0] == '~' {
        TwoChars('~', '0', t);
        assert Escape(s) == ['~', '0'] + e;
        assert (['~', '0'] + e)[1..] == ['0'] + e && (['0'] + e)[1..] == e;
        StepTilde('0', e);
      } else if s[0] == '/' {
        assert ReplaceChar(s, '~', "~0") == ['/'] + t;
        assert (['/'] + t)[1..] == t;
        assert Escape(s) == ['~', '1'] + e && (['~', '1'] + e)[2..] == e;
      } else {
        assert ReplaceChar(s, '~', "~0") == [s[0]] + t && ([s[0]] + t)[1..] == t;
        assert Escape(s) == [s[0]] + e;
        StepTilde(s[0], e);
      }
    }
  }

  lemma TwoChars(a: char, b: char, t: string)
    requires a != '/' && b != '/'
    ensures ReplaceChar([a, b] + t, '/', "~1") == [a, b] + ReplaceChar(t, '/', "~1")
  {
    assert ([a, b] + t)[1..] == [b] + t && ([b] + t)[1..] == t;
    assert [a] + ([b] + ReplaceChar(t, '/', "~1")) == [a, b] + ReplaceChar(t, '/', "~1");
  }

  lemma StepTilde(c: char, rest: string)
    requires c != '~'
    ensures ReplaceTilde([c] + rest, '1', '/') == [c] + ReplaceTilde(rest, '1', '/')
    ensures ReplaceTilde([c] + rest, '0', '~') == [c] + ReplaceTilde(rest, '0', '~')
  {
    assert ([c] + rest)[1..] == rest;
    if rest == "" { assert [c] + rest == [c]; }
  }

  lemma {:induction false} TildesBack(s: string)
    ensures ReplaceTilde(ReplaceChar(s, '~', "~0"), '0', '~') == s
  {
    if s != "" {
      TildesBack(s[1..]);
      var t := ReplaceChar(s[1..], '~', "~0");
      if s[0] == '~' {
        assert ReplaceChar(s, '~', "~0") == ['~', '0'] + t && (['~', '0'] + t)[2..] == t;
      } else {
        StepTilde(s[0], t);
      }
      assert [s[0]] + s[1..] == s;
    }
  }

  /** Escaping loses nothing and leaves no separator. */
  lemma EscapeRoundTrip(s: string)
    ensures Unescape(Escape(s)) == s && '/' !in Escape(s)
  {
    SlashesBack(s);
    TildesBack(s);
    NoSlash(ReplaceChar(s, '~', "~0"));
  }

  lemma {:induction false} NoSlash(s: string)
    ensures '/' !in ReplaceChar(s, '/', "~1")
  {
    if s != "" { NoSlash(s[1..]); }
  }

  /** Text without a tilde is not touched by unescaping. */
  lemma PlainUnescape(s: string)
    requires '~' !in s
    ensures Unescape(s) == s
  {
    NoTilde(s, '1', '/');
    NoTilde(s, '0', '~');
  }

  lemma {:induction false} NoTilde(s: string, c: char, with: char)
    requires '~' !in s
    ensures ReplaceTilde(s, c, with) == s
  {
    if |s| >= 2 {
      assert s[0] in s;
      NoTilde(s[1..], c, with);
      assert [s[0]] + s[1..] == s;
    }
  }

  // ---------------------------------------------------------------- numbers

  function ParseNat(s: string): nat {
    if s == "" then 0
    else 10 * ParseNat(s[..|s| - 1]) + (if '0' <= s[|s| - 1] <= '9' then s[|s| - 1] as nat - '0' as nat else 0)
  }

  /** A step that names an array entry. */
  predicate IsIndex(s: string) {
    s != "" && forall c | c in s :: '0' <= c <= '9'
  }

  lemma {:induction false} ParseDecimal(n: nat)
    ensures ParseNat(Decimal(n)) == n && IsIndex(Decimal(n)) && '/' !in Decimal(n) && '~' !in Decimal(n)
    decreases n
  {
    DigitIs(n % 10);
    if n < 10 {
      assert Decimal(n)[..|Decimal(n)| - 1] == "";
    } else {
      ParseDecimal(n / 10);
      assert Decimal(n)[..|Decimal(n)| - 1] == Decimal(n / 10);
    }
  }

  lemma DigitIs(d: nat)
    requires d < 10
    ensures '0' <= Digit(d) <= '9' && Digit(d) as nat - '0' as nat == d
  {}

  // ---------------------------------------------------------------- paths

  function Join(parts: seq<string>): string {
    if parts == [] then "" else "/" + parts[0] + Join(parts[1..])
  }

  function SplitSlash(s: string): (parts: seq<string>)
    ensures parts != []
  {
    if s == "" then [""]
    else if s[0] == '/' then [""] + SplitSlash(s[1..])
    else
      var rest := SplitSlash(s[1..]);
      [[s[0]] + rest[0]] + rest[1..]
  }

  /** `path.removeprefix("/").split("/")`, nothing for the empty path. */
  function Split(path: string): seq<string> {
    if path == "" then [] else SplitSlash(if path[0] == '/' then path[1..] else path)
  }

  predicate Plain(parts: seq<string>) {
    forall p | p in parts :: '/' !in p
  }

  lemma {:induction false} SplitOne(p: string, rest: string)
    requires '/' !in p
    ensures SplitSlash(p) == [p]
    ensures SplitSlash(p + "/" + rest) == [p] + SplitSlash(rest)
  {
    var s := p + "/" + rest;
    if p == "" {
      assert s[0] == '/' && s[1..] == rest;
    } else {
      SplitOne(p[1..], rest);
      assert s[0] == p[0] && s[1..] == p[1..] + "/" + rest;
      assert [p[0]] + p[1..] == p;
      assert p[0] in p;
    }
  }

  lemma JoinStep(parts: seq<string>)
    requires parts != []
    ensures Join(parts) == "/" + Join(parts)[1..]
    ensures Join(parts)[1..] == if |parts| == 1 then parts[0] else parts[0] + "/" + Join(parts[1..])[1..]
  {
    var rest := parts[1..];
    JoinFirst(parts);
    if rest == [] {
      JoinNothing();
      hide *;
      assert parts[0] + "" == parts[0];
      Slash(parts[0] + Join(rest), Join(parts));
    } else {
      JoinFirst(rest);
      hide *;
      Slash(parts[0] + Join(rest), Join(parts));
      Slash(rest[0] + Join(rest[1..]), Join(rest));
      Regrouped(parts[0], Join(rest)[1..]);
    }
  }

  lemma JoinFirst(parts: seq<string>)
    requires parts != []
    ensures Join(parts) == "/" + (parts[0] + Join(parts[1..]))
  {
    assert "/" + parts[0] + Join(parts[1..]) == "/" + (parts[0] + Join(parts[1..]));
  }

  lemma JoinNothing()
    ensures Join([]) == ""
  {}

  lemma Slash(tail: string, whole: string)
    requires whole == "/" + tail
    ensures whole[1..] == tail
  {}

  lemma Regrouped(a: string, b: string)
    ensures a + ("/" + b) == a + "/" + b
  {}

  lemma {:induction false} SplitJoined(parts: seq<string>)
    requires Plain(parts) && parts != []
    ensures SplitSlash(Join(parts)[1..]) == parts
  {
    assert parts[0] in parts && Plain(parts[1..]);
    hide *;
    JoinStep(parts);
    if |parts| == 1 {
      SplitOne(parts[0], "");
      assert parts == [parts[0]];
    } else {
      SplitOne(parts[0], Join(parts[1..])[1..]);
      SplitJoined(parts[1..]);
      assert parts == [parts[0]] + parts[1..];
    }
  }

  /** Joined steps come apart again. */
  lemma SplitJoin(parts: seq<string>)
    requires Plain(parts)
    ensures Split(Join(parts)) == parts
  {
    if parts != [] {
      JoinStep(parts);
      hide SplitSlash, Join, Plain;
      SplitJoined(parts);
    }
  }

  // ---------------------------------------------------------------- walking and resolving

  datatype Visit = Visit(node: Doc, path: string)

  /** Every object of the document, with the path to it. */
  function Walk(d: Doc, path: string): seq<Visit>
    decreases d, 1
  {
    match d
    case Dict(members) => [Visit(d, path)] + WalkMembers(members, path)
    case List(items) => WalkItems(items, 0, path)
    case _ => []
  }

  function WalkMember(m: Pair, path: string): seq<Visit>
    decreases m, 2
  {
    Walk(m.value, path + "/" + Escape(m.key))
  }

  function WalkMembers(members: seq<Pair>, path: string): seq<Visit>
    decreases members, 0
  {
    if members == [] then [] else WalkMember(members[0], path) + WalkMembers(members[1..], path)
  }

  function WalkItems(items: seq<Doc>, i: nat, path: string): seq<Visit>
    decreases items, 0
  {
    if items == [] then [] else Walk(items[0], path + "/" + Decimal(i)) + WalkItems(items[1..], i + 1, path)
  }

  /** Follow the steps; a missing key or index leads nowhere. */
  function Resolve(d: Doc, parts: seq<string>): Option<Doc>
    decreases |parts|
  {
    if parts == [] then Some(d)
    else match d
      case Dict(members) =>
        (match Get(members, Unescape(parts[0])) case Some(v) => Resolve(v, parts[1..]) case None => None)
      case List(items) =>
        var part := Unescape(parts[0]);
        if IsIndex(part) && ParseNat(part) < |items| then Resolve(items[ParseNat(part)], parts[1..]) else None
      case _ => None
  }

  /** The visit's path is the walk's own, then steps that lead from here to its node. */
  ghost predicate LeadsTo(d: Doc, path: string, v: Visit, steps: seq<string>) {
    Plain(steps) && v.path == path + Join(steps) && Resolve(d, steps) == Some(v.node)
  }

  ghost predicate Led(d: Doc, path: string, v: Visit) {
    exists steps :: LeadsTo(d, path, v, steps)
  }

  lemma LedBy(d: Doc, child: Doc, path: string, step: string, v: Visit)
    requires Led(child, path + "/" + step, v) && '/' !in step
    requires forall steps: seq<string> :: Resolve(d, [step] + steps) == Resolve(child, steps)
    ensures Led(d, path, v)
  {
    var steps :| LeadsTo(child, path + "/" + step, v, steps);
    var more := [step] + steps;
    assert Join(more) == "/" + step + Join(steps) by { assert more[1..] == steps; }
    assert path + "/" + step + Join(steps) == path + ("/" + step + Join(steps));
    assert Resolve(d, more) == Resolve(child, steps);
    assert LeadsTo(d, path, v, more);
  }

  lemma {:induction false} WalkLeads(d: Doc, path: string)
    requires WellKeyed(d)
    ensures forall v | v in Walk(d, path) :: Led(d, path, v)
    decreases d, 1
  {
    match d
    case Dict(members) =>
      forall v | v in Walk(d, path) ensures Led(d, path, v) {
        if v == Visit(d, path) {
          assert path + Join([]) == path;
          assert LeadsTo(d, path, v, []);
        } else {
          WalkMembersFind(members, path, v);
          var i :| 0 <= i < |members| && v in WalkMember(members[i], path);
          MemberLeads(members[i], path);
          WellKeyedAt(members, i);
          GetAt(members, i);
          MemberStep(d, members, i);
          assert WalkMember(members[i], path) == Walk(members[i].value, path + "/" + Escape(members[i].key));
          EscapeRoundTrip(members[i].key);
          LedBy(d, members[i].value, path, Escape(members[i].key), v);
        }
      }
    case List(items) =>
      forall v | v in Walk(d, path) ensures Led(d, path, v) {
        WalkItemsFind(items, 0, path, v);
        var i :| 0 <= i < |items| && v in Walk(items[i], path + "/" + Decimal(i));
        WellKeyedItem(items, i);
        WalkLeads(items[i], path + "/" + Decimal(i));
        ParseDecimal(i);
        ItemStep(d, items, i);
        LedBy(d, items[i], path, Decimal(i), v);
      }
    case _ =>
  }

  lemma {:induction false} MemberLeads(m: Pair, path: string)
    ensures WellKeyed(m.value) ==> forall v | v in WalkMember(m, path) :: Led(m.value, path + "/" + Escape(m.key), v)
    decreases m, 2
  {
    if WellKeyed(m.value) { WalkLeads(m.value, path + "/" + Escape(m.key)); }
  }

  lemma MemberStep(d: Doc, members: seq<Pair>, i: nat)
    requires d == Dict(members) && i < |members| && Get(members, members[i].key) == Some(members[i].value)
    ensures forall steps: seq<string> :: Resolve(d, [Escape(members[i].key)] + steps) == Resolve(members[i].value, steps)
  {
    EscapeRoundTrip(members[i].key);
    forall steps: seq<string> ensures Resolve(d, [Escape(members[i].key)] + steps) == Resolve(members[i].value, steps) {
      assert ([Escape(members[i].key)] + steps)[1..] == steps;
    }
  }

  lemma ItemStep(d: Doc, items: seq<Doc>, i: nat)
    requires d == List(items) && i < |items|
    ensures forall steps: seq<string> :: Resolve(d, [Decimal(i)] + steps) == Resolve(items[i], steps)
  {
    ParseDecimal(i);
    PlainUnescape(Decimal(i));
    forall steps: seq<string> ensures Resolve(d, [Decimal(i)] + steps) == Resolve(items[i], steps) {
      assert ([Decimal(i)] + steps)[1..] == steps;
    }
  }

  lemma {:induction false} WalkMembersFind(members: seq<Pair>, path: string, v: Visit)
    requires v in WalkMembers(members, path)
    ensures exists i :: 0 <= i < |members| && v in WalkMember(members[i], path)
  {
    hide WalkMember;
    if v !in WalkMember(members[0], path) {
      WalkMembersFind(members[1..], path, v);
      var i :| 0 <= i < |members[1..]| && v in WalkMember(members[1..][i], path);
      assert members[i + 1] == members[1..][i];
    }
  }

  lemma {:induction false} WalkItemsFind(items: seq<Doc>, start: nat, path: string, v: Visit)
    requires v in WalkItems(items, start, path)
    ensures exists i :: 0 <= i < |items| && v in Walk(items[i], path + "/" + Decimal(start + i))
  {
    hide Walk;
    if v in Walk(items[0], path + "/" + Decimal(start)) {
      assert v in Walk(items[0], path + "/" + Decimal(start + 0));
    } else {
      WalkItemsFind(items[1..], start + 1, path, v);
      var i :| 0 <= i < |items[1..]| && v in Walk(items[1..][i], path + "/" + Decimal(start + 1 + i));
      assert items[i + 1] == items[1..][i];
    }
  }

  /** Following any path the walk hands out reaches the object it was handed out with. */
  lemma WalkedPathsResolve(d: Doc)
    requires WellKeyed(d)
    ensures forall v | v in Walk(d, "") :: Resolve(d, Split(v.path)) == Some(v.node)
  {
    WalkLeads(d, "");
    forall v | v in Walk(d, "") ensures Resolve(d, Split(v.path)) == Some(v.node) {
      var steps :| LeadsTo(d, "", v, steps);
      assert "" + Join(steps) == Join(steps);
      SplitJoin(steps);
    }
  }
}
