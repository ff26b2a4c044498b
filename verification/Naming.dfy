/** Text embedded in generated diagnostics, and names made usable as identifiers. */
module Naming {
  import opened Values
  import opened Decimals
  import opened Suffixes

  // ---------------------------------------------------------------- string literals

  /** Which characters a debug rendering shows as they are. */
  type Printable = char -> bool

  function HexDigit(n: nat): char
    requires n < 16
  {
    if n < 10 then (n + '0' as int) as char else (n - 10 + 'a' as int) as char
  }

  function Hex(n: nat): string {
    if n < 16 then [HexDigit(n)] else Hex(n / 16) + [HexDigit(n % 16)]
  }

  function EscapeChar(c: char, show: Printable): string {
    if c == '\0' then "\\0"
    else if c == '\t' then "\\t"
    else if c == '\r' then "\\r"
    else if c == '\n' then "\\n"
    else if c == '\\' then "\\\\"
    else if c == '"' then "\\\""
    else if show(c) then [c]
    else "\\u{" + Hex(c as nat) + "}"
  }

  /** The inside of a Rust string literal. */
  function LitInner(s: string, show: Printable): string {
    if s == "" then "" else EscapeChar(s[0], show) + LitInner(s[1..], show)
  }

  /** Nothing is escaped that need not be. */
  lemma {:induction false} PlainStays(s: string, show: Printable)
    requires forall c | c in s :: show(c) && c != '\\' && c != '"' && c != '\0' && c != '\t' && c != '\r' && c != '\n'
    ensures LitInner(s, show) == s
  {
    if s != "" {
      assert s[0] in s && forall c | c in s[1..] :: c in s;
      PlainStays(s[1..], show);
      assert s == [s[0]] + s[1..];
    }
  }

  function DoubleChar(c: char): string {
    if c == '{' then "{{" else if c == '}' then "}}" else [c]
  }

  function DoubleBraces(s: string): string {
    if s == "" then "" else DoubleChar(s[0]) + DoubleBraces(s[1..])
  }

  /** For text inside a format string: braces doubled first, then escaped. */
  function FmtLitInner(s: string, show: Printable): string {
    LitInner(DoubleBraces(s), show)
  }

  // ---------------------------------------------------------------- reading it back

  function HexValue(c: char): Option<nat> {
    if '0' <= c <= '9' then Some(c as nat - '0' as nat)
    else if 'a' <= c <= 'f' then Some(c as nat - 'a' as nat + 10)
    else None
  }

  /** Hex digits up to a closing brace, as a number, and how many characters that takes. */
  function ReadHex(s: string, value: nat): Option<(nat, nat)> {
    if s == "" then None
    else if s[0] == '}' then Some((value, 1))
    else match HexValue(s[0])
      case None => None
      case Some(d) => match ReadHex(s[1..], 16 * value + d) case Some((v, n)) => Some((v, n + 1)) case None => None
  }

  predicate IsScalar(n: nat) {
    n < 0xD800 || 0xE000 <= n < 0x11_0000
  }

  function Prepend(c: char, rest: Option<string>): Option<string> {
    match rest case Some(more) => Some([c] + more) case None => None
  }

  /** What the Rust lexer makes of a literal's inside. */
  function Unescape(s: string): Option<string>
    decreases |s|
  {
    if s == "" then Some("")
    else if s[0] == '"' then None
    else if s[0] != '\\' then Prepend(s[0], Unescape(s[1..]))
    else if |s| < 2 then None
    else if s[1] == '0' then Prepend('\0', Unescape(s[2..]))
    else if s[1] == 't' then Prepend('\t', Unescape(s[2..]))
    else if s[1] == 'r' then Prepend('\r', Unescape(s[2..]))
    else if s[1] == 'n' then Prepend('\n', Unescape(s[2..]))
    else if s[1] == '\\' then Prepend('\\', Unescape(s[2..]))
    else if s[1] == '"' then Prepend('"', Unescape(s[2..]))
    else if s[1] == 'u' && |s| > 3 && s[2] == '{' && s[3] != '}' then
      match ReadHex(s[3..], 0)
      case None => None
      case Some((v, n)) => if IsScalar(v) && n <= |s| - 3 then Prepend(v as char, Unescape(s[3 + n..])) else None
    else None
  }

  /** What a format string prints, and how many arguments it asks for. */
  function Format(s: string): Option<(string, nat)>
    decreases |s|
  {
    if s == "" then Some(("", 0))
    else if s[0] == '{' then
      if |s| > 1 && s[1] == '{' then Printed('{', Format(s[2..]))
      else match Close(s[1..])
        case None => None
        case Some(n) => match Format(s[1 + n..]) case Some((text, args)) => Some((text, args + 1)) case None => None
    else if s[0] == '}' then
      if |s| > 1 && s[1] == '}' then Printed('}', Format(s[2..])) else None
    else Printed(s[0], Format(s[1..]))
  }

  function Printed(c: char, rest: Option<(string, nat)>): Option<(string, nat)> {
    match rest case Some((text, args)) => Some(([c] + text, args)) case None => None
  }

  /** End of a placeholder. */
  function Close(s: string): (n: Option<nat>)
    ensures n.Some? ==> 0 < n.value <= |s|
  {
    if s == "" then None
    else if s[0] == '}' then Some(1)
    else match Close(s[1..]) case Some(n) => Some(n + 1) case None => None
  }

  // ---------------------------------------------------------------- round trips

  lemma HexDigitBack(n: nat)
    requires n < 16
    ensures HexValue(HexDigit(n)) == Some(n) && HexDigit(n) != '}'
  {}

  function Later(read: Option<(nat, nat)>, k: nat): Option<(nat, nat)> {
    match read case Some((v, n)) => Some((v, n + k)) case None => None
  }

  lemma {:induction false} ReadHexBack(n: nat, tail: string)
    ensures ReadHex(Hex(n) + tail, 0) == Later(ReadHex(tail, n), |Hex(n)|)
    decreases n
  {
    HexDigitBack(n % 16);
    if n < 16 {
      var s := Hex(n) + tail;
      assert s[0] == HexDigit(n) && s[1..] == tail;
    } else {
      var d := HexDigit(n % 16);
      ReadHexBack(n / 16, [d] + tail);
      assert Hex(n) + tail == Hex(n / 16) + ([d] + tail);
      assert ([d] + tail)[0] == d && ([d] + tail)[1..] == tail;
      assert ReadHex([d] + tail, n / 16) == Later(ReadHex(tail, n), 1);
    }
  }

  lemma {:induction false} HexNotEmpty(n: nat)
    ensures Hex(n) != "" && '}' !in Hex(n)
    decreases n
  {
    HexDigitBack(n % 16);
    if n >= 16 { HexNotEmpty(n / 16); }
  }

  lemma CharIsScalar(c: char)
    ensures IsScalar(c as nat) && (c as nat) as char == c
  {}

  /** One escaped character is read back, whatever follows. */
  lemma UnescapeChar(c: char, rest: string, show: Printable)
    ensures Unescape(EscapeChar(c, show) + rest) == Prepend(c, Unescape(rest))
  {
    var e := EscapeChar(c, show);
    var s := e + rest;
    if c == '\0' || c == '\t' || c == '\r' || c == '\n' || c == '\\' || c == '"' {
      assert s[0] == e[0] && s[1] == e[1] && s[2..] == rest;
    } else if show(c) {
      assert s[0] == c && s[1..] == rest;
    } else {
      UnescapeHex(c, rest);
      assert e + rest == "\\u{" + Hex(c as nat) + "}" + rest;
    }
  }

  lemma UnescapeHex(c: char, rest: string)
    ensures Unescape("\\u{" + Hex(c as nat) + "}" + rest) == Prepend(c, Unescape(rest))
  {
    var h := Hex(c as nat);
    var s := "\\u{" + h + "}" + rest;
    HexNotEmpty(c as nat);
    ReadHexBack(c as nat, "}" + rest);
    CharIsScalar(c);
    assert s[0] == '\\' && s[1] == 'u' && s[2] == '{' && s[3] == h[0] && h[0] in h;
    assert s[3..] == h + ("}" + rest);
    assert ("}" + rest)[0] == '}';
    assert ReadHex(s[3..], 0) == Some((c as nat, |h| + 1));
    assert s[3 + (|h| + 1)..] == rest;
  }

  /** The lexer undoes the escapes, for every text. */
  lemma {:induction false} LitRoundTrip(s: string, show: Printable)
    ensures Unescape(LitInner(s, show)) == Some(s)
  {
    if s != "" {
      LitRoundTrip(s[1..], show);
      hide EscapeChar, Unescape;
      UnescapeChar(s[0], LitInner(s[1..], show), show);
      assert [s[0]] + s[1..] == s;
    }
  }

  lemma {:induction false} FormatRoundTrip(s: string)
    ensures Format(DoubleBraces(s)) == Some((s, 0))
  {
    if s != "" {
      FormatRoundTrip(s[1..]);
      var rest := DoubleBraces(s[1..]);
      var t := DoubleBraces(s);
      if s[0] == '{' || s[0] == '}' {
        assert t[0] == s[0] && t[1] == s[0] && t[2..] == rest;
      } else {
        assert t[0] == s[0] && t[1..] == rest;
      }
      assert [s[0]] + s[1..] == s;
    }
  }

  /** An embedded text comes out of the compiled message as it went in, and asks for no
      argument of its own. */
  lemma FmtRoundTrip(s: string, show: Printable)
    ensures Unescape(FmtLitInner(s, show)).Some? && Format(Unescape(FmtLitInner(s, show)).value) == Some((s, 0))
  {
    LitRoundTrip(DoubleBraces(s), show);
    FormatRoundTrip(s);
  }

  /** Escaping first and doubling afterwards breaks the first character that needs a
      numeric escape: its braces are doubled too and the literal no longer lexes. */
  lemma OtherOrderBreaks(c: char, show: Printable)
    requires !show(c) && c != '\0' && c != '\t' && c != '\r' && c != '\n' && c != '\\' && c != '"'
    ensures Unescape(DoubleBraces(LitInner([c], show))) == None
  {
    assert [c][1..] == "" && LitInner([c][1..], show) == "";
    var e := EscapeChar(c, show);
    assert LitInner([c], show) == e + "" && e + "" == e;
    var h := Hex(c as nat);
    assert e[0] == '\\' && e[1] == 'u' && e[2] == '{';
    var t := DoubleBraces(e);
    assert t == ['\\'] + DoubleBraces(e[1..]) && DoubleBraces(e[1..]) == ['u'] + DoubleBraces(e[1..][1..]);
    assert e[1..][1..][0] == '{';
    assert DoubleBraces(e[1..][1..]) == "{{" + DoubleBraces(e[1..][1..][1..]);
    assert t[0] == '\\' && t[1] == 'u' && t[2] == '{' && t[3] == '{';
    assert t[3..][0] == '{' && HexValue('{') == None;
  }

  // ---------------------------------------------------------------- identifiers

  /** Keywords that cannot be raw identifiers. */
  predicate IsRawIneligible(s: string) {
    s == "self" || s == "Self" || s == "crate" || s == "super"
  }

  predicate IsKeyword(s: string) {
    IsRawIneligible(s) ||
    s == "as" || s == "break" || s == "const" || s == "continue" || s == "else" || s == "enum" ||
    s == "extern" || s == "false" || s == "fn" || s == "for" || s == "if" || s == "impl" ||
    s == "in" || s == "let" || s == "loop" || s == "match" || s == "mod" || s == "move" ||
    s == "mut" || s == "pub" || s == "ref" || s == "return" || s == "static" || s == "struct" ||
    s == "trait" || s == "true" || s == "type" || s == "unsafe" || s == "use" || s == "where" ||
    s == "while" || s == "async" || s == "await" || s == "dyn" || s == "abstract" || s == "become" ||
    s == "box" || s == "do" || s == "final" || s == "macro" || s == "override" || s == "priv" ||
    s == "typeof" || s == "unsized" || s == "virtual" || s == "yield"
  }

  predicate IsDigit(c: char) {
    '0' <= c <= '9'
  }

  predicate Usable(s: string) {
    s != "" && !IsDigit(s[0]) && !IsKeyword(s)
  }

  function EnsureIdent(s: string): string {
    var base := if s == "" then "_" else if IsDigit(s[0]) then "_" + s else s;
    if IsRawIneligible(base) then base + "_"
    else if IsKeyword(base) then "r#" + base
    else base
  }

  /** A keyword starts with a letter and has neither underscore at its end nor a hash. */
  lemma KeywordShape(k: string)
    requires IsKeyword(k)
    ensures k != "" && k[0] != '_' && !IsDigit(k[0]) && k[|k| - 1] != '_' && !IsDigit(k[|k| - 1]) && (|k| > 1 ==> k[1] != '#')
  {}

  /** The result is usable, and a usable name is left alone: doing it twice is doing it once. */
  lemma EnsureIdentSpec(s: string)
    ensures Usable(EnsureIdent(s)) && EnsureIdent(EnsureIdent(s)) == EnsureIdent(s)
    ensures Usable(s) ==> EnsureIdent(s) == s
  {
    var base := if s == "" then "_" else if IsDigit(s[0]) then "_" + s else s;
    var r := EnsureIdent(s);
    RawAreKeywords(base);
    RawAreKeywords(r);
    hide IsKeyword, IsRawIneligible;
    if IsKeyword(base) { KeywordShape(base); }
    if IsKeyword(r) { KeywordShape(r); }
  }

  /** The name Rust itself takes an identifier for: a raw one stands for what follows. */
  function RustName(ident: string): string {
    if "r#" <= ident then ident[2..] else ident
  }

  /** What a text becomes: to Rust it keeps its spelling, keywords included, except that the
      four words no raw identifier can spell get an underscore behind them and a text that
      starts no identifier gets one before it; and only keywords are made raw. */
  lemma EnsureIdentMeans(s: string)
    ensures RustName(EnsureIdent(s)) ==
      if s == "" || IsDigit(s[0]) then "_" + s
      else if s in {"self", "Self", "crate", "super"} then s + "_"
      else RustName(s)
    ensures "r#" <= EnsureIdent(s) <==> "r#" <= s || (IsKeyword(s) && s !in {"self", "Self", "crate", "super"})
  {
    RawAreKeywords(s);
    var base := if s == "" then "_" else if IsDigit(s[0]) then "_" + s else s;
    if IsKeyword(base) { KeywordShape(base); }
    if IsKeyword(s) { KeywordShape(s); }
    RawWords(base);
    RawWords(s);
    hide IsKeyword, IsRawIneligible;
    assert ("r#" + base)[2..] == base;
    assert ("_" + s)[0] == '_';
    var suffixed := s + "_";
    assert "r#" <= suffixed ==> suffixed[1] == '#';
    assert "r#" <= s ==> s[1] == '#';
  }

  lemma RawWords(s: string)
    ensures IsRawIneligible(s) <==> s in {"self", "Self", "crate", "super"}
  {}

  lemma RawAreKeywords(s: string)
    ensures IsRawIneligible(s) ==> IsKeyword(s)
  {}

  /** The name is the first variant not used. */
  ghost predicate FirstFree(first: string, used: set<string>, name: string) {
    exists n: nat :: n >= 1 && name == Numbered(first, "_", n) && forall m | 1 <= m < n :: Numbered(first, "_", m) in used
  }

  /** A name not used before: the base made usable, or its first free numbered variant.
      Every variant passed over was taken, and only finitely many can be. */
  method UniqueIdent(base: string, used: set<string>, fallback: string) returns (name: string, all: set<string>)
    ensures name !in used && all == used + {name} && Usable(name)
    ensures FirstFree(EnsureIdent(if base == "" then fallback else base), used, name)
  {
    hide *;
    var first := EnsureIdent(if base == "" then fallback else base);
    EnsureIdentSpec(if base == "" then fallback else base);
    name := first;
    NumberedSpec(first, 1);
    ghost var tries := 1;
    if name in used {
      var n := 2;
      while first + "_" + Decimal(n) in used
        invariant n >= 2 && forall m | 1 <= m < n :: Numbered(first, "_", m) in used
        decreases |used| + 2 - n
      {
        TakenBound(first, "_", n, used);
        NumberedSpec(first, n);
        n := n + 1;
      }
      NumberedSpec(first, n);
      name := first + "_" + Decimal(n);
      tries := n;
    }
    IsFirstFree(first, used, tries);
    all := used + {name};
  }

  lemma IsFirstFree(first: string, used: set<string>, n: nat)
    requires n >= 1 && forall m | 1 <= m < n :: Numbered(first, "_", m) in used
    ensures FirstFree(first, used, Numbered(first, "_", n))
  {
    hide Numbered;
  }

  lemma NumberedSpec(name: string, n: nat)
    ensures n < 2 ==> Numbered(name, "_", n) == name
    ensures n >= 2 ==> Numbered(name, "_", n) == name + "_" + Decimal(n)
    ensures n >= 2 && Usable(name) ==> Usable(name + "_" + Decimal(n))
  {
    var longer := name + "_" + Decimal(n);
    DecimalNotEmpty(n);
    LastDigit(n);
    assert longer[|longer| - 1] == Decimal(n)[|Decimal(n)| - 1];
    assert name != "" ==> longer[0] == name[0];
    hide IsKeyword;
    if IsKeyword(longer) { KeywordShape(longer); }
  }

  lemma LastDigit(n: nat)
    ensures Decimal(n) != "" && IsDigit(Decimal(n)[|Decimal(n)| - 1])
  {}
}
