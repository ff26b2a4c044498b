/** Removal of the space between tokens, and what it cannot change. */
module Spacing {
  import opened Values

  /** Which characters continue a name or number, and which are white space. */
  datatype Classes = Classes(word: char -> bool, space: char -> bool)

  predicate IsQuote(c: char) {
    c == '\'' || c == '"'
  }

  ghost predicate Proper(k: Classes) {
    k.space(' ') && forall c :: !(k.word(c) && k.space(c)) && (IsQuote(c) ==> !k.word(c) && !k.space(c))
  }

  // ---------------------------------------------------------------- the stripping loop

  predicate EndsWithWord(s: string, k: Classes) {
    s != "" && k.word(s[|s| - 1])
  }

  predicate EndsWithSpace(s: string) {
    s != "" && s[|s| - 1] == ' '
  }

  /** Output and quoting state after one more character. */
  datatype State = State(out: string, quoted: Option<char>, escaped: bool)

  function Step(st: State, c: char, k: Classes): State {
    match st.quoted
    case Some(q) =>
      State(st.out + [c], if !st.escaped && c != '\\' && c == q then None else Some(q), !st.escaped && c == '\\')
    case None =>
      if IsQuote(c) then State(st.out + [c], Some(c), st.escaped)
      else if k.space(c) then State(if EndsWithWord(st.out, k) then st.out + " " else st.out, None, st.escaped)
      else
        var kept := if EndsWithSpace(st.out) && !k.word(c) then st.out[..|st.out| - 1] else st.out;
        State(kept + [c], None, st.escaped)
  }

  function Run(st: State, text: string, k: Classes): State
    decreases |text|
  {
    if text == "" then st else Run(Step(st, text[0], k), text[1..], k)
  }

  function Strip(text: string, k: Classes): string {
    Run(State("", None, false), text, k).out
  }

  /** The loop as it is written. */
  method StripSpaces(text: string, k: Classes) returns (out: string)
    ensures out == Strip(text, k)
  {
    out := "";
    var quoted: Option<char>, escaped := None, false;
    for i := 0 to |text|
      invariant Run(State("", None, false), text, k) == Run(State(out, quoted, escaped), text[i..], k)
    {
      var ch := text[i];
      assert text[i..][0] == ch && text[i..][1..] == text[i + 1..];
      if quoted.Some? {
        out := out + [ch];
        if escaped {
          escaped := false;
        } else if ch == '\\' {
          escaped := true;
        } else if ch == quoted.value {
          quoted := None;
        }
      } else if IsQuote(ch) {
        quoted := Some(ch);
        out := out + [ch];
      } else if k.space(ch) {
        if EndsWithWord(out, k) { out := out + " "; }
      } else {
        if EndsWithSpace(out) && !k.word(ch) { out := out[..|out| - 1]; }
        out := out + [ch];
      }
    }
  }

  // ---------------------------------------------------------------- lexemes

  /** A run of word characters, a quoted literal with its quotes, or one other character.
      `gap` marks a word with space behind it and then a literal or nothing. */
  datatype Lexeme = Word(run: string, gap: bool) | Quoted(literal: string) | Mark(c: char)

  function RunLength(text: string, k: Classes): (n: nat)
    ensures n <= |text| && (forall i | 0 <= i < n :: k.word(text[i])) && (n < |text| ==> !k.word(text[n]))
  {
    if text == "" || !k.word(text[0]) then 0 else 1 + RunLength(text[1..], k)
  }

  /** Length up to and including the closing quote, or to the end. */
  function LiteralLength(text: string, q: char, escaped: bool): (n: nat)
    ensures n <= |text|
  {
    if text == "" then 0
    else if escaped then 1 + LiteralLength(text[1..], q, false)
    else if text[0] == '\\' then 1 + LiteralLength(text[1..], q, true)
    else if text[0] == q then 1
    else 1 + LiteralLength(text[1..], q, false)
  }

  /** The closing quote is there. */
  predicate Closes(text: string, q: char, escaped: bool) {
    text != "" &&
    if escaped then Closes(text[1..], q, false)
    else if text[0] == '\\' then Closes(text[1..], q, true)
    else text[0] == q || Closes(text[1..], q, false)
  }

  /** Only space, then a literal or the end. */
  predicate GapAhead(text: string, k: Classes) {
    text == "" || IsQuote(text[0]) || (k.space(text[0]) && GapAhead(text[1..], k))
  }

  function Lex(text: string, k: Classes): seq<Lexeme>
    decreases |text|
  {
    if text == "" then []
    else if IsQuote(text[0]) then
      var n := 1 + LiteralLength(text[1..], text[0], false);
      [Quoted(text[..n])] + Lex(text[n..], k)
    else if k.space(text[0]) then Lex(text[1..], k)
    else if k.word(text[0]) then
      var n := RunLength(text, k);
      assert n > 0;
      [Word(text[..n], n < |text| && k.space(text[n]) && GapAhead(text[n..], k))] + Lex(text[n..], k)
    else [Mark(text[0])] + Lex(text[1..], k)
  }

  predicate StartsWithWord(ls: seq<Lexeme>) {
    ls != [] && ls[0].Word?
  }

  function Render(ls: seq<Lexeme>): string {
    if ls == [] then ""
    else match ls[0]
      case Word(run, gap) => run + (if gap || StartsWithWord(ls[1..]) then " " else "") + Render(ls[1..])
      case Quoted(literal) => literal + Render(ls[1..])
      case Mark(c) => [c] + Render(ls[1..])
  }

  // ---------------------------------------------------------------- stripping is rendering the lexemes

  /** Pending output once it is known what comes next: a space after a word stays only
      in front of a word, a literal or the end. */
  function Settled(out: string, text: string, k: Classes): string {
    var marked := Lex(text, k) != [] && Lex(text, k)[0].Mark?;
    if EndsWithSpace(out) then (if marked then out[..|out| - 1] else out)
    else if EndsWithWord(out, k) && text != "" && k.space(text[0]) && !marked then out + " "
    else out
  }

  lemma {:induction false} RunWord(out: string, text: string, n: nat, k: Classes)
    requires Proper(k) && n <= |text| && forall i | 0 <= i < n :: k.word(text[i])
    ensures Run(State(out, None, false), text, k) == Run(State(out + text[..n], None, false), text[n..], k)
    decreases n
  {
    if n == 0 {
      assert out + text[..0] == out && text[0..] == text;
    } else {
      assert Step(State(out, None, false), text[0], k) == State(out + [text[0]], None, false);
      RunWord(out + [text[0]], text[1..], n - 1, k);
      assert out + [text[0]] + text[1..][..n - 1] == out + text[..n];
      assert text[1..][n - 1..] == text[n..];
    }
  }

  lemma {:induction false} RunLiteral(out: string, text: string, q: char, escaped: bool, k: Classes)
    requires IsQuote(q) && q != '\\'
    ensures var n := LiteralLength(text, q, escaped);
      if Closes(text, q, escaped)
      then n > 0 && text[n - 1] == q && Run(State(out, Some(q), escaped), text, k) == Run(State(out + text[..n], None, false), text[n..], k)
      else n == |text| && Run(State(out, Some(q), escaped), text, k).out == out + text
    decreases |text|
  {
    hide *;
    LiteralStep(text, q, escaped);
    RunStep(State(out, Some(q), escaped), text, k);
    if text == "" {
      assert out + text == out;
    } else {
      var c, rest := text[0], text[1..];
      QuotedStep(out, q, escaped, c, k);
      var n := LiteralLength(text, q, escaped);
      assert out + [c] + rest == out + text;
      if !escaped && c != '\\' && c == q {
        assert text[..1] == [c] && text[1..] == rest;
      } else {
        RunLiteral(out + [c], rest, q, !escaped && c == '\\', k);
        assert out + [c] + rest[..n - 1] == out + text[..n] && rest[n - 1..] == text[n..];
        assert n > 1 ==> text[n - 1] == rest[n - 2];
      }
    }
  }

  lemma RunStep(st: State, text: string, k: Classes)
    ensures Run(st, text, k) == if text == "" then st else Run(Step(st, text[0], k), text[1..], k)
  {
    hide Step;
  }

  lemma QuotedStep(out: string, q: char, escaped: bool, c: char, k: Classes)
    ensures Step(State(out, Some(q), escaped), c, k) ==
            State(out + [c], if !escaped && c != '\\' && c == q then None else Some(q), !escaped && c == '\\')
  {}

  lemma LiteralStep(text: string, q: char, escaped: bool)
    ensures text == "" ==> LiteralLength(text, q, escaped) == 0 && !Closes(text, q, escaped)
    ensures text != "" ==>
      if !escaped && text[0] != '\\' && text[0] == q then LiteralLength(text, q, escaped) == 1 && Closes(text, q, escaped)
      else
        var still := !escaped && text[0] == '\\';
        LiteralLength(text, q, escaped) == 1 + LiteralLength(text[1..], q, still) &&
        Closes(text, q, escaped) == Closes(text[1..], q, still) && LiteralLength(text[1..], q, still) <= |text| - 1
  {}

  lemma LexSpace(text: string, k: Classes)
    requires Proper(k) && text != "" && k.space(text[0])
    ensures Lex(text, k) == Lex(text[1..], k)
  {}

  /** The loop's output is what was pending, then the lexemes of the rest. */
  lemma {:induction false} RunIsRender(out: string, text: string, k: Classes)
    requires Proper(k) && (EndsWithWord(out, k) && text != "" ==> !k.word(text[0]))
    ensures Run(State(out, None, false), text, k).out == Settled(out, text, k) + Render(Lex(text, k))
    decreases |text|
  {
    if text == "" {
      assert out + "" == out;
    } else if IsQuote(text[0]) {
      RenderLiteral(out, text, k);
    } else if k.space(text[0]) {
      RenderSpace(out, text, k);
    } else if k.word(text[0]) {
      RenderWord(out, text, k);
    } else {
      RenderMark(out, text, k);
    }
  }

  lemma {:induction false} RenderSpace(out: string, text: string, k: Classes)
    requires Proper(k) && text != "" && k.space(text[0])
    ensures Run(State(out, None, false), text, k).out == Settled(out, text, k) + Render(Lex(text, k))
    decreases |text|, 0
  {
    LexSpace(text, k);
    var more := if EndsWithWord(out, k) then out + " " else out;
    assert Step(State(out, None, false), text[0], k) == State(more, None, false);
    assert EndsWithWord(out, k) ==> EndsWithSpace(more) && more[..|more| - 1] == out && !EndsWithSpace(out);
    assert !EndsWithWord(more, k);
    RunIsRender(more, text[1..], k);
    hide Lex, Render, Run, EndsWithWord, EndsWithSpace;
    assert Settled(more, text[1..], k) == Settled(out, text, k) by { hide *; SettledSpace(out, more, text, k); }
  }

  lemma SettledSpace(out: string, more: string, text: string, k: Classes)
    requires Proper(k) && text != "" && k.space(text[0]) && more == if EndsWithWord(out, k) then out + " " else out
    ensures Settled(more, text[1..], k) == Settled(out, text, k)
  {
    LexSpace(text, k);
    assert EndsWithWord(out, k) ==> EndsWithSpace(more) && more[..|more| - 1] == out && !EndsWithSpace(out);
    hide Lex;
  }

  lemma {:induction false} RenderMark(out: string, text: string, k: Classes)
    requires Proper(k) && text != "" && !IsQuote(text[0]) && !k.space(text[0]) && !k.word(text[0])
    ensures Run(State(out, None, false), text, k).out == Settled(out, text, k) + Render(Lex(text, k))
    decreases |text|, 0
  {
    var c := text[0];
    var kept := if EndsWithSpace(out) then out[..|out| - 1] else out;
    LexMark(out, text, k);
    SettledMark(kept, c, text[1..], k);
    hide *;
    RunStep(State(out, None, false), text, k);
    RunIsRender(kept + [c], text[1..], k);
    assert kept + [c] + Render(Lex(text[1..], k)) == kept + ([c] + Render(Lex(text[1..], k)));
  }

  lemma LexMark(out: string, text: string, k: Classes)
    requires Proper(k) && text != "" && !IsQuote(text[0]) && !k.space(text[0]) && !k.word(text[0])
    ensures var kept := if EndsWithSpace(out) then out[..|out| - 1] else out;
      Lex(text, k) == [Mark(text[0])] + Lex(text[1..], k) && Render(Lex(text, k)) == [text[0]] + Render(Lex(text[1..], k)) &&
      Settled(out, text, k) == kept && Step(State(out, None, false), text[0], k) == State(kept + [text[0]], None, false)
  {
    assert Lex(text, k)[1..] == Lex(text[1..], k);
  }

  lemma SettledMark(kept: string, c: char, rest: string, k: Classes)
    requires Proper(k) && !k.space(c) && !k.word(c)
    ensures Settled(kept + [c], rest, k) == kept + [c] && !EndsWithWord(kept + [c], k)
  {
    assert c != ' ';
    hide Lex;
  }

  /** Running through a whole literal. */
  lemma RunQuoted(out: string, text: string, k: Classes)
    requires text != "" && IsQuote(text[0])
    ensures var m := LiteralLength(text[1..], text[0], false);
      var literal, after := text[..m + 1], text[m + 1..];
      if Closes(text[1..], text[0], false)
      then literal[m] == text[0] && Run(State(out, None, false), text, k) == Run(State(out + literal, None, false), after, k)
      else after == "" && literal == text && Run(State(out, None, false), text, k).out == out + text
  {
    hide *;
    var q, rest := text[0], text[1..];
    var m := LiteralLength(rest, q, false);
    OpenStep(out, q, k);
    RunStep(State(out, None, false), text, k);
    RunLiteral(out + [q], rest, q, false, k);
    assert text[..m + 1] == [q] + rest[..m] && text[m + 1..] == rest[m..];
    assert out + [q] + rest[..m] == out + text[..m + 1];
    assert out + [q] + rest == out + text;
  }

  lemma {:induction false} RenderLiteral(out: string, text: string, k: Classes)
    requires Proper(k) && text != "" && IsQuote(text[0])
    ensures Run(State(out, None, false), text, k).out == Settled(out, text, k) + Render(Lex(text, k))
    decreases |text|, 0
  {
    hide *;
    LexLiteral(out, text, k);
    RunQuoted(out, text, k);
    var m := LiteralLength(text[1..], text[0], false);
    var literal, after := text[..m + 1], text[m + 1..];
    if Closes(text[1..], text[0], false) {
      LastIs(out, literal, text[0]);
      SettledLiteral(out + literal, after, k);
      RunIsRender(out + literal, after, k);
      assert out + literal + Render(Lex(after, k)) == out + (literal + Render(Lex(after, k)));
    } else {
      RenderNothing(k);
      assert literal + "" == literal;
    }
  }

  lemma OpenStep(out: string, q: char, k: Classes)
    requires IsQuote(q)
    ensures Step(State(out, None, false), q, k) == State(out + [q], Some(q), false) && q != '\\'
  {}

  lemma RenderNothing(k: Classes)
    ensures Render(Lex("", k)) == ""
  {}

  lemma LastIs(out: string, literal: string, q: char)
    requires literal != "" && literal[|literal| - 1] == q
    ensures out + literal != "" && (out + literal)[|out + literal| - 1] == q
  {}

  lemma SettledLiteral(out: string, after: string, k: Classes)
    requires Proper(k) && out != "" && IsQuote(out[|out| - 1])
    ensures Settled(out, after, k) == out && !EndsWithWord(out, k)
  {
    hide Lex;
  }

  lemma LexLiteral(out: string, text: string, k: Classes)
    requires Proper(k) && text != "" && IsQuote(text[0])
    ensures var m := LiteralLength(text[1..], text[0], false);
      Lex(text, k) == [Quoted(text[..m + 1])] + Lex(text[m + 1..], k) &&
      Render(Lex(text, k)) == text[..m + 1] + Render(Lex(text[m + 1..], k))
    ensures Settled(out, text, k) == out
  {
    var m := LiteralLength(text[1..], text[0], false);
    assert Lex(text, k)[1..] == Lex(text[m + 1..], k);
  }

  lemma {:induction false} RenderWord(out: string, text: string, k: Classes)
    requires Proper(k) && text != "" && !IsQuote(text[0]) && k.word(text[0])
    ensures Run(State(out, None, false), text, k).out == Settled(out, text, k) + Render(Lex(text, k))
    decreases |text|, 0
  {
    hide *;
    var n := RunLength(text, k);
    var run, after := text[..n], text[n..];
    LexWord(out, text, k);
    RunFromWord(out, text, k);
    RunIsRender(out + run, after, k);
    SettledWord(out + run, after, k);
    Associates(out, run, Separator(after, k), Render(Lex(after, k)));
  }

  lemma Associates(a: string, b: string, c: string, d: string)
    ensures a + b + c + d == a + (b + c + d)
  {}

  /** Running through a whole word. */
  lemma RunFromWord(out: string, text: string, k: Classes)
    requires Proper(k) && text != "" && k.word(text[0])
    ensures var n := RunLength(text, k);
      Run(State(out, None, false), text, k) == Run(State(out + text[..n], None, false), text[n..], k) &&
      EndsWithWord(out + text[..n], k) && (text[n..] != "" ==> !k.word(text[n..][0]))
  {
    var n := RunLength(text, k);
    assert n > 0;
    hide *;
    RunWord(out, text, n, k);
    LastWord(out, text, n, k);
  }

  lemma LastWord(out: string, text: string, n: nat, k: Classes)
    requires 0 < n <= |text| && k.word(text[n - 1])
    ensures EndsWithWord(out + text[..n], k)
  {
    assert (out + text[..n])[|out| + n - 1] == text[n - 1];
  }

  /** The space printed after a word that `after` follows. */
  function Separator(after: string, k: Classes): string {
    if (after != "" && k.space(after[0]) && GapAhead(after, k)) || StartsWithWord(Lex(after, k)) then " " else ""
  }

  lemma SettledWord(out: string, after: string, k: Classes)
    requires Proper(k) && EndsWithWord(out, k) && (after != "" ==> !k.word(after[0]))
    ensures Settled(out, after, k) == out + Separator(after, k)
  {
    SeparatorSpec(after, k);
    hide Lex, GapAhead;
    assert out + "" == out;
  }

  lemma LexWord(out: string, text: string, k: Classes)
    requires Proper(k) && text != "" && !IsQuote(text[0]) && k.word(text[0])
    ensures var n := RunLength(text, k);
      n > 0 && Lex(text, k) == [Word(text[..n], n < |text| && k.space(text[n]) && GapAhead(text[n..], k))] + Lex(text[n..], k) &&
      Render(Lex(text, k)) == text[..n] + Separator(text[n..], k) + Render(Lex(text[n..], k))
    ensures Settled(out, text, k) == out
  {
    var n := RunLength(text, k);
    assert n > 0 && !k.space(text[0]);
    assert n < |text| ==> text[n] == text[n..][0];
    hide GapAhead;
    var first := Word(text[..n], n < |text| && k.space(text[n]) && GapAhead(text[n..], k));
    assert Lex(text, k) == [first] + Lex(text[n..], k);
    RenderFirst(first, Lex(text[n..], k));
  }

  lemma RenderFirst(first: Lexeme, rest: seq<Lexeme>)
    requires first.Word?
    ensures Render([first] + rest) == first.run + (if first.gap || StartsWithWord(rest) then " " else "") + Render(rest)
  {
    assert ([first] + rest)[1..] == rest;
  }

  /** What may follow a finished word. */
  lemma {:induction false} SeparatorSpec(after: string, k: Classes)
    requires Proper(k) && (after != "" ==> !k.word(after[0]))
    ensures after != "" && k.space(after[0]) ==>
      (Lex(after, k) != [] && Lex(after, k)[0].Mark? <==> !(GapAhead(after, k) || StartsWithWord(Lex(after, k))))
    ensures (after == "" || !k.space(after[0])) ==> !StartsWithWord(Lex(after, k))
  {
    if after != "" && k.space(after[0]) { AheadSpec(after, k); }
  }

  lemma {:induction false} AheadSpec(text: string, k: Classes)
    requires Proper(k)
    ensures GapAhead(text, k) <==> Lex(text, k) == [] || Lex(text, k)[0].Quoted?
    decreases |text|
  {
    if text != "" && k.space(text[0]) {
      AheadSpec(text[1..], k);
      LexSpace(text, k);
    }
  }

  /** Stripping is lexing, then printing with only the space that is needed. */
  lemma StripIsRender(text: string, k: Classes)
    requires Proper(k)
    ensures Strip(text, k) == Render(Lex(text, k))
  {
    RunIsRender("", text, k);
    assert "" + Render(Lex(text, k)) == Render(Lex(text, k));
  }
}
