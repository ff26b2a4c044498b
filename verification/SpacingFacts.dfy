/** What stripping keeps: every literal, every word, every other character, in order.
    Two texts strip alike exactly when they agree on those and on the few spaces kept. */
module SpacingFacts {
  import opened Values
  import opened Spacing

  /** The lexemes some text has. */
  predicate WellFormed(ls: seq<Lexeme>, k: Classes) {
    ls == [] || (WellFormedFirst(ls, k) && WellFormed(ls[1..], k))
  }

  predicate WellFormedFirst(ls: seq<Lexeme>, k: Classes)
    requires ls != []
  {
    match ls[0]
    case Word(run, gap) => run != "" && (forall c | c in run :: k.word(c)) && (gap ==> |ls| == 1 || ls[1].Quoted?)
    case Mark(c) => !k.word(c) && !k.space(c) && !IsQuote(c)
    case Quoted(literal) =>
      literal != "" && IsQuote(literal[0]) && LiteralLength(literal[1..], literal[0], false) == |literal| - 1 &&
      (Closes(literal[1..], literal[0], false) || |ls| == 1)
  }

  lemma {:induction false} ClosedPrefix(a: string, b: string, q: char, escaped: bool)
    requires Closes(a, q, escaped) && LiteralLength(a, q, escaped) == |a|
    ensures LiteralLength(a + b, q, escaped) == |a| && Closes(a + b, q, escaped)
    decreases |a|
  {
    hide *;
    LiteralStep(a, q, escaped);
    LiteralStep(a + b, q, escaped);
    if a != "" {
      assert (a + b)[1..] == a[1..] + b && (a + b)[0] == a[0];
      if escaped || a[0] == '\\' || a[0] != q {
        ClosedPrefix(a[1..], b, q, !escaped && a[0] == '\\');
      } else {
        assert |a| == 1;
      }
    }
  }

  /** A literal taken off a text is closed within itself, or is all there is. */
  lemma {:induction false} LiteralTaken(text: string, q: char, escaped: bool)
    ensures var n := LiteralLength(text, q, escaped);
      LiteralLength(text[..n], q, escaped) == n &&
      (if Closes(text, q, escaped) then Closes(text[..n], q, escaped) else n == |text|)
    decreases |text|
  {
    hide *;
    var n := LiteralLength(text, q, escaped);
    LiteralStep(text, q, escaped);
    LiteralStep(text[..n], q, escaped);
    if text != "" {
      if escaped || text[0] == '\\' || text[0] != q {
        var still := !escaped && text[0] == '\\';
        LiteralTaken(text[1..], q, still);
        assert text[..n][1..] == text[1..][..n - 1];
      }
    }
  }

  lemma {:induction false} LexIsWellFormed(text: string, k: Classes)
    requires Proper(k)
    ensures WellFormed(Lex(text, k), k)
    decreases |text|
  {
    if text != "" {
      if IsQuote(text[0]) {
        LexLiteral("", text, k);
        var m := LiteralLength(text[1..], text[0], false);
        LexIsWellFormed(text[m + 1..], k);
        LiteralTaken(text[1..], text[0], false);
        assert text[..m + 1][1..] == text[1..][..m];
        Attach(Quoted(text[..m + 1]), text[m + 1..], k);
      } else if k.space(text[0]) {
        LexSpace(text, k);
        LexIsWellFormed(text[1..], k);
      } else if k.word(text[0]) {
        LexWord("", text, k);
        var n := RunLength(text, k);
        LexIsWellFormed(text[n..], k);
        AheadSpec(text[n..], k);
        Attach(Word(text[..n], n < |text| && k.space(text[n]) && GapAhead(text[n..], k)), text[n..], k);
      } else {
        LexMark("", text, k);
        LexIsWellFormed(text[1..], k);
        Attach(Mark(text[0]), text[1..], k);
      }
    }
  }

  lemma Attach(first: Lexeme, rest: string, k: Classes)
    requires WellFormed(Lex(rest, k), k) && WellFormedFirst([first] + Lex(rest, k), k)
    ensures WellFormed([first] + Lex(rest, k), k)
  {
    assert ([first] + Lex(rest, k))[1..] == Lex(rest, k);
  }

  lemma FirstChar(ls: seq<Lexeme>, k: Classes)
    requires Proper(k) && ls != [] && WellFormed(ls, k)
    ensures Render(ls) != "" && !k.space(Render(ls)[0])
    ensures k.word(Render(ls)[0]) <==> ls[0].Word?
    ensures IsQuote(Render(ls)[0]) <==> ls[0].Quoted?
  {
    hide LiteralLength, Closes;
    match ls[0]
    case Word(run, _) => assert run[0] in run && Render(ls)[0] == run[0];
    case Quoted(literal) => assert Render(ls)[0] == literal[0];
    case Mark(c) =>
  }

  lemma {:induction false} RunOf(run: string, rest: string, k: Classes)
    requires (forall c | c in run :: k.word(c)) && (rest != "" ==> !k.word(rest[0]))
    ensures RunLength(run + rest, k) == |run|
  {
    if run == "" {
      assert run + rest == rest;
    } else {
      assert (run + rest)[0] == run[0] && run[0] in run && (run + rest)[1..] == run[1..] + rest;
      RunOf(run[1..], rest, k);
    }
  }

  /** Printing well-formed lexemes and lexing again gives them back. */
  lemma {:induction false} LexRender(ls: seq<Lexeme>, k: Classes)
    requires Proper(k) && WellFormed(ls, k)
    ensures Lex(Render(ls), k) == ls
  {
    if ls != [] {
      var rest := ls[1..];
      LexRender(rest, k);
      assert ls == [ls[0]] + rest;
      match ls[0]
      case Mark(c) => LexRenderMark(ls, k);
      case Quoted(_) => LexRenderQuoted(ls, k);
      case Word(_, _) => LexRenderWord(ls, k);
    }
  }

  lemma LexRenderMark(ls: seq<Lexeme>, k: Classes)
    requires Proper(k) && ls != [] && ls[0].Mark? && WellFormed(ls, k) && Lex(Render(ls[1..]), k) == ls[1..]
    ensures Lex(Render(ls), k) == [ls[0]] + ls[1..]
  {
    var text := Render(ls);
    assert text == [ls[0].c] + Render(ls[1..]) && text[1..] == Render(ls[1..]);
    hide WellFormed, Render;
    LexMark("", text, k);
  }

  lemma LexRenderQuoted(ls: seq<Lexeme>, k: Classes)
    requires Proper(k) && ls != [] && ls[0].Quoted? && WellFormed(ls, k) && Lex(Render(ls[1..]), k) == ls[1..]
    ensures Lex(Render(ls), k) == [ls[0]] + ls[1..]
  {
    var literal, more := ls[0].literal, Render(ls[1..]);
    var text := Render(ls);
    assert text == literal + more && WellFormedFirst(ls, k);
    assert text[0] == literal[0] && text[1..] == literal[1..] + more;
    if Closes(literal[1..], literal[0], false) {
      ClosedPrefix(literal[1..], more, literal[0], false);
    } else {
      assert ls[1..] == [] && more == "" && text[1..] == literal[1..];
    }
    hide WellFormed, Render, Lex, LiteralLength, Closes;
    LexLiteral("", text, k);
    assert text[..|literal|] == literal && text[|literal|..] == more;
  }

  lemma LexRenderWord(ls: seq<Lexeme>, k: Classes)
    requires Proper(k) && ls != [] && ls[0].Word? && WellFormed(ls, k) && Lex(Render(ls[1..]), k) == ls[1..]
    ensures Lex(Render(ls), k) == [ls[0]] + ls[1..]
  {
    var run, rest, more := ls[0].run, ls[1..], Render(ls[1..]);
    var sep := WordSeparator(ls);
    var text := Render(ls);
    WordText(ls, k);
    BehindWord(ls, k);
    hide *;
    RunOf(run, sep + more, k);
    WordAt(text, run, sep + more, k);
    LexWord("", text, k);
    AfterWord(ls, k);
  }

  function WordSeparator(ls: seq<Lexeme>): string
    requires ls != [] && ls[0].Word?
  {
    if ls[0].gap || StartsWithWord(ls[1..]) then " " else ""
  }

  lemma WordText(ls: seq<Lexeme>, k: Classes)
    requires ls != [] && ls[0].Word? && WellFormed(ls, k)
    ensures Render(ls) == ls[0].run + (WordSeparator(ls) + Render(ls[1..]))
    ensures ls[0].run != "" && (forall c | c in ls[0].run :: k.word(c)) && WellFormed(ls[1..], k)
  {
    assert ls[0].run + WordSeparator(ls) + Render(ls[1..]) == ls[0].run + (WordSeparator(ls) + Render(ls[1..]));
    assert WellFormedFirst(ls, k);
  }

  /** What is printed behind a word does not continue it. */
  lemma BehindWord(ls: seq<Lexeme>, k: Classes)
    requires Proper(k) && ls != [] && ls[0].Word? && WellFormed(ls, k)
    ensures var behind := WordSeparator(ls) + Render(ls[1..]);
      behind != "" ==> !k.word(behind[0]) && (k.space(behind[0]) <==> WordSeparator(ls) == " ")
  {
    WordText(ls, k);
    hide WellFormed, Render;
    if ls[1..] != [] { FirstChar(ls[1..], k); } else { assert Render(ls[1..]) == "" by { RenderEmpty(); } }
    assert WordSeparator(ls) == "" ==> WordSeparator(ls) + Render(ls[1..]) == Render(ls[1..]);
  }

  lemma RenderEmpty()
    ensures Render([]) == ""
  {}

  lemma WordAt(text: string, run: string, behind: string, k: Classes)
    requires text == run + behind && run != "" && (forall c | c in run :: k.word(c)) && Proper(k)
    ensures k.word(text[0]) && !IsQuote(text[0]) && text[..|run|] == run && text[|run|..] == behind
  {
    assert text[0] == run[0] && run[0] in run;
  }

  /** The rest is lexed as before, and the gap mark is recovered. */
  lemma AfterWord(ls: seq<Lexeme>, k: Classes)
    requires Proper(k) && ls != [] && ls[0].Word? && WellFormed(ls, k) && Lex(Render(ls[1..]), k) == ls[1..]
    ensures var behind := WordSeparator(ls) + Render(ls[1..]);
      Lex(behind, k) == ls[1..] && (behind != "" && k.space(behind[0]) && GapAhead(behind, k) <==> ls[0].gap)
  {
    var sep, more := WordSeparator(ls), Render(ls[1..]);
    BehindWord(ls, k);
    AheadSpec(more, k);
    assert WellFormedFirst(ls, k);
    hide Lex, Render, WellFormed;
    if sep == " " {
      assert (sep + more)[1..] == more;
      LexSpace(sep + more, k);
      assert GapAhead(sep + more, k) == GapAhead(more, k);
    } else {
      assert sep + more == more;
    }
  }

  // ---------------------------------------------------------------- main results

  /** Stripping changes no lexeme: no literal altered, no two words joined, none split,
      no other character lost. */
  lemma StripKeepsLexemes(text: string, k: Classes)
    requires Proper(k)
    ensures Lex(Strip(text, k), k) == Lex(text, k)
  {
    StripIsRender(text, k);
    LexIsWellFormed(text, k);
    LexRender(Lex(text, k), k);
  }

  lemma StripIdempotent(text: string, k: Classes)
    requires Proper(k)
    ensures Strip(Strip(text, k), k) == Strip(text, k)
  {
    StripKeepsLexemes(text, k);
    StripIsRender(text, k);
    StripIsRender(Strip(text, k), k);
  }

  /** Two texts strip alike exactly when they have the same lexemes. */
  lemma StripDecides(a: string, b: string, k: Classes)
    requires Proper(k)
    ensures Strip(a, k) == Strip(b, k) <==> Lex(a, k) == Lex(b, k)
  {
    StripIsRender(a, k);
    StripIsRender(b, k);
    StripKeepsLexemes(a, k);
    StripKeepsLexemes(b, k);
  }

  /** Lexemes without the record of kept spaces. */
  function Bare(ls: seq<Lexeme>): seq<Lexeme> {
    if ls == [] then []
    else [if ls[0].Word? then Word(ls[0].run, false) else ls[0]] + Bare(ls[1..])
  }

  /** Stripping is not blind to all space: behind a word, space in front of a literal
      stays, so the same tokens may strip differently. */
  lemma SpaceBeforeLiteralStays(k: Classes)
    requires Proper(k) && k.word('a')
    ensures Bare(Lex("a ''", k)) == Bare(Lex("a''", k)) && Strip("a ''", k) != Strip("a''", k)
  {
    LexQuotes(k);
    LexWord("", "a ''", k);
    LexWord("", "a''", k);
    RunOf("a", " ''", k);
    RunOf("a", "''", k);
    assert "a ''" == "a" + " ''" && "a''" == "a" + "''" && "a ''"[1..] == " ''" && "a''"[1..] == "''";
    LexSpace(" ''", k);
    assert " ''"[1..] == "''";
    assert GapAhead(" ''", k) by { assert GapAhead("''", k); }
    assert Lex("a ''", k) == [Word("a", true), Quoted("''")] && Lex("a''", k) == [Word("a", false), Quoted("''")];
    assert Bare(Lex("a ''", k)) == Bare(Lex("a''", k)) by {
      BareTwo("a", true, "''");
      BareTwo("a", false, "''");
    }
    StripDecides("a ''", "a''", k);
  }

  lemma BareTwo(run: string, gap: bool, literal: string)
    ensures Bare([Word(run, gap), Quoted(literal)]) == [Word(run, false), Quoted(literal)]
  {
    var quoted := [Quoted(literal)];
    assert [Word(run, gap), Quoted(literal)][1..] == quoted && quoted[1..] == [];
    assert Bare(quoted) == quoted by { assert Bare(quoted) == [quoted[0]] + Bare(quoted[1..]); }
  }

  lemma LexQuotes(k: Classes)
    requires Proper(k)
    ensures Lex("''", k) == [Quoted("''")]
  {
    LexLiteral("", "''", k);
    assert "''"[1..] == "'" && LiteralLength("'", '\'', false) == 1;
    assert "''"[..2] == "''" && "''"[2..] == "";
  }
}
