/**
 The neutral normal form of a shell command: edge whitespace goes, each unquoted run of
 blanks becomes one space, and every other character stays.
 */
module ShellNormal {
  import opened Text

  datatype Quote = Unquoted | Single | Double

  /** A piece of a command: one unquoted blank, or text kept exactly (a character, or a
      backslash with the character it escapes). Guarded text is quoted, quotes included, or
      escaped. */
  datatype Token = Blank | Kept(text: string, guarded: bool)

  predicate IsBlank(c: char) {
    c == ' ' || c == '\t'
  }

  /** The quote state after an ordinary character. */
  function Toggle(quote: Quote, c: char): Quote {
    match quote
    case Unquoted => if c == '\'' then Single else if c == '"' then Double else Unquoted
    case Single => if c == '\'' then Unquoted else Single
    case Double => if c == '"' then Unquoted else Double
  }

  /** The character stands inside quotes, or is a quote that opens or closes them. */
  predicate Guards(quote: Quote, c: char) {
    quote != Unquoted || Toggle(quote, c) != Unquoted
  }

  function Lex(text: string, quote: Quote): seq<Token>
    decreases |text|
  {
    if text == "" then []
    else if text[0] == '\\' && quote != Single then
      if |text| == 1 then [Kept(text, true)] else [Kept(text[..2], true)] + Lex(text[2..], quote)
    else if quote == Unquoted && IsBlank(text[0]) then [Blank] + Lex(text[1..], quote)
    else [Kept([text[0]], Guards(quote, text[0]))] + Lex(text[1..], Toggle(quote, text[0]))
  }

  /** Runs of blanks become one; `inRun` says a blank was just emitted. */
  function Squeeze(ts: seq<Token>, inRun: bool): seq<Token> {
    if ts == [] then []
    else if ts[0] == Blank && inRun then Squeeze(ts[1..], true)
    else [ts[0]] + Squeeze(ts[1..], ts[0] == Blank)
  }

  function Render(ts: seq<Token>): string {
    if ts == [] then ""
    else (if ts[0] == Blank then " " else ts[0].text) + Render(ts[1..])
  }

  /** `_normalize_command`: None for a command that is blank throughout. */
  function Normalize(command: string): Option<string> {
    var text := Strip(command);
    if text == "" then None else Some(Render(Squeeze(Lex(text, Unquoted), false)))
  }

  // ---- lexing what was rendered

  /** Rendering squeezed tokens and lexing again gives them back: the normal form spells out
      exactly its tokens. */
  lemma {:induction false} LexSqueezed(text: string, quote: Quote, inRun: bool)
    ensures Lex(Render(Squeeze(Lex(text, quote), inRun)), quote) == Squeeze(Lex(text, quote), inRun)
    decreases |text|
  {
    hide Guards, IsBlank;
    if text == "" {
    } else if text[0] == '\\' && quote != Single {
      if |text| == 1 {
        assert Squeeze([Kept(text, true)], inRun) == [Kept(text, true)];
        assert Render([Kept(text, true)]) == text;
      } else {
        LexSqueezed(text[2..], quote, false);
        hide Lex, Squeeze, Render;
        LexStep(text, quote);
        Unfold(Kept(text[..2], true), Lex(text[2..], quote), inRun);
        var rest := Render(Squeeze(Lex(text[2..], quote), false));
        assert (text[..2] + rest)[..2] == text[..2] && (text[..2] + rest)[2..] == rest;
        LexStep(text[..2] + rest, quote);
      }
    } else {
      var next, blank := Toggle(quote, text[0]), quote == Unquoted && IsBlank(text[0]);
      LexSqueezed(text[1..], next, blank);
      hide Lex, Squeeze, Render;
      LexStep(text, quote);
      BlankIsPlain();
      var t := if blank then Blank else Kept([text[0]], Guards(quote, text[0]));
      Unfold(t, Lex(text[1..], next), inRun);
      var c := if blank then " " else [text[0]];
      var rest := Render(Squeeze(Lex(text[1..], next), blank));
      assert (c + rest)[1..] == rest;
      LexStep(c + rest, quote);
    }
  }

  lemma BlankIsPlain()
    ensures IsBlank(' ') && forall c :: IsBlank(c) ==> c != '\\' && Toggle(Unquoted, c) == Unquoted
  {
  }

  lemma Unfold(t: Token, ts: seq<Token>, inRun: bool)
    ensures Squeeze([t] + ts, inRun) ==
            if t == Blank && inRun then Squeeze(ts, true) else [t] + Squeeze(ts, t == Blank)
    ensures Render([t] + Squeeze(ts, t == Blank)) ==
            (if t == Blank then " " else t.text) + Render(Squeeze(ts, t == Blank))
  {
    assert ([t] + ts)[1..] == ts;
    assert ([t] + Squeeze(ts, t == Blank))[1..] == Squeeze(ts, t == Blank);
  }

  lemma {:induction false} SqueezeTwice(ts: seq<Token>, inRun: bool)
    ensures Squeeze(Squeeze(ts, inRun), inRun) == Squeeze(ts, inRun)
  {
    if ts != [] {
      if ts[0] == Blank && inRun {
        SqueezeTwice(ts[1..], true);
      } else {
        SqueezeTwice(ts[1..], ts[0] == Blank);
        Unfold(ts[0], Squeeze(ts[1..], ts[0] == Blank), inRun);
      }
    }
  }

  /** What the scan emits for the rest of a text. */
  function Emit(text: string, quote: Quote, inRun: bool): string {
    Render(Squeeze(Lex(text, quote), inRun))
  }

  /** One step of the scan: what it emits and where it leaves the state. */
  lemma EmitStep(text: string, quote: Quote, inRun: bool)
    requires text != ""
    ensures Emit(text, quote, inRun) ==
            if text[0] == '\\' && quote != Single then
              if |text| == 1 then text else text[..2] + Emit(text[2..], quote, false)
            else if quote == Unquoted && IsBlank(text[0]) then
              (if inRun then "" else " ") + Emit(text[1..], quote, true)
            else [text[0]] + Emit(text[1..], Toggle(quote, text[0]), false)
  {
    if text[0] == '\\' && quote != Single {
      if |text| == 1 {
        assert Squeeze([Kept(text, true)], inRun) == [Kept(text, true)];
        assert Render([Kept(text, true)]) == text;
      } else {
        Unfold(Kept(text[..2], true), Lex(text[2..], quote), inRun);
      }
    } else if quote == Unquoted && IsBlank(text[0]) {
      Unfold(Blank, Lex(text[1..], quote), inRun);
    } else {
      Unfold(Kept([text[0]], Guards(quote, text[0])), Lex(text[1..], Toggle(quote, text[0])), inRun);
    }
  }

  /** The last character of a text that does not end in whitespace survives. */
  lemma {:induction false} LastCharSurvives(text: string, quote: Quote, inRun: bool)
    requires text != "" && !IsSpace(text[|text| - 1])
    ensures var out := Emit(text, quote, inRun);
      out != "" && out[|out| - 1] == text[|text| - 1]
    decreases |text|
  {
    hide Emit;
    EmitStep(text, quote, inRun);
    if text[0] == '\\' && quote != Single {
      if |text| > 2 { LastCharSurvives(text[2..], quote, false); }
      assert Emit("", quote, false) == "" by { EmitNothing(quote); }
    } else if quote == Unquoted && IsBlank(text[0]) {
      LastCharSurvives(text[1..], quote, true);
    } else {
      if |text| > 1 { LastCharSurvives(text[1..], Toggle(quote, text[0]), false); }
      EmitNothing(Toggle(quote, text[0]));
    }
  }

  lemma EmitNothing(quote: Quote)
    ensures forall inRun :: Emit("", quote, inRun) == ""
  {
  }

  /** The normal form has no edge whitespace left. */
  lemma NormalIsStripped(command: string)
    ensures Normalize(command).Some? ==>
              Normalize(command).value != "" && Strip(Normalize(command).value) == Normalize(command).value
  {
    var text := Strip(command);
    if text != "" {
      LastCharSurvives(text, Unquoted, false);
      var ts := Lex(text, Unquoted);
      assert ts[0] != Blank && ts[0].text[0] == text[0];
      Unfold(ts[0], ts[1..], false);
      assert ts == [ts[0]] + ts[1..];
      StripKeeps(Normalize(command).value);
    }
  }

  /** Normalizing is idempotent: a fingerprint of the normal form is the fingerprint itself. */
  lemma NormalizeIdempotent(command: string)
    ensures Normalize(command).Some? ==> Normalize(Normalize(command).value) == Normalize(command)
  {
    var text := Strip(command);
    if text != "" {
      NormalIsStripped(command);
      LexSqueezed(text, Unquoted, false);
      SqueezeTwice(Lex(text, Unquoted), false);
    }
  }

  // ---- which commands share a normal form

  function SkipBlanks(s: string): (r: string)
    ensures |r| <= |s| && (s != "" && IsBlank(s[0]) ==> |r| < |s|)
    ensures r == "" || !IsBlank(r[0])
  {
    if s != "" && IsBlank(s[0]) then SkipBlanks(s[1..]) else s
  }

  /** Two texts that differ only in the length and kind of their unquoted runs of blanks, told
      character by character. */
  predicate Alike(a: string, b: string, quote: Quote)
    decreases |a|
  {
    if a == "" || b == "" then a == b
    else if quote == Unquoted && IsBlank(a[0]) && IsBlank(b[0]) then Alike(SkipBlanks(a), SkipBlanks(b), quote)
    else if a[0] != b[0] then false
    else if a[0] == '\\' && quote != Single then
      if |a| == 1 || |b| == 1 then a == b else a[1] == b[1] && Alike(a[2..], b[2..], quote)
    else Alike(a[1..], b[1..], Toggle(quote, a[0]))
  }

  function Squeezed(text: string, quote: Quote): seq<Token> {
    Squeeze(Lex(text, quote), false)
  }

  lemma {:induction false} InRunSkips(text: string)
    ensures Squeeze(Lex(text, Unquoted), true) == Squeezed(SkipBlanks(text), Unquoted)
  {
    if text != "" {
      if IsBlank(text[0]) {
        InRunSkips(text[1..]);
        Unfold(Blank, Lex(text[1..], Unquoted), true);
      } else {
        var ts := Lex(text, Unquoted);
        assert ts != [] && ts[0] != Blank;
      }
    }
  }

  /** The first token of a text and what it leaves. */
  lemma SqueezedStep(text: string, quote: Quote)
    requires text != ""
    ensures Squeezed(text, quote) ==
            if text[0] == '\\' && quote != Single then
              if |text| == 1 then [Kept(text, true)] else [Kept(text[..2], true)] + Squeezed(text[2..], quote)
            else if quote == Unquoted && IsBlank(text[0]) then [Blank] + Squeezed(SkipBlanks(text), quote)
            else [Kept([text[0]], Guards(quote, text[0]))] + Squeezed(text[1..], Toggle(quote, text[0]))
  {
    hide Lex, Squeeze, Render, Guards, Toggle, IsBlank;
    LexStep(text, quote);
    if quote == Unquoted && IsBlank(text[0]) {
      BlankStep(text);
    } else if text[0] == '\\' && quote != Single && |text| == 1 {
      Unfold(Kept(text, true), [], false);
      assert [Kept(text, true)] + [] == [Kept(text, true)];
      assert Squeeze([], false) == [] by { SqueezedNothing(quote); }
    } else if text[0] == '\\' && quote != Single {
      Unfold(Kept(text[..2], true), Lex(text[2..], quote), false);
    } else {
      Unfold(Kept([text[0]], Guards(quote, text[0])), Lex(text[1..], Toggle(quote, text[0])), false);
    }
  }

  lemma BlankStep(text: string)
    requires text != "" && IsBlank(text[0])
    ensures text[0] != '\\'
    ensures Squeezed(text, Unquoted) == [Blank] + Squeezed(SkipBlanks(text), Unquoted)
  {
    assert text[0] != '\\' && Toggle(Unquoted, text[0]) == Unquoted;
    hide Lex, Squeeze, Render;
    LexStep(text, Unquoted);
    Unfold(Blank, Lex(text[1..], Unquoted), false);
    InRunSkips(text[1..]);
  }

  lemma {:induction false} AlikeExactly(a: string, b: string, quote: Quote)
    ensures Squeezed(a, quote) == Squeezed(b, quote) <==> Alike(a, b, quote)
    decreases |a|
  {
    hide Squeezed, Guards;
    assert Squeezed("", quote) == [] by { SqueezedNothing(quote); }
    if a != "" { SqueezedStep(a, quote); }
    if b != "" { SqueezedStep(b, quote); }
    if a != "" && b != "" {
      if quote == Unquoted && IsBlank(a[0]) && IsBlank(b[0]) {
        AlikeExactly(SkipBlanks(a), SkipBlanks(b), quote);
        SameHead(Blank, Squeezed(SkipBlanks(a), quote), Squeezed(SkipBlanks(b), quote));
      } else if a[0] != b[0] {
        assert Squeezed(a, quote)[0] != Squeezed(b, quote)[0] by { HeadsDiffer(a, b, quote); }
      } else if a[0] == '\\' && quote != Single {
        EscapesAgree(a, b, quote);
        if |a| > 1 && |b| > 1 && a[1] == b[1] { AlikeExactly(a[2..], b[2..], quote); }
      } else {
        AlikeExactly(a[1..], b[1..], Toggle(quote, a[0]));
        SameHead(Kept([a[0]], Guards(quote, a[0])), Squeezed(a[1..], Toggle(quote, a[0])),
                 Squeezed(b[1..], Toggle(quote, a[0])));
      }
    }
  }

  lemma SqueezedNothing(quote: Quote)
    ensures Squeezed("", quote) == [] && Squeeze([], false) == [] && Lex("", quote) == []
  {
  }

  lemma SameHead(t: Token, xs: seq<Token>, ys: seq<Token>)
    ensures [t] + xs == [t] + ys <==> xs == ys
  {
    assert ([t] + xs)[1..] == xs && ([t] + ys)[1..] == ys;
  }

  lemma HeadsDiffer(a: string, b: string, quote: Quote)
    requires a != "" && b != "" && a[0] != b[0] && !(quote == Unquoted && IsBlank(a[0]) && IsBlank(b[0]))
    ensures Squeezed(a, quote) != [] && Squeezed(b, quote) != [] && Squeezed(a, quote)[0] != Squeezed(b, quote)[0]
  {
    hide Squeezed, Guards;
    SqueezedStep(a, quote);
    SqueezedStep(b, quote);
    var x, y := Squeezed(a, quote)[0], Squeezed(b, quote)[0];
    assert x.Kept? ==> x.text != "" && x.text[0] == a[0];
    assert y.Kept? ==> y.text != "" && y.text[0] == b[0];
  }

  lemma EscapesAgree(a: string, b: string, quote: Quote)
    requires a != "" && b != "" && a[0] == b[0] == '\\' && quote != Single
    ensures Squeezed(a, quote) == Squeezed(b, quote) <==>
            if |a| == 1 || |b| == 1 then a == b
            else a[1] == b[1] && Squeezed(a[2..], quote) == Squeezed(b[2..], quote)
  {
    hide Squeezed;
    SqueezedStep(a, quote);
    SqueezedStep(b, quote);
    var x, y := Squeezed(a, quote)[0], Squeezed(b, quote)[0];
    if |a| > 1 && |b| > 1 {
      if a[1] == b[1] {
        assert a[..2] == b[..2];
        SameHead(x, Squeezed(a[2..], quote), Squeezed(b[2..], quote));
      } else {
        assert x.text[1] != y.text[1];
      }
    } else {
      assert |x.text| == (if |a| == 1 then 1 else 2) && |y.text| == (if |b| == 1 then 1 else 2);
    }
  }

  /** Two commands have one normal form exactly when, stripped, they differ at most in the
      length and kind of their unquoted runs of blanks. */
  lemma NormalFormsAgreeExactly(a: string, b: string)
    ensures Normalize(a) == Normalize(b) <==> Alike(Strip(a), Strip(b), Unquoted)
  {
    LexSqueezed(Strip(a), Unquoted, false);
    LexSqueezed(Strip(b), Unquoted, false);
    AlikeExactly(Strip(a), Strip(b), Unquoted);
    hide Lex, Render, Squeeze, Strip;
  }

  // ---- where a text ends

  /** The quote state at the end of a text; None in the middle of an escape. */
  function Ends(text: string, quote: Quote): Option<Quote>
    decreases |text|
  {
    if text == "" then Some(quote)
    else if text[0] == '\\' && quote != Single then
      if |text| == 1 then None else Ends(text[2..], quote)
    else Ends(text[1..], Toggle(quote, text[0]))
  }

  lemma {:induction false} LexConcat(p: string, w: string, quote: Quote)
    requires Ends(p, quote).Some?
    ensures Lex(p + w, quote) == Lex(p, quote) + Lex(w, Ends(p, quote).value)
    decreases |p|
  {
    hide Lex, Guards, Toggle, IsBlank;
    if p == "" {
      assert p + w == w;
      SqueezedNothing(quote);
    } else {
      LexStep(p, quote);
      LexStep(p + w, quote);
      if p[0] == '\\' && quote != Single {
        assert (p + w)[..2] == p[..2] && (p + w)[2..] == p[2..] + w;
        LexConcat(p[2..], w, quote);
      } else {
        assert (p + w)[1..] == p[1..] + w;
        LexConcat(p[1..], w, Toggle(quote, p[0]));
      }
    }
  }

  /** The first token of a text and the rest of its tokens. */
  lemma LexStep(text: string, quote: Quote)
    requires text != ""
    ensures Lex(text, quote) ==
            if text[0] == '\\' && quote != Single then
              if |text| == 1 then [Kept(text, true)] else [Kept(text[..2], true)] + Lex(text[2..], quote)
            else
              [if quote == Unquoted && IsBlank(text[0]) then Blank else Kept([text[0]], Guards(quote, text[0]))]
              + Lex(text[1..], Toggle(quote, text[0]))
  {
  }

  predicate AllBlank(s: string) {
    forall i :: 0 <= i < |s| ==> IsBlank(s[i])
  }

  lemma {:induction false} LeadingSpaceIsNeutral(p: string)
    ensures Ends(StripLeft(p), Unquoted) == Ends(p, Unquoted)
    ensures TextOf(Lex(StripLeft(p), Unquoted), true) == TextOf(Lex(p, Unquoted), true)
  {
    if p != "" && IsSpace(p[0]) {
      LeadingSpaceIsNeutral(p[1..]);
      assert Toggle(Unquoted, p[0]) == Unquoted && p[0] != '\\';
    }
  }

  // ---- laws over characters

  lemma {:induction false} AlikeItself(a: string, quote: Quote)
    ensures Alike(a, a, quote)
    decreases |a|
  {
    if a != "" {
      if quote == Unquoted && IsBlank(a[0]) { AlikeItself(SkipBlanks(a), quote); }
      else if a[0] == '\\' && quote != Single { if |a| > 1 { AlikeItself(a[2..], quote); } }
      else { AlikeItself(a[1..], Toggle(quote, a[0])); }
    }
  }

  lemma {:induction false} SkipBlanksConcat(p: string, x: string)
    ensures SkipBlanks(p + x) == if AllBlank(p) then SkipBlanks(x) else SkipBlanks(p) + x
    ensures Ends(SkipBlanks(p), Unquoted) == Ends(p, Unquoted)
  {
    if p == "" {
      assert p + x == x;
    } else {
      assert (p + x)[1..] == p[1..] + x;
      SkipBlanksConcat(p[1..], x);
      assert AllBlank(p) <==> IsBlank(p[0]) && AllBlank(p[1..]) by { assert p == [p[0]] + p[1..]; }
    }
  }

  lemma {:induction false} AlikeAround(p: string, v: string, w: string, q: string, quote: Quote)
    requires v != "" && w != "" && AllBlank(v) && AllBlank(w) && Ends(p, quote) == Some(Unquoted)
    ensures Alike(p + v + q, p + w + q, quote)
    decreases |p|
  {
    hide IsBlank, AllBlank, SkipBlanks, Toggle;
    if p == "" || (quote == Unquoted && IsBlank(p[0])) {
      BlankHead(p, v, q);
      BlankHead(p, w, q);
      SkipBlanksConcat(p, "");
      if p != "" && !AllBlank(p) { AlikeAround(SkipBlanks(p), v, w, q, Unquoted); }
      hide Ends, Alike;
      AlikeAfterBlanks(p, v, w, q);
    } else {
      var a, b := p + v + q, p + w + q;
      assert a[0] == b[0] == p[0];
      if p[0] == '\\' && quote != Single {
        assert a[2..] == p[2..] + v + q && b[2..] == p[2..] + w + q && a[1] == b[1] == p[1];
        AlikeAround(p[2..], v, w, q, quote);
      } else {
        assert a[1..] == p[1..] + v + q && b[1..] == p[1..] + w + q;
        AlikeAround(p[1..], v, w, q, Toggle(quote, p[0]));
      }
    }
  }

  lemma AlikeAfterBlanks(p: string, v: string, w: string, q: string)
    requires v != "" && w != "" && AllBlank(v) && AllBlank(w) && (p == "" || IsBlank(p[0]))
    requires p != "" && !AllBlank(p) ==> Alike(SkipBlanks(p) + v + q, SkipBlanks(p) + w + q, Unquoted)
    ensures Alike(p + v + q, p + w + q, Unquoted)
  {
    BlankHead(p, v, q);
    BlankHead(p, w, q);
    assert p == "" ==> AllBlank(p);
    hide IsBlank, AllBlank, SkipBlanks;
    SkipAround(p, v, q);
    SkipAround(p, w, q);
    AlikeItself(SkipBlanks(q), Unquoted);
  }

  lemma SkipAround(p: string, v: string, q: string)
    requires AllBlank(v)
    ensures SkipBlanks(p + v + q) == if AllBlank(p) then SkipBlanks(q) else SkipBlanks(p) + v + q
  {
    hide AllBlank, SkipBlanks, Ends;
    SkipBlanksConcat(p, v + q);
    SkipBlanksConcat(v, q);
    Reassociate(p, v, q);
    Reassociate(SkipBlanks(p), v, q);
  }

  lemma BlankHead(p: string, v: string, q: string)
    requires v != "" && AllBlank(v) && (p == "" || IsBlank(p[0]))
    ensures IsBlank((p + v + q)[0])
  {
  }

  /** An unquoted run of blanks may be replaced by any other. */
  lemma BlankRunsDoNotMatter(p: string, v: string, w: string, q: string)
    requires v != "" && w != "" && AllBlank(v) && AllBlank(w) && Ends(p, Unquoted) == Some(Unquoted)
    ensures Normalize(p + v + q) == Normalize(p + w + q)
  {
    NormalFormsAgreeExactly(p + v + q, p + w + q);
    StrippedAround(p, v, q);
    StrippedAround(p, w, q);
    LeadingSpaceIsNeutral(p);
    hide *;
    if AllSpace(p) || AllSpace(q) {
      AlikeItself(Strip(p + v + q), Unquoted);
    } else {
      AlikeAround(StripLeft(p), v, w, StripRight(q), Unquoted);
    }
  }

  lemma StrippedAround(p: string, v: string, q: string)
    requires AllBlank(v)
    ensures Strip(p + v + q) ==
            if AllSpace(p) then Strip(q)
            else if AllSpace(q) then Strip(p) else StripLeft(p) + v + StripRight(q)
  {
    assert AllSpace(v);
    hide IsSpace, AllSpace, StripLeft, StripRight;
    assert p + v + q == p + (v + q);
    StripLeftConcat(p, v + q);
    StripLeftConcat(v, q);
    var left := StripLeft(p);
    assert left + (v + q) == (left + v) + q;
    StripRightConcat(left + v, q);
    StripRightConcat(left, v);
  }

  /** Whitespace around a command does not matter. */
  lemma EdgesDoNotMatter(e: string, command: string, f: string)
    requires AllSpace(e) && AllSpace(f)
    ensures Normalize(e + command + f) == Normalize(command)
  {
    assert Strip(e + command + f) == Strip(command) by {
      hide IsSpace, StripLeft, StripRight;
      assert e + command + f == e + (command + f);
      StripLeftConcat(e, command + f);
      StripLeftConcat(command, f);
      StripLeftConcat(f, "");
      assert f + "" == f;
      StripRightConcat(StripLeft(command), f);
      StripRightConcat("", f);
    }
    hide *;
    SameStripped(e + command + f, command);
  }

  lemma SameStripped(a: string, b: string)
    requires Strip(a) == Strip(b)
    ensures Normalize(a) == Normalize(b)
  {
    hide Strip;
  }

  // ---- the text a normal form keeps

  /** The kept text of some tokens, or only what of it is guarded. */
  function TextOf(ts: seq<Token>, guarded: bool): string {
    if ts == [] then ""
    else (if ts[0].Kept? && (guarded ==> ts[0].guarded) then ts[0].text else "") + TextOf(ts[1..], guarded)
  }

  lemma {:induction false} TextConcat(a: seq<Token>, b: seq<Token>, guarded: bool)
    ensures TextOf(a + b, guarded) == TextOf(a, guarded) + TextOf(b, guarded)
  {
    if a == [] {
      assert a + b == b;
    } else {
      var t, ts := a[0], a[1..];
      TextConcat(ts, b, guarded);
      hide TextOf;
      TokensConcat(a, b);
      HeadText(t, ts, guarded);
      HeadText(t, ts + b, guarded);
      Reassociate(if t.Kept? && (guarded ==> t.guarded) then t.text else "", TextOf(ts, guarded), TextOf(b, guarded));
    }
  }

  lemma TokensConcat(a: seq<Token>, b: seq<Token>)
    requires a != []
    ensures a == [a[0]] + a[1..] && a + b == [a[0]] + (a[1..] + b)
  {
  }

  lemma {:induction false} SqueezeKeepsText(ts: seq<Token>, inRun: bool, guarded: bool)
    ensures TextOf(Squeeze(ts, inRun), guarded) == TextOf(ts, guarded)
  {
    if ts != [] {
      SqueezeKeepsText(ts[1..], ts[0] == Blank, guarded);
      assert ts == [ts[0]] + ts[1..];
      Unfold(ts[0], ts[1..], inRun);
      var rest := Squeeze(ts[1..], ts[0] == Blank);
      assert ([ts[0]] + rest)[1..] == rest;
    }
  }

  /** Once stripped, everything quoted, escaped or not a blank reads the same in the normal form. */
  lemma KeptTextUnchanged(command: string, guarded: bool)
    requires Normalize(command).Some?
    ensures TextOf(Lex(Normalize(command).value, Unquoted), guarded) == TextOf(Lex(Strip(command), Unquoted), guarded)
  {
    LexSqueezed(Strip(command), Unquoted, false);
    SqueezeKeepsText(Lex(Strip(command), Unquoted), false, guarded);
  }

  /** In the middle of an escape any more text is escaped text more. */
  lemma {:induction false} OpenEscapeTakesMore(p: string, w: string, quote: Quote, guarded: bool)
    requires Ends(p, quote).None? && w != ""
    ensures |TextOf(Lex(p + w, quote), guarded)| > |TextOf(Lex(p, quote), guarded)|
    decreases |p|
  {
    hide Lex, TextOf, Guards, Toggle, IsBlank;
    LexStep(p, quote);
    LexStep(p + w, quote);
    if p[0] == '\\' && quote != Single {
      if |p| == 1 {
        HeadText(Kept(p, true), [], guarded);
        assert [Kept(p, true)] + [] == [Kept(p, true)];
        HeadText(Kept((p + w)[..2], true), Lex((p + w)[2..], quote), guarded);
        assert TextOf([], guarded) == "" by { NoText(guarded); }
      } else {
        assert (p + w)[..2] == p[..2] && (p + w)[2..] == p[2..] + w;
        OpenEscapeTakesMore(p[2..], w, quote, guarded);
        HeadText(Kept(p[..2], true), Lex(p[2..], quote), guarded);
        HeadText(Kept(p[..2], true), Lex(p[2..] + w, quote), guarded);
      }
    } else {
      var next := Toggle(quote, p[0]);
      assert (p + w)[1..] == p[1..] + w;
      OpenEscapeTakesMore(p[1..], w, next, guarded);
      var t := if quote == Unquoted && IsBlank(p[0]) then Blank else Kept([p[0]], Guards(quote, p[0]));
      HeadText(t, Lex(p[1..], next), guarded);
      HeadText(t, Lex(p[1..] + w, next), guarded);
    }
  }

  lemma NoText(guarded: bool)
    ensures TextOf([], guarded) == ""
  {
  }

  lemma HeadText(t: Token, ts: seq<Token>, guarded: bool)
    ensures TextOf([t] + ts, guarded) ==
            (if t.Kept? && (guarded ==> t.guarded) then t.text else "") + TextOf(ts, guarded)
  {
    assert ([t] + ts)[1..] == ts;
  }

  /** Whitespace has kept text unless it is unquoted and blank, and guarded text unless it is unquoted. */
  lemma {:induction false} TextOfSpace(w: string, quote: Quote, guarded: bool)
    requires AllSpace(w)
    ensures TextOf(Lex(w, quote), guarded) == "" <==> w == "" || (quote == Unquoted && (guarded || AllBlank(w)))
  {
    if w != "" {
      SpaceIsPlain(w[0], quote);
      assert AllSpace(w[1..]);
      assert AllBlank(w) <==> IsBlank(w[0]) && AllBlank(w[1..]) by { assert w == [w[0]] + w[1..]; }
      TextOfSpace(w[1..], quote, guarded);
      hide Lex, TextOf, AllSpace, AllBlank, IsBlank, IsSpace;
      LexStep(w, quote);
      HeadText(Lex(w, quote)[0], Lex(w[1..], quote), guarded);
    }
  }

  lemma SpaceIsPlain(c: char, quote: Quote)
    requires IsSpace(c)
    ensures c != '\\' && Toggle(quote, c) == quote && (Guards(quote, c) <==> quote != Unquoted)
  {
  }

  /** What stripping cuts off the end of a command. */
  function Tail(command: string): string {
    StripLeft(command)[|Strip(command)|..]
  }

  lemma CutIsSpace(command: string)
    ensures StripLeft(command) == Strip(command) + Tail(command) && AllSpace(Tail(command))
  {
    var left := StripLeft(command);
    RightCutIsSpace(left);
  }

  lemma {:induction false} RightCutIsSpace(s: string)
    ensures AllSpace(s[|StripRight(s)|..])
  {
    if s != "" && IsSpace(s[|s| - 1]) {
      var front := s[..|s| - 1];
      RightCutIsSpace(front);
      var n := |StripRight(front)|;
      assert s[n..] == front[n..] + [s[|s| - 1]];
    }
  }

  /** The text a command keeps is what it had, up to the whitespace in front, exactly when the
      whitespace cut off its end is empty, or begins outside quotes and escapes and is blank. */
  lemma KeptTextExactly(command: string)
    requires Normalize(command).Some?
    ensures TextOf(Lex(Normalize(command).value, Unquoted), false) ==
              TextOf(Lex(StripLeft(command), Unquoted), false) <==>
            Tail(command) == "" || (Ends(Strip(command), Unquoted) == Some(Unquoted) && AllBlank(Tail(command)))
  {
    KeptTextUnchanged(command, false);
    CutIsSpace(command);
    hide *;
    TextAfterCut(Strip(command), Tail(command), false);
  }

  /** Quoted and escaped text is all kept exactly when the cut is empty, or the command ends
      outside quotes and escapes where it is cut. */
  lemma GuardedTextExactly(command: string)
    requires Normalize(command).Some?
    ensures TextOf(Lex(Normalize(command).value, Unquoted), true) == TextOf(Lex(command, Unquoted), true) <==>
            Tail(command) == "" || Ends(Strip(command), Unquoted) == Some(Unquoted)
  {
    KeptTextUnchanged(command, true);
    CutIsSpace(command);
    LeadingSpaceIsNeutral(command);
    hide *;
    TextAfterCut(Strip(command), Tail(command), true);
  }

  lemma TextAfterCut(body: string, cut: string, guarded: bool)
    requires AllSpace(cut)
    ensures TextOf(Lex(body, Unquoted), guarded) == TextOf(Lex(body + cut, Unquoted), guarded) <==>
            cut == "" || (Ends(body, Unquoted) == Some(Unquoted) && (guarded || AllBlank(cut)))
  {
    hide Lex, TextOf, Ends;
    if cut == "" {
      assert body + cut == body;
    } else if Ends(body, Unquoted).None? {
      OpenEscapeTakesMore(body, cut, Unquoted, guarded);
    } else {
      var quote := Ends(body, Unquoted).value;
      LexConcat(body, cut, Unquoted);
      TextConcat(Lex(body, Unquoted), Lex(cut, quote), guarded);
      TextOfSpace(cut, quote, guarded);
      var kept, more := TextOf(Lex(body, Unquoted), guarded), TextOf(Lex(cut, quote), guarded);
      assert |kept + more| == |kept| + |more|;
    }
  }

  /** Stripping comes before lexing, so an escaped blank at the very end is not kept: these
      two commands name different files and share one normal form. */
  lemma EscapedBlankAtTheEndIsStripped()
    ensures Normalize("rm a\\ ") == Normalize("rm a\\")
    ensures "rm a\\ " != "rm a\\"
  {
    var s, t := "rm a\\ ", "rm a\\";
    assert s == "" + t + " " && |s| != |t|;
    EdgesDoNotMatter("", t, " ");
  }

  /** And so is a blank inside a quote that is still open. */
  lemma QuotedBlankAtTheEndIsStripped()
    ensures Normalize("echo 'a ") == Normalize("echo 'a")
    ensures "echo 'a " != "echo 'a"
  {
    var s, t := "echo 'a ", "echo 'a";
    assert s == "" + t + " " && |s| != |t|;
    EdgesDoNotMatter("", t, " ");
  }

  // ---- the scan in place

  method NormalizeCommand(command: string) returns (normal: Option<string>)
    ensures normal == Normalize(command)
  {
    var text := Strip(command);
    if text == "" { return None; }
    var out := ScanCommand(text);
    return Some(out);
  }

  lemma Reassociate(out: string, piece: string, rest: string)
    ensures out + (piece + rest) == (out + piece) + rest
  {
  }

  /** The scan as the source runs it: an index, a quote state, and a collapse flag. */
  method ScanCommand(text: string) returns (out: string)
    ensures out == Emit(text, Unquoted, false)
  {
    hide Emit;
    var quote, collapsed, index := Unquoted, false, 0;
    out := "";
    assert text[0..] == text;
    while index < |text|
      invariant 0 <= index <= |text|
      invariant out + Emit(text[index..], quote, collapsed) == Emit(text, Unquoted, false)
    {
      var c, piece := text[index], [text[index]];
      ghost var rest := text[index..];
      EmitStep(rest, quote, collapsed);
      assert rest[1..] == text[index + 1..];
      index := index + 1;
      if c == '\\' && quote != Single {
        if index < |text| {
          assert rest[..2] == piece + [text[index]] && rest[2..] == text[index + 1..];
          piece := piece + [text[index]];
          index := index + 1;
        } else {
          EmitNothing(quote);
          assert rest == piece && text[index..] == "" && piece + "" == piece;
        }
        collapsed := false;
      } else if quote == Unquoted && IsBlank(c) {
        piece := if collapsed then "" else " ";
        collapsed := true;
      } else {
        quote := Toggle(quote, c);
        collapsed := false;
      }
      Reassociate(out, piece, Emit(text[index..], quote, collapsed));
      out := out + piece;
    }
    assert text[index..] == "";
    EmitNothing(quote);
    assert out + "" == out;
  }
}
