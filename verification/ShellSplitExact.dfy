/**
 Exactly which commands split, and into what, told on characters: the splitter's scan, its flags
 and its checks are nowhere named. And what each refusal says about the command.
 */
module ShellSplitExact {
  import opened Text
  import opened ShellNormal
  import opened ShellSplit

  /** A stage that can be proved: no operator character, nothing the shell would expand, no
      control character, and something besides whitespace. */
  predicate StageOk(stage: string) {
    && (forall i :: 0 <= i < |stage| ==>
          stage[i] !in "|;&" && stage[i] !in "$`*?[]{}()!~" && 31 < stage[i] as int != 127)
    && exists i :: 0 <= i < |stage| && !IsSpace(stage[i])
  }

  /** An operator that belongs to a redirection: right after an angle bracket, or ampersands right
      before a closing one. */
  predicate Redirects(before: string, operator: string, after: string) {
    || (before != "" && before[|before| - 1] in "<>")
    || ((forall i :: 0 <= i < |operator| ==> operator[i] == '&') && after != "" && after[0] == '>')
  }

  /** Operator `k` is supported and stands outside quotes, escapes and redirections. */
  predicate Cuts(stages: seq<string>, operators: seq<string>, k: nat)
    requires |stages| == |operators| + 1 && k < |operators|
  {
    && (operators[k] == "&&" || operators[k] == ";" || operators[k] == "|")
    && Ends(stages[k], Unquoted) == Some(Unquoted) && !Redirects(stages[k], operators[k], stages[k + 1])
  }

  /** The command is these stages joined by these operators, each stage can be proved, each
      operator cuts, and the last stage leaves no quote open. */
  ghost predicate Decomposes(cmd: string, stages: seq<string>, operators: seq<string>) {
    && |stages| == |operators| + 1 && Rejoin(stages, operators) == cmd
    && (forall k :: 0 <= k < |stages| ==> StageOk(stages[k]))
    && (forall k :: 0 <= k < |operators| ==> Cuts(stages, operators, k))
    && QuoteAfter(stages[|stages| - 1], Unquoted) == Unquoted
  }

  // ---- a decomposition is what the scan finds

  /** The first part of a longer text without operators, closed where it ends, is prepended. */
  lemma {:induction false} ScanThrough(cmd: string, i: nat, j: nat, quote: Quote)
    requires i <= j < |cmd| && NoOperators(cmd[i..j]) && Ends(cmd[i..j], quote).Some?
    ensures Scan(cmd, i, quote) == Prepend(cmd[i..j], None, Scan(cmd, j, Ends(cmd[i..j], quote).value))
    decreases j - i
  {
    hide Toggle, Prepend, Cut, RunEnd, IsRedirectRun;
    var text := cmd[i..j];
    if i == j {
      PrependNothing(Scan(cmd, i, quote));
      assert text == "";
    } else {
      assert text[0] == cmd[i] && text[1..] == cmd[i + 1..j];
      if quote != Single && cmd[i] == '\\' {
        assert text[1] == cmd[i + 1] && text[2..] == cmd[i + 2..j];
        assert NoOperators(cmd[i + 2..j]);
        ScanThrough(cmd, i + 2, j, quote);
        assert cmd[i..i + 2] + cmd[i + 2..j] == text;
        PrependTwice(cmd[i..i + 2], cmd[i + 2..j], Scan(cmd, j, Ends(text, quote).value));
      } else {
        assert NoOperators(cmd[i + 1..j]);
        ScanThrough(cmd, i + 1, j, Toggle(quote, cmd[i]));
        assert [cmd[i]] + cmd[i + 1..j] == text;
        PrependTwice([cmd[i]], cmd[i + 1..j], Scan(cmd, j, Ends(text, quote).value));
      }
    }
  }

  lemma PrependNothing(sc: Scanned)
    requires Shaped(sc)
    ensures Prepend("", None, sc) == sc
  {
    assert "" + sc.stages[0] == sc.stages[0];
    assert [sc.stages[0]] + sc.stages[1..] == sc.stages && [sc.flags[0]] + sc.flags[1..] == sc.flags;
  }

  lemma PrependTwice(a: string, b: string, sc: Scanned)
    requires Shaped(sc)
    ensures Prepend(a, None, Prepend(b, None, sc)) == Prepend(a + b, None, sc)
  {
    assert a + (b + sc.stages[0]) == (a + b) + sc.stages[0];
  }

  function Unflagged(stages: seq<string>, operators: seq<string>, quote: Quote): Scanned {
    Scanned(stages, operators, seq(|stages|, _ => None), quote)
  }

  lemma RunEndExact(cmd: string, i: nat, j: nat)
    requires i <= j <= |cmd| && (forall k :: i <= k < j ==> IsOperatorChar(cmd[k]))
    requires j < |cmd| ==> !IsOperatorChar(cmd[j])
    ensures RunEnd(cmd, i) == j
  {
  }

  /** The suffix that starts with stage `m`. */
  ghost predicate Remains(cmd: string, i: nat, stages: seq<string>, operators: seq<string>) {
    i <= |cmd| && Decomposes(cmd[i..], stages, operators)
  }

  lemma {:induction false} ScanFinds(cmd: string, i: nat, stages: seq<string>, operators: seq<string>)
    requires Remains(cmd, i, stages, operators)
    ensures Scan(cmd, i, Unquoted) == Unflagged(stages, operators, Unquoted)
    decreases |stages|
  {
    hide QuoteAfter, Ends, Scan, StageOk, Cuts, Prepend, Cut;
    StagesFree(stages);
    if operators == [] {
      ScanTail(cmd, i, Unquoted);
      assert stages == [stages[0]] && cmd[i..] == stages[0];
    } else {
      var s, op, j := stages[0], operators[0], i + |stages[0]|;
      var end := j + |op|;
      FirstParts(cmd, i, stages, operators);
      ScanThrough(cmd, i, j, Unquoted);
      ScanFinds(cmd, end, stages[1..], operators[1..]);
      CutHere(cmd, i, stages, operators);
      PrependCut(s, op, stages[1..], operators[1..]);
      assert [s] + stages[1..] == stages && [op] + operators[1..] == operators;
    }
  }

  lemma StagesFree(stages: seq<string>)
    requires forall k :: 0 <= k < |stages| ==> StageOk(stages[k])
    ensures forall k :: 0 <= k < |stages| ==> NoOperators(stages[k]) && stages[k] != ""
  {
    forall k | 0 <= k < |stages| ensures NoOperators(stages[k]) && stages[k] != "" { StageFree(stages[k]); }
  }

  lemma StageFree(stage: string)
    requires StageOk(stage)
    ensures NoOperators(stage) && stage != ""
  {
  }

  lemma PrependCut(s: string, op: string, stages: seq<string>, operators: seq<string>)
    requires |stages| == |operators| + 1
    ensures Prepend(s, None, Cut(op, Unflagged(stages, operators, Unquoted))) ==
              Unflagged([s] + stages, [op] + operators, Unquoted)
  {
    var c := Cut(op, Unflagged(stages, operators, Unquoted));
    assert s + "" == s;
    assert c.stages[1..] == stages && c.flags[1..] == Unflagged(stages, operators, Unquoted).flags;
  }

  /** Where the first stage and the first operator of a decomposition lie. */
  lemma FirstParts(cmd: string, i: nat, stages: seq<string>, operators: seq<string>)
    requires Remains(cmd, i, stages, operators) && operators != []
    ensures var j := i + |stages[0]|;
      var end := j + |operators[0]|;
      && j < end < |cmd|
      && cmd[i..j] == stages[0] && cmd[j..end] == operators[0]
      && Remains(cmd, end, stages[1..], operators[1..])
      && Ends(stages[0], Unquoted) == Some(Unquoted)
  {
    hide QuoteAfter, Ends, StageOk;
    var s, op, rest := stages[0], operators[0], Rejoin(stages[1..], operators[1..]);
    assert cmd[i..] == s + op + rest;
    assert Cuts(stages, operators, 0);
    var j := i + |s|;
    var end := j + |op|;
    assert (s + op + rest)[..|s|] == s && (s + op + rest)[|s|..|s| + |op|] == op;
    assert (s + op + rest)[|s| + |op|..] == rest;
    assert cmd[i..][..|s|] == cmd[i..j] && cmd[i..][|s|..|s| + |op|] == cmd[j..end];
    assert cmd[i..][|s| + |op|..] == cmd[end..];
    var ss, os := stages[1..], operators[1..];
    forall k | 0 <= k < |os| ensures Cuts(ss, os, k) { assert Cuts(stages, operators, k + 1); }
    forall k | 0 <= k < |ss| ensures StageOk(ss[k]) { assert StageOk(stages[k + 1]); }
    FirstNonempty(ss, os);
  }

  lemma FirstNonempty(stages: seq<string>, operators: seq<string>)
    requires |stages| == |operators| + 1 && StageOk(stages[0])
    ensures Rejoin(stages, operators) != "" && stages[0] != ""
    ensures Rejoin(stages, operators)[0] == stages[0][0] && !IsOperatorChar(stages[0][0])
  {
  }

  /** And the scan cuts there. */
  lemma CutHere(cmd: string, i: nat, stages: seq<string>, operators: seq<string>)
    requires Remains(cmd, i, stages, operators) && operators != [] && |stages| == |operators| + 1
    ensures var j := i + |stages[0]|;
      var end := j + |operators[0]|;
      j < end <= |cmd| && Scan(cmd, j, Unquoted) == Cut(operators[0], Scan(cmd, end, Unquoted))
  {
    hide *;
    FirstParts(cmd, i, stages, operators);
    FirstChars(cmd, i, stages, operators);
    var j, op := i + |stages[0]|, operators[0];
    var end := j + |op|;
    assert cmd[j..end] == op;
    NoRedirectHere(cmd, j, end, stages[0], stages[1]);
    CutAt(cmd, j, end);
  }

  lemma FirstChars(cmd: string, i: nat, stages: seq<string>, operators: seq<string>)
    requires Remains(cmd, i, stages, operators) && operators != []
    ensures var s, op, j := stages[0], operators[0], i + |stages[0]|;
      var end := j + |op|;
      && 0 < j < end < |cmd| && s != "" && s[|s| - 1] == cmd[j - 1]
      && stages[1] != "" && stages[1][0] == cmd[end] && !IsOperatorChar(cmd[end])
      && (op == "&&" || op == ";" || op == "|") && !Redirects(s, op, stages[1])
  {
    hide QuoteAfter, Ends, Rejoin, Redirects;
    FirstParts(cmd, i, stages, operators);
    var s, op, j := stages[0], operators[0], i + |stages[0]|;
    var end := j + |op|;
    assert Cuts(stages, operators, 0) && StageOk(stages[0]) && StageOk(stages[1]);
    StageFree(s);
    assert cmd[i..j][|s| - 1] == cmd[j - 1];
    assert Remains(cmd, end, stages[1..], operators[1..]);
    FirstNonempty(stages[1..], operators[1..]);
    assert cmd[end..][0] == cmd[end];
  }

  /** Told on the command, an operator redirects as it does between its stages. */
  lemma NoRedirectHere(cmd: string, j: nat, end: nat, before: string, after: string)
    requires 0 < j < end < |cmd| && before != "" && before[|before| - 1] == cmd[j - 1]
    requires after != "" && after[0] == cmd[end]
    ensures IsRedirectRun(cmd, j, end) <==> Redirects(before, cmd[j..end], after)
  {
    var op := cmd[j..end];
    assert forall k :: j <= k < end ==> cmd[k] == op[k - j];
    assert forall k :: 0 <= k < |op| ==> op[k] == cmd[j + k];
  }

  lemma CutAt(cmd: string, j: nat, end: nat)
    requires j < end < |cmd| && !IsOperatorChar(cmd[end]) && !IsRedirectRun(cmd, j, end)
    requires cmd[j..end] == "&&" || cmd[j..end] == ";" || cmd[j..end] == "|"
    ensures Scan(cmd, j, Unquoted) == Cut(cmd[j..end], Scan(cmd, end, Unquoted))
  {
    hide IsRedirectRun, Cut;
    var op := cmd[j..end];
    OperatorChars(op);
    forall k | j <= k < end ensures IsOperatorChar(cmd[k]) { assert op[k - j] == cmd[k]; }
    RunEndExact(cmd, j, end);
    hide RunEnd;
    assert cmd[j] != '\\';
  }

  lemma OperatorChars(op: string)
    requires op == "&&" || op == ";" || op == "|"
    ensures op != "" && forall k :: 0 <= k < |op| ==> IsOperatorChar(op[k])
    ensures op in SUPPORTED_OPERATORS
  {
  }

  // ---- what the scan finds is a decomposition

  /** Where a stage is cut off unflagged, it is closed and its operator redirects nothing. `before`
      is the text in front of the first stage. */
  ghost predicate CutsTold(sc: Scanned, before: string, quote: Quote)
    requires Shaped(sc)
  {
    forall k :: 0 <= k < |sc.operators| && sc.flags[k].None? ==>
      && Ends(sc.stages[k], if k == 0 then quote else Unquoted) == Some(Unquoted)
      && !Redirects((if k == 0 then before else "") + sc.stages[k], sc.operators[k], sc.stages[k + 1])
  }

  lemma PrependCuts(text: string, flag: Option<Construct>, sc: Scanned, before: string, quote: Quote, after: Quote)
    requires Shaped(sc) && CutsTold(sc, before + text, after)
    requires sc.operators != [] ==> Ends(text + sc.stages[0], quote) == Ends(sc.stages[0], after)
    ensures CutsTold(Prepend(text, flag, sc), before, quote)
  {
    hide Ends, Redirects;
    var p := Prepend(text, flag, sc);
    Reassociate(before, text, sc.stages[0]);
    forall k | 0 <= k < |p.operators| && p.flags[k].None?
      ensures Ends(p.stages[k], if k == 0 then quote else Unquoted) == Some(Unquoted)
      ensures !Redirects((if k == 0 then before else "") + p.stages[k], p.operators[k], p.stages[k + 1])
    {
      assert sc.flags[k].None? && p.stages[k + 1] == sc.stages[k + 1];
      if k > 0 { assert p.stages[k] == sc.stages[k]; }
    }
  }

  lemma CutCuts(run: string, sc: Scanned, before: string)
    requires Shaped(sc) && run != "" && IsOperatorChar(run[|run| - 1]) && CutsTold(sc, before + run, Unquoted)
    requires !Redirects(before, run, sc.stages[0])
    ensures CutsTold(Cut(run, sc), before, Unquoted)
  {
    var c := Cut(run, sc);
    assert before + "" == before;
    assert forall k :: 0 < k < |c.stages| ==> c.stages[k] == sc.stages[k - 1] && c.flags[k] == sc.flags[k - 1];
    forall k | 0 <= k < |c.operators| && c.flags[k].None?
      ensures Ends(c.stages[k], Unquoted) == Some(Unquoted)
      ensures !Redirects((if k == 0 then before else "") + c.stages[k], c.operators[k], c.stages[k + 1])
    {
      if k > 0 {
        assert sc.flags[k - 1].None?;
        assert "" + c.stages[k] == c.stages[k];
      }
    }
  }

  lemma EndsAfter(text: string, rest: string, quote: Quote)
    requires |text| == 1 && (text[0] != '\\' || quote == Single)
    ensures Ends(text + rest, quote) == Ends(rest, Toggle(quote, text[0]))
  {
    assert (text + rest)[1..] == rest;
  }

  lemma EndsAfterPair(pair: string, rest: string, quote: Quote)
    requires |pair| == 2 && pair[0] == '\\' && quote != Single
    ensures Ends(pair + rest, quote) == Ends(rest, quote)
  {
    assert (pair + rest)[2..] == rest;
  }

  lemma {:induction false} ScanCuts(cmd: string, i: nat, quote: Quote)
    requires i <= |cmd|
    ensures CutsTold(Scan(cmd, i, quote), cmd[..i], quote)
    decreases |cmd| - i
  {
    hide CutsTold, Ends, Redirects, Prepend, Cut, Toggle, FlagIf, IsRedirectRun;
    if i == |cmd| {
      NoCuts(cmd, quote);
    } else {
      var c, end := cmd[i], RunEnd(cmd, i);
      var next := if i + 2 <= |cmd| then i + 2 else |cmd|;
      if quote == Single || (quote == Double && (c != '\\' || i + 1 == |cmd|)) || (c != '\\' && !IsOperatorChar(c)) {
        CharCuts(cmd, i, quote, if quote == Unquoted then None else FlagIf(IsOperatorChar(c), QuotedOperator));
      } else if c == '\\' {
        PairCuts(cmd, i, next, quote,
                 FlagIf(i + 1 < |cmd| && IsOperatorChar(cmd[i + 1]),
                        if quote == Double then QuotedOperator else EscapedOperator));
      } else {
        ScanCuts(cmd, end, Unquoted);
        assert cmd[..i] + cmd[i..end] == cmd[..end];
        if IsRedirectRun(cmd, i, end) {
          RedirectCuts(cmd[i..end], Scan(cmd, end, Unquoted), cmd[..i]);
        } else {
          RunCuts(cmd, i, end);
        }
      }
    }
  }

  lemma NoCuts(cmd: string, quote: Quote)
    ensures CutsTold(Scan(cmd, |cmd|, quote), cmd[..|cmd|], quote)
  {
  }

  lemma CharCuts(cmd: string, i: nat, quote: Quote, flag: Option<Construct>)
    requires i < |cmd| && (quote == Single || cmd[i] != '\\' || (quote == Double && i + 1 == |cmd|))
    ensures CutsTold(Prepend([cmd[i]], flag, Scan(cmd, i + 1, Toggle(quote, cmd[i]))), cmd[..i], quote)
    decreases |cmd| - i, 0
  {
    hide CutsTold, Ends, Redirects, Prepend, Toggle;
    var sc := Scan(cmd, i + 1, Toggle(quote, cmd[i]));
    ScanCuts(cmd, i + 1, Toggle(quote, cmd[i]));
    assert cmd[..i] + [cmd[i]] == cmd[..i + 1];
    if quote == Single || cmd[i] != '\\' { EndsAfter([cmd[i]], sc.stages[0], quote); }
    PrependCuts([cmd[i]], flag, sc, cmd[..i], quote, Toggle(quote, cmd[i]));
  }

  lemma PairCuts(cmd: string, i: nat, next: nat, quote: Quote, flag: Option<Construct>)
    requires i < |cmd| && cmd[i] == '\\' && quote != Single && next == (if i + 2 <= |cmd| then i + 2 else |cmd|)
    ensures CutsTold(Prepend(cmd[i..next], flag, Scan(cmd, next, quote)), cmd[..i], quote)
    decreases |cmd| - i, 0
  {
    hide CutsTold, Ends, Redirects, Prepend;
    var sc := Scan(cmd, next, quote);
    ScanCuts(cmd, next, quote);
    assert cmd[..i] + cmd[i..next] == cmd[..next];
    if i + 2 <= |cmd| { EndsAfterPair(cmd[i..next], sc.stages[0], quote); }
    PrependCuts(cmd[i..next], flag, sc, cmd[..i], quote, quote);
  }

  /** A flagged first stage has nothing to show. */
  lemma RedirectCuts(run: string, sc: Scanned, before: string)
    requires Shaped(sc) && CutsTold(sc, before + run, Unquoted)
    ensures CutsTold(Prepend(run, Some(Redirect(run)), sc), before, Unquoted)
  {
    hide Ends, Redirects;
    var p := Prepend(run, Some(Redirect(run)), sc);
    assert forall k :: 0 < k < |p.stages| ==> p.stages[k] == sc.stages[k] && p.flags[k] == sc.flags[k];
  }

  lemma RunCuts(cmd: string, i: nat, end: nat)
    requires i < |cmd| && IsOperatorChar(cmd[i]) && end == RunEnd(cmd, i) && !IsRedirectRun(cmd, i, end)
    requires CutsTold(Scan(cmd, end, Unquoted), cmd[..end], Unquoted)
    ensures CutsTold(Cut(cmd[i..end], Scan(cmd, end, Unquoted)), cmd[..i], Unquoted)
  {
    hide CutsTold, Cut, Ends, Redirects, IsRedirectRun;
    var sc, run := Scan(cmd, end, Unquoted), cmd[i..end];
    ScanLossless(cmd, end, Unquoted);
    FirstIsPrefix(sc.stages, sc.operators);
    if sc.stages[0] != "" { assert cmd[end..][0] == cmd[end]; }
    NoRedirectFound(cmd, i, end, sc.stages[0]);
    assert cmd[..i] + run == cmd[..end] && run[|run| - 1] == cmd[end - 1];
    hide Scan;
    CutCuts(run, sc, cmd[..i]);
  }

  lemma NoRedirectFound(cmd: string, i: nat, end: nat, after: string)
    requires i < end <= |cmd| && !IsRedirectRun(cmd, i, end)
    requires after != "" ==> end < |cmd| && after[0] == cmd[end]
    ensures !Redirects(cmd[..i], cmd[i..end], after)
  {
    var run := cmd[i..end];
    assert i > 0 ==> cmd[..i][i - 1] == cmd[i - 1];
    assert forall k :: i <= k < end ==> cmd[k] == run[k - i];
  }

  lemma FirstIsPrefix(stages: seq<string>, operators: seq<string>)
    requires |stages| == |operators| + 1
    ensures stages[0] <= Rejoin(stages, operators)
  {
  }

  // ---- exactly what splits

  lemma StageOkExactly(stage: string)
    ensures StageOk(stage) <==>
            NoOperators(stage) && Strip(stage) != "" && !Has(stage, IsControl) && !Has(stage, IsExpansion)
  {
    BlankExactly(stage);
  }

  lemma BlankExactly(s: string)
    ensures Strip(s) == "" <==> forall i :: 0 <= i < |s| ==> IsSpace(s[i])
  {
    hide IsSpace;
    StripLeftConcat(s, "");
    StripRightConcat("", StripLeft(s));
    CutOff(s);
  }

  lemma {:induction false} CutOff(s: string)
    ensures AllSpace(StripLeft(s)) ==> AllSpace(s)
  {
    hide IsSpace;
    if s != "" && IsSpace(s[0]) {
      CutOff(s[1..]);
      assert s == [s[0]] + s[1..];
    }
  }

  /** A command splits into these stages and operators exactly when it decomposes into them. */
  lemma SplitsExactly(cmd: string, stages: seq<string>, operators: seq<string>)
    ensures SplitCompound(cmd) == Split(stages, operators) <==> Decomposes(cmd, stages, operators)
  {
    if Decomposes(cmd, stages, operators) {
      assert cmd[0..] == cmd;
      ScanFinds(cmd, 0, stages, operators);
      FoundIsJudged(cmd, stages, operators);
    }
    if SplitCompound(cmd) == Split(stages, operators) {
      SplitDecomposes(cmd);
    }
  }

  lemma FoundIsJudged(cmd: string, stages: seq<string>, operators: seq<string>)
    requires Decomposes(cmd, stages, operators)
    requires Scan(cmd, 0, Unquoted) == Unflagged(stages, operators, Unquoted)
    ensures SplitCompound(cmd) == Split(stages, operators)
  {
    hide Scan, Rejoin, QuoteAfter, Judge, Strip, Has;
    var sc := Unflagged(stages, operators, Unquoted);
    forall k | 0 <= k < |stages| ensures StageFault(sc, k).None? {
      StageOkExactly(stages[k]);
      assert sc.flags[k].None?;
      if k < |operators| {
        assert Cuts(stages, operators, k);
        OperatorChars(operators[k]);
      }
    }
    JudgeExactly(sc, 0);
  }

  lemma SplitDecomposes(cmd: string)
    requires SplitCompound(cmd).Split?
    ensures Decomposes(cmd, SplitCompound(cmd).stages, SplitCompound(cmd).operators)
  {
    hide Scan, Judge, StageFault, StagesTold, QuoteAfter, Rejoin;
    var sc := Scan(cmd, 0, Unquoted);
    JudgeExactly(sc, 0);
    SplitLosslessAndStable(cmd);
    ScanCuts(cmd, 0, Unquoted);
    forall k | 0 <= k < |sc.stages| ensures StageOk(sc.stages[k]) && sc.flags[k].None? {
      FaultlessIsOk(sc, k);
    }
    forall k | 0 <= k < |sc.operators| ensures Cuts(sc.stages, sc.operators, k) {
      assert sc.operators[k] in SUPPORTED_OPERATORS && sc.flags[k].None?;
      assert cmd[..0] + sc.stages[k] == sc.stages[k] && "" + sc.stages[k] == sc.stages[k];
    }
  }

  lemma FaultlessIsOk(sc: Scanned, k: nat)
    requires Shaped(sc) && k < |sc.stages| && StageFault(sc, k).None? && NoOperators(sc.stages[k])
    ensures StageOk(sc.stages[k]) && sc.flags[k].None?
  {
    hide Strip, Has;
    StageOkExactly(sc.stages[k]);
  }

  // ---- what a refusal says

  /** A flagged stage holds an operator character that does not cut. */
  predicate FlagsTold(sc: Scanned)
    requires Shaped(sc)
  {
    forall k :: 0 <= k < |sc.stages| && sc.flags[k].Some? ==>
      !NoOperators(sc.stages[k]) && (sc.flags[k].value.QuotedOperator? || sc.flags[k].value.EscapedOperator?
                                     || sc.flags[k].value.Redirect?)
  }

  lemma PrependFlags(text: string, flag: Option<Construct>, sc: Scanned)
    requires Shaped(sc) && FlagsTold(sc)
    requires flag.Some? ==> !NoOperators(text)
                            && (flag.value.QuotedOperator? || flag.value.EscapedOperator? || flag.value.Redirect?)
    ensures FlagsTold(Prepend(text, flag, sc))
  {
    hide NoOperators;
    var p := Prepend(text, flag, sc);
    NoOperatorsConcat(text, sc.stages[0]);
    assert forall k :: 0 < k < |p.stages| ==> p.stages[k] == sc.stages[k] && p.flags[k] == sc.flags[k];
  }

  lemma NoOperatorsConcat(a: string, b: string)
    ensures NoOperators(a + b) <==> NoOperators(a) && NoOperators(b)
  {
    if NoOperators(a + b) {
      assert forall i :: 0 <= i < |a| ==> a[i] == (a + b)[i];
      assert forall i :: 0 <= i < |b| ==> b[i] == (a + b)[|a| + i];
    }
  }

  lemma CutFlags(run: string, sc: Scanned)
    requires Shaped(sc) && FlagsTold(sc)
    ensures FlagsTold(Cut(run, sc))
  {
    hide NoOperators;
    var c := Cut(run, sc);
    assert forall k :: 0 < k < |c.stages| ==> c.stages[k] == sc.stages[k - 1] && c.flags[k] == sc.flags[k - 1];
  }

  lemma {:induction false} ScanFlags(cmd: string, i: nat, quote: Quote)
    requires i <= |cmd|
    ensures FlagsTold(Scan(cmd, i, quote))
    decreases |cmd| - i
  {
    hide FlagsTold, Prepend, Cut, Toggle, IsRedirectRun;
    if i == |cmd| {
      EmptyFlags(quote);
    } else {
      var c, end := cmd[i], RunEnd(cmd, i);
      var next := if i + 2 <= |cmd| then i + 2 else |cmd|;
      if quote == Single || (quote == Double && (c != '\\' || i + 1 == |cmd|)) {
        ScanFlags(cmd, i + 1, Toggle(quote, c));
        assert [c][0] == c;
        PrependFlags([c], FlagIf(IsOperatorChar(c), QuotedOperator), Scan(cmd, i + 1, Toggle(quote, c)));
      } else if c == '\\' {
        ScanFlags(cmd, next, quote);
        if i + 1 < |cmd| { assert cmd[i..next][1] == cmd[i + 1]; }
        PrependFlags(cmd[i..next],
                     FlagIf(i + 1 < |cmd| && IsOperatorChar(cmd[i + 1]),
                            if quote == Double then QuotedOperator else EscapedOperator),
                     Scan(cmd, next, quote));
      } else if IsOperatorChar(c) {
        ScanFlags(cmd, end, Unquoted);
        assert cmd[i..end][0] == c;
        PrependFlags(cmd[i..end], Some(Redirect(cmd[i..end])), Scan(cmd, end, Unquoted));
        CutFlags(cmd[i..end], Scan(cmd, end, Unquoted));
      } else {
        ScanFlags(cmd, i + 1, Toggle(quote, c));
        PrependFlags([c], None, Scan(cmd, i + 1, Toggle(quote, c)));
      }
    }
  }

  lemma EmptyFlags(quote: Quote)
    ensures FlagsTold(Scanned([""], [], [None], quote))
  {
  }

  /** What is wrong with stage `k` of a joined command, by the name given to it. */
  ghost predicate Wrong(stages: seq<string>, operators: seq<string>, k: nat, fault: Construct)
    requires |stages| == |operators| + 1 && k < |stages|
  {
    match fault
    case Expansion => exists i :: 0 <= i < |stages[k]| && stages[k][i] in "$`*?[]{}()!~"
    case ControlCharacter => exists i :: 0 <= i < |stages[k]| && !(31 < stages[k][i] as int != 127)
    case EmptyStage => forall i :: 0 <= i < |stages[k]| ==> IsSpace(stages[k][i])
    case UnsupportedOperator => k < |operators| && operators[k] != "&&" && operators[k] != ";" && operators[k] != "|"
    case UnbalancedQuote => k == |operators|
    case _ => exists i :: 0 <= i < |stages[k]| && stages[k][i] in "|;&"
  }

  /** Stage `k` is the first that is wrong. */
  ghost predicate FirstWrong(cmd: string, stages: seq<string>, operators: seq<string>, k: nat, fault: Construct) {
    && |stages| == |operators| + 1 && k < |stages| && Rejoin(stages, operators) == cmd
    && Wrong(stages, operators, k, fault)
    && forall j :: 0 <= j < k ==>
         StageOk(stages[j]) && (operators[j] == "&&" || operators[j] == ";" || operators[j] == "|")
  }

  /** The operator told with a refusal: a redirect's own, the unsupported one, or else the one before
      the stage. */
  predicate OperatorTold(operators: seq<string>, k: nat, fault: Construct, operator: Option<string>) {
    if fault.Redirect? then operator == Some(fault.run)
    else
      var at := if fault == UnsupportedOperator then k as int else k - 1;
      operator == if 0 <= at < |operators| then Some(operators[at]) else None
  }

  /** A refusal tells the truth: the stage it points to is the first of the command with what it names. */
  lemma RefusalTellsTruth(cmd: string)
    ensures SplitCompound(cmd).Unprovable? ==>
              var u := SplitCompound(cmd);
              exists stages, operators, k: nat ::
                FirstWrong(cmd, stages, operators, k, u.construct) && u.stageIndex == k + 1 && u.stageCount == |stages|
                && OperatorTold(operators, k, u.construct, u.operator)
  {
    hide Scan, StageFault, FaultOperator, Rejoin, StageOk, Wrong, StagesTold, FlagsTold, OperatorTold;
    var sc := Scan(cmd, 0, Unquoted);
    assert cmd[0..] == cmd;
    ScanLossless(cmd, 0, Unquoted);
    ScanTold(cmd, 0, Unquoted);
    ScanFlags(cmd, 0, Unquoted);
    if SplitCompound(cmd).Unprovable? {
      var k := FirstFault(sc, 0);
      FaultIsWrong(sc, k);
      forall j | 0 <= j < k
        ensures StageOk(sc.stages[j])
        ensures sc.operators[j] == "&&" || sc.operators[j] == ";" || sc.operators[j] == "|"
      {
        NoFaultIsOk(sc, j);
      }
      assert FirstWrong(cmd, sc.stages, sc.operators, k, SplitCompound(cmd).construct);
    }
  }

  lemma {:induction false} FirstFault(sc: Scanned, from: nat) returns (k: nat)
    requires Shaped(sc) && from <= |sc.stages| && Judge(sc, from).Unprovable?
    ensures from <= k < |sc.stages| && (forall j :: from <= j < k ==> StageFault(sc, j).None?)
    ensures StageFault(sc, k) == Some(Judge(sc, from).construct)
    ensures Judge(sc, from).stageIndex == k + 1 && Judge(sc, from).stageCount == |sc.stages|
    ensures OperatorTold(sc.operators, k, Judge(sc, from).construct, Judge(sc, from).operator)
    decreases |sc.stages| - from
  {
    hide StageFault;
    if StageFault(sc, from).Some? { k := from; } else { k := FirstFault(sc, from + 1); }
  }

  lemma FaultIsWrong(sc: Scanned, k: nat)
    requires Shaped(sc) && k < |sc.stages| && FlagsTold(sc) && StageFault(sc, k).Some?
    ensures Wrong(sc.stages, sc.operators, k, StageFault(sc, k).value)
  {
    hide Strip, IsSpace;
    BlankExactly(sc.stages[k]);
  }

  lemma NoFaultIsOk(sc: Scanned, k: nat)
    requires Shaped(sc) && StagesTold(sc, Unquoted) && k < |sc.operators| && StageFault(sc, k).None?
    ensures StageOk(sc.stages[k])
    ensures sc.operators[k] == "&&" || sc.operators[k] == ";" || sc.operators[k] == "|"
  {
    hide Strip, Has, QuoteAfter;
    StageOkExactly(sc.stages[k]);
  }
}
