/**
 The quote-aware splitter: a command is cut at unquoted `&&`, `;` and `|`, and anything whose
 meaning the scan cannot prove makes the whole command unprovable.
 */
module ShellSplit {
  import opened Text
  import opened ShellNormal

  datatype Construct =
    | QuotedOperator | EscapedOperator | Redirect(run: string) | UnbalancedQuote
    | EmptyStage | ControlCharacter | Expansion | UnsupportedOperator

  /** The raw scan: stages with an operator between each two, at most one flag a stage (the
      first raised), and the quote state at the end. */
  datatype Scanned = Scanned(stages: seq<string>, operators: seq<string>, flags: seq<Option<Construct>>, quote: Quote)

  predicate Shaped(sc: Scanned) {
    |sc.stages| == |sc.flags| == |sc.operators| + 1
  }

  predicate IsOperatorChar(c: char) {
    c == '|' || c == ';' || c == '&'
  }

  const SUPPORTED_OPERATORS: set<string> := {"&&", ";", "|"}

  predicate IsControl(c: char) {
    c as int <= 0x1F || c as int == 0x7F
  }

  predicate IsExpansion(c: char) {
    c in "$`*?[]{}()!~"
  }

  predicate NoOperators(s: string) {
    forall i :: 0 <= i < |s| ==> !IsOperatorChar(s[i])
  }

  function FlagIf(condition: bool, flag: Construct): Option<Construct> {
    if condition then Some(flag) else None
  }

  function Either<T>(first: Option<T>, second: Option<T>): Option<T> {
    if first.Some? then first else second
  }

  /** The end of the run of operator characters at `i`. */
  function RunEnd(cmd: string, i: nat): (e: nat)
    requires i <= |cmd|
    ensures i <= e <= |cmd| && (forall k :: i <= k < e ==> IsOperatorChar(cmd[k]))
    ensures i < |cmd| && IsOperatorChar(cmd[i]) ==> i < e
    ensures e < |cmd| ==> !IsOperatorChar(cmd[e])
    decreases |cmd| - i
  {
    if i < |cmd| && IsOperatorChar(cmd[i]) then RunEnd(cmd, i + 1) else i
  }

  /** Redirect forms such as `2>&1`, `>|` and `&>` stay inside their stage. */
  predicate IsRedirectRun(cmd: string, i: nat, end: nat)
    requires i < end <= |cmd|
  {
    (i > 0 && (cmd[i - 1] == '<' || cmd[i - 1] == '>'))
    || ((forall k :: i <= k < end ==> cmd[k] == '&') && end < |cmd| && cmd[end] == '>')
  }

  /** Text at the front of the current stage. */
  function Prepend(text: string, flag: Option<Construct>, sc: Scanned): (r: Scanned)
    requires Shaped(sc)
    ensures Shaped(r)
  {
    sc.(stages := [text + sc.stages[0]] + sc.stages[1..], flags := [Either(flag, sc.flags[0])] + sc.flags[1..])
  }

  /** An operator that ends the current stage before it began. */
  function Cut(run: string, sc: Scanned): (r: Scanned)
    requires Shaped(sc)
    ensures Shaped(r)
  {
    sc.(stages := [""] + sc.stages, operators := [run] + sc.operators, flags := [None] + sc.flags)
  }

  /** The scan of `cmd[i..]` from a quote state. */
  function Scan(cmd: string, i: nat, quote: Quote): (sc: Scanned)
    requires i <= |cmd|
    ensures Shaped(sc)
    decreases |cmd| - i
  {
    if i == |cmd| then Scanned([""], [], [None], quote)
    else
      var c := cmd[i];
      var next := if i + 2 <= |cmd| then i + 2 else |cmd|;
      if quote == Single || (quote == Double && (c != '\\' || i + 1 == |cmd|)) then
        Prepend([c], FlagIf(IsOperatorChar(c), QuotedOperator), Scan(cmd, i + 1, Toggle(quote, c)))
      else if c == '\\' then
        Prepend(cmd[i..next],
                FlagIf(i + 1 < |cmd| && IsOperatorChar(cmd[i + 1]),
                       if quote == Double then QuotedOperator else EscapedOperator),
                Scan(cmd, next, quote))
      else if IsOperatorChar(c) then
        var end := RunEnd(cmd, i);
        if IsRedirectRun(cmd, i, end) then
          Prepend(cmd[i..end], Some(Redirect(cmd[i..end])), Scan(cmd, end, Unquoted))
        else Cut(cmd[i..end], Scan(cmd, end, Unquoted))
      else Prepend([c], None, Scan(cmd, i + 1, Toggle(quote, c)))
  }

  datatype SplitResult =
    | Split(stages: seq<string>, operators: seq<string>)
    | Unprovable(construct: Construct, stageIndex: nat, stageCount: nat, operator: Option<string>)

  /** The flag of a stage, an open quote counting against the last one. */
  function FlagAt(sc: Scanned, k: nat): Option<Construct>
    requires Shaped(sc) && k < |sc.stages|
  {
    if k == |sc.stages| - 1 && sc.quote != Unquoted then Some(UnbalancedQuote) else sc.flags[k]
  }

  predicate Has(s: string, p: char -> bool) {
    exists i :: 0 <= i < |s| && p(s[i])
  }

  /** What is wrong with stage `k`, if anything: the first check that fails. */
  function StageFault(sc: Scanned, k: nat): Option<Construct>
    requires Shaped(sc) && k < |sc.stages|
  {
    if FlagAt(sc, k).Some? then FlagAt(sc, k)
    else if Strip(sc.stages[k]) == "" then Some(EmptyStage)
    else if Has(sc.stages[k], IsControl) then Some(ControlCharacter)
    else if Has(sc.stages[k], IsExpansion) then Some(Expansion)
    else if k < |sc.operators| && sc.operators[k] !in SUPPORTED_OPERATORS then Some(UnsupportedOperator)
    else None
  }

  function FaultOperator(sc: Scanned, k: nat, fault: Construct): Option<string>
    requires Shaped(sc) && k < |sc.stages|
  {
    match fault
    case Redirect(run) => Some(run)
    case UnsupportedOperator => if k < |sc.operators| then Some(sc.operators[k]) else None
    case _ => if k > 0 then Some(sc.operators[k - 1]) else None
  }

  /** The first faulty stage from `k` on decides; without one the split stands. */
  function Judge(sc: Scanned, k: nat): SplitResult
    requires Shaped(sc) && k <= |sc.stages|
    decreases |sc.stages| - k
  {
    if k == |sc.stages| then Split(sc.stages, sc.operators)
    else match StageFault(sc, k)
      case None => Judge(sc, k + 1)
      case Some(fault) => Unprovable(fault, k + 1, |sc.stages|, FaultOperator(sc, k, fault))
  }

  /** `_split_compound`. */
  function SplitCompound(cmd: string): SplitResult {
    Judge(Scan(cmd, 0, Unquoted), 0)
  }

  lemma {:induction false} JudgeExactly(sc: Scanned, k: nat)
    requires Shaped(sc) && k <= |sc.stages|
    ensures Judge(sc, k).Split? <==> forall j :: k <= j < |sc.stages| ==> StageFault(sc, j).None?
    ensures Judge(sc, k).Split? ==> Judge(sc, k) == Split(sc.stages, sc.operators)
    decreases |sc.stages| - k
  {
    hide StageFault, FaultOperator;
    if k < |sc.stages| && StageFault(sc, k).None? {
      JudgeExactly(sc, k + 1);
    }
  }

  // ---- nothing is lost

  function Rejoin(stages: seq<string>, operators: seq<string>): string
    requires |stages| == |operators| + 1
  {
    if operators == [] then stages[0]
    else stages[0] + operators[0] + Rejoin(stages[1..], operators[1..])
  }

  lemma RejoinPrepend(text: string, flag: Option<Construct>, sc: Scanned)
    requires Shaped(sc)
    ensures var p := Prepend(text, flag, sc); Rejoin(p.stages, p.operators) == text + Rejoin(sc.stages, sc.operators)
  {
    assert Prepend(text, flag, sc).stages[1..] == sc.stages[1..];
    if sc.operators != [] {
      var rest := Rejoin(sc.stages[1..], sc.operators[1..]);
      assert (text + sc.stages[0]) + sc.operators[0] + rest == text + (sc.stages[0] + sc.operators[0] + rest);
    }
  }

  lemma RejoinCut(run: string, sc: Scanned)
    requires Shaped(sc)
    ensures Rejoin(Cut(run, sc).stages, Cut(run, sc).operators) == run + Rejoin(sc.stages, sc.operators)
  {
    var c := Cut(run, sc);
    assert c.stages[1..] == sc.stages && c.operators[1..] == sc.operators;
    assert "" + run == run;
  }

  lemma Slices(cmd: string, i: nat, j: nat)
    requires i < j <= |cmd|
    ensures cmd[i..] == cmd[i..j] + cmd[j..]
    ensures j == i + 1 ==> cmd[i..j] == [cmd[i]]
  {
  }

  lemma {:induction false} ScanLossless(cmd: string, i: nat, quote: Quote)
    requires i <= |cmd|
    ensures var sc := Scan(cmd, i, quote); Rejoin(sc.stages, sc.operators) == cmd[i..]
    decreases |cmd| - i
  {
    hide Prepend, Cut, IsRedirectRun, FlagIf, Toggle, IsOperatorChar;
    if i < |cmd| {
      hide Rejoin;
      var c, end := cmd[i], RunEnd(cmd, i);
      var next := if i + 2 <= |cmd| then i + 2 else |cmd|;
      if quote == Single || (quote == Double && (c != '\\' || i + 1 == |cmd|)) {
        ScanLossless(cmd, i + 1, Toggle(quote, c));
        RejoinPrepend([c], FlagIf(IsOperatorChar(c), QuotedOperator), Scan(cmd, i + 1, Toggle(quote, c)));
        Slices(cmd, i, i + 1);
      } else if c == '\\' {
        ScanLossless(cmd, next, quote);
        RejoinPrepend(cmd[i..next],
                      FlagIf(i + 1 < |cmd| && IsOperatorChar(cmd[i + 1]),
                             if quote == Double then QuotedOperator else EscapedOperator),
                      Scan(cmd, next, quote));
        Slices(cmd, i, next);
      } else if IsOperatorChar(c) {
        ScanLossless(cmd, end, Unquoted);
        RejoinPrepend(cmd[i..end], Some(Redirect(cmd[i..end])), Scan(cmd, end, Unquoted));
        RejoinCut(cmd[i..end], Scan(cmd, end, Unquoted));
        Slices(cmd, i, end);
      } else {
        ScanLossless(cmd, i + 1, Toggle(quote, c));
        RejoinPrepend([c], None, Scan(cmd, i + 1, Toggle(quote, c)));
        Slices(cmd, i, i + 1);
      }
    }
  }

  // ---- what a stage looks like

  /** The quote state after scanning a text on its own. */
  function QuoteAfter(text: string, quote: Quote): Quote
    decreases |text|
  {
    if text == "" then quote
    else if text[0] == '\\' && quote != Single && (quote == Unquoted || |text| > 1) then
      if |text| == 1 then quote else QuoteAfter(text[2..], quote)
    else QuoteAfter(text[1..], Toggle(quote, text[0]))
  }

  /** Each stage scanned on its own ends as the whole scan left it: outside quotes, or for the
      last stage in the final quote state; and unflagged stages hold no operator character. */
  ghost predicate StagesTold(sc: Scanned, quote: Quote)
    requires Shaped(sc)
  {
    && (forall k :: 0 <= k < |sc.stages| && sc.flags[k].None? ==> NoOperators(sc.stages[k]))
    && (forall k :: 0 <= k < |sc.stages| ==>
          QuoteAfter(sc.stages[k], if k == 0 then quote else Unquoted)
          == if k == |sc.stages| - 1 then sc.quote else Unquoted)
  }

  lemma PrependTold(text: string, flag: Option<Construct>, sc: Scanned, before: Quote, after: Quote)
    requires Shaped(sc) && StagesTold(sc, after)
    requires flag.None? ==> NoOperators(text)
    requires QuoteAfter(text + sc.stages[0], before) == QuoteAfter(sc.stages[0], after)
    ensures StagesTold(Prepend(text, flag, sc), before)
  {
    hide QuoteAfter;
    var p := Prepend(text, flag, sc);
    assert forall k :: 0 < k < |p.stages| ==> p.stages[k] == sc.stages[k] && p.flags[k] == sc.flags[k];
  }

  lemma CutTold(run: string, sc: Scanned)
    requires Shaped(sc) && StagesTold(sc, Unquoted)
    ensures StagesTold(Cut(run, sc), Unquoted)
  {
    var c := Cut(run, sc);
    assert forall k :: 0 < k < |c.stages| ==> c.stages[k] == sc.stages[k - 1] && c.flags[k] == sc.flags[k - 1];
    assert QuoteAfter("", Unquoted) == Unquoted;
    hide QuoteAfter;
  }

  lemma QuoteAfterChar(c: char, rest: string, quote: Quote)
    requires c != '\\' || quote == Single
    ensures QuoteAfter([c] + rest, quote) == QuoteAfter(rest, Toggle(quote, c))
  {
    assert ([c] + rest)[1..] == rest;
  }

  lemma QuoteAfterPair(pair: string, rest: string, quote: Quote)
    requires |pair| == 2 && pair[0] == '\\' && quote != Single
    ensures QuoteAfter(pair + rest, quote) == QuoteAfter(rest, quote)
  {
    assert (pair + rest)[2..] == rest;
  }

  lemma {:induction false} QuoteAfterRun(run: string, rest: string)
    requires forall i :: 0 <= i < |run| ==> IsOperatorChar(run[i])
    ensures QuoteAfter(run + rest, Unquoted) == QuoteAfter(rest, Unquoted)
  {
    if run == "" {
      assert run + rest == rest;
    } else {
      QuoteAfterRun(run[1..], rest);
      assert run + rest == [run[0]] + (run[1..] + rest);
      QuoteAfterChar(run[0], run[1..] + rest, Unquoted);
    }
  }

  lemma {:induction false} ScanTold(cmd: string, i: nat, quote: Quote)
    requires i <= |cmd|
    ensures StagesTold(Scan(cmd, i, quote), quote)
    decreases |cmd| - i
  {
    hide StagesTold, QuoteAfter, Prepend, Cut, IsRedirectRun;
    if i == |cmd| {
      EmptyTold(quote);
    } else {
      var c, end := cmd[i], RunEnd(cmd, i);
      if quote == Single || (quote == Double && (c != '\\' || i + 1 == |cmd|)) {
        var rest := Scan(cmd, i + 1, Toggle(quote, c));
        ScanTold(cmd, i + 1, Toggle(quote, c));
        if c == '\\' && quote == Double {
          LoneBackslash(Double);
          EmptyTold(Double);
          assert rest.stages[0] == "" && [c] == "\\";
        } else {
          QuoteAfterChar(c, rest.stages[0], quote);
        }
        PrependTold([c], FlagIf(IsOperatorChar(c), QuotedOperator), rest, quote, Toggle(quote, c));
      } else if c == '\\' {
        if i + 1 == |cmd| {
          EmptyTold(quote);
          LoneBackslash(quote);
          assert cmd[i..|cmd|] == [c] && [c] + "" == [c];
          PrependTold([c], None, Scan(cmd, |cmd|, quote), quote, quote);
        } else {
          var rest := Scan(cmd, i + 2, quote);
          ScanTold(cmd, i + 2, quote);
          QuoteAfterPair(cmd[i..i + 2], rest.stages[0], quote);
          PrependTold(cmd[i..i + 2],
                      FlagIf(IsOperatorChar(cmd[i + 1]), if quote == Double then QuotedOperator else EscapedOperator),
                      rest, quote, quote);
        }
      } else if IsOperatorChar(c) {
        var rest := Scan(cmd, end, Unquoted);
        ScanTold(cmd, end, Unquoted);
        QuoteAfterRun(cmd[i..end], rest.stages[0]);
        PrependTold(cmd[i..end], Some(Redirect(cmd[i..end])), rest, Unquoted, Unquoted);
        CutTold(cmd[i..end], rest);
      } else {
        var rest := Scan(cmd, i + 1, Toggle(quote, c));
        ScanTold(cmd, i + 1, Toggle(quote, c));
        QuoteAfterChar(c, rest.stages[0], quote);
        PrependTold([c], None, rest, quote, Toggle(quote, c));
      }
    }
  }

  lemma EmptyTold(quote: Quote)
    ensures StagesTold(Scanned([""], [], [None], quote), quote)
    ensures QuoteAfter("", quote) == quote
  {
  }

  lemma LoneBackslash(quote: Quote)
    requires quote != Single
    ensures QuoteAfter("\\", quote) == quote && "\\" + "" == "\\" && Toggle(quote, '\\') == quote
  {
    assert "\\"[1..] == "";
  }

  // ---- re-splitting a stage

  /** A rest without operator characters is one stage. */
  lemma {:induction false} ScanTail(cmd: string, i: nat, quote: Quote)
    requires i <= |cmd| && NoOperators(cmd[i..])
    ensures Scan(cmd, i, quote) == Scanned([cmd[i..]], [], [None], QuoteAfter(cmd[i..], quote))
    decreases |cmd| - i
  {
    hide Toggle, QuoteAfter, Prepend, Cut, RunEnd, IsRedirectRun;
    if i == |cmd| {
      assert cmd[i..] == "";
      QuoteAfterNothing(quote);
    } else {
      var c := cmd[i];
      assert cmd[i..][0] == c;
      if quote != Single && c == '\\' && i + 1 < |cmd| {
        assert cmd[i..][1] == cmd[i + 1] && NoOperators(cmd[i + 2..]);
        Slices(cmd, i, i + 2);
        ScanTail(cmd, i + 2, quote);
        QuoteAfterPair(cmd[i..i + 2], cmd[i + 2..], quote);
        PrependLone(cmd[i..i + 2], cmd[i + 2..], QuoteAfter(cmd[i + 2..], quote));
      } else {
        assert NoOperators(cmd[i + 1..]);
        Slices(cmd, i, i + 1);
        ScanTail(cmd, i + 1, Toggle(quote, c));
        PrependLone([c], cmd[i + 1..], QuoteAfter(cmd[i + 1..], Toggle(quote, c)));
        if c != '\\' || quote == Single {
          QuoteAfterChar(c, cmd[i + 1..], quote);
        } else {
          assert cmd[i..|cmd|] == [c] && cmd[i + 1..] == "" && [c] + "" == [c];
          LoneEscape(quote);
          QuoteAfterNothing(quote);
        }
      }
    }
  }

  lemma QuoteAfterNothing(quote: Quote)
    ensures QuoteAfter("", quote) == quote
  {
  }

  lemma LoneEscape(quote: Quote)
    ensures QuoteAfter("\\", quote) == quote && Toggle(quote, '\\') == quote
  {
  }

  lemma PrependLone(text: string, rest: string, quote: Quote)
    ensures Prepend(text, None, Scanned([rest], [], [None], quote)) == Scanned([text + rest], [], [None], quote)
  {
  }

  /** A successful split loses nothing: operators and stages interleave back to the command,
      only supported operators join them, and each stage is free of operator characters,
      closed in its quotes, and splits to itself alone. */
  lemma SplitLosslessAndStable(cmd: string)
    ensures var s := SplitCompound(cmd);
      s.Split? ==>
      && |s.stages| == |s.operators| + 1
      && Rejoin(s.stages, s.operators) == cmd
      && (forall k :: 0 <= k < |s.operators| ==> s.operators[k] in SUPPORTED_OPERATORS)
      && forall k :: 0 <= k < |s.stages| ==>
           NoOperators(s.stages[k]) && QuoteAfter(s.stages[k], Unquoted) == Unquoted
           && SplitCompound(s.stages[k]) == Split([s.stages[k]], [])
  {
    hide Scan, StagesTold, Judge;
    var sc := Scan(cmd, 0, Unquoted);
    JudgeExactly(sc, 0);
    ScanLossless(cmd, 0, Unquoted);
    ScanTold(cmd, 0, Unquoted);
    assert cmd[0..] == cmd;
    hide StageFault;
    if SplitCompound(cmd).Split? {
      forall k | 0 <= k < |sc.stages|
        ensures NoOperators(sc.stages[k]) && QuoteAfter(sc.stages[k], Unquoted) == Unquoted
        ensures SplitCompound(sc.stages[k]) == Split([sc.stages[k]], [])
      {
        StageStable(sc, k);
      }
      forall k | 0 <= k < |sc.operators| ensures sc.operators[k] in SUPPORTED_OPERATORS {
        assert StageFault(sc, k).None?;
        OperatorSupported(sc, k);
      }
    }
  }

  lemma OperatorSupported(sc: Scanned, k: nat)
    requires Shaped(sc) && k < |sc.operators| && StageFault(sc, k).None?
    ensures sc.operators[k] in SUPPORTED_OPERATORS
  {
  }

  lemma StageStable(sc: Scanned, k: nat)
    requires Shaped(sc) && StagesTold(sc, Unquoted) && k < |sc.stages|
    requires StageFault(sc, k).None?
    ensures NoOperators(sc.stages[k]) && QuoteAfter(sc.stages[k], Unquoted) == Unquoted
    ensures SplitCompound(sc.stages[k]) == Split([sc.stages[k]], [])
  {
    var text := sc.stages[k];
    hide Strip, Has, QuoteAfter;
    assert sc.flags[k].None?;
    assert text[0..] == text;
    ScanTail(text, 0, Unquoted);
    var alone := Scanned([text], [], [None], Unquoted);
    hide Scan;
    assert StageFault(alone, 0).None?;
    JudgeExactly(alone, 0);
  }

  // ---- the scan in place

  /** What the loop has collected so far, completed by the scan of the rest. */
  function Joined(stages: seq<string>, operators: seq<string>, flags: seq<Option<Construct>>,
                  current: string, flag: Option<Construct>, rest: Scanned): Scanned
    requires Shaped(rest)
  {
    var r := Prepend(current, flag, rest);
    Scanned(stages + r.stages, operators + r.operators, flags + r.flags, rest.quote)
  }

  lemma JoinedPrepend(stages: seq<string>, operators: seq<string>, flags: seq<Option<Construct>>,
                      current: string, flag: Option<Construct>, text: string, more: Option<Construct>, rest: Scanned)
    requires Shaped(rest)
    ensures Joined(stages, operators, flags, current, flag, Prepend(text, more, rest))
            == Joined(stages, operators, flags, current + text, Either(flag, more), rest)
  {
    assert current + (text + rest.stages[0]) == (current + text) + rest.stages[0];
    assert Prepend(current, flag, Prepend(text, more, rest)) == Prepend(current + text, Either(flag, more), rest);
  }

  lemma JoinedCut(stages: seq<string>, operators: seq<string>, flags: seq<Option<Construct>>,
                  current: string, flag: Option<Construct>, run: string, rest: Scanned)
    requires Shaped(rest)
    ensures Joined(stages, operators, flags, current, flag, Cut(run, rest))
            == Joined(stages + [current], operators + [run], flags + [flag], "", None, rest)
  {
    var a := Prepend(current, flag, Cut(run, rest));
    var b := Prepend("", None, rest);
    assert current + "" == current && "" + rest.stages[0] == rest.stages[0];
    assert b == rest;
    assert a.stages == [current] + rest.stages && a.flags == [flag] + rest.flags;
    assert stages + ([current] + rest.stages) == (stages + [current]) + rest.stages;
    assert flags + ([flag] + rest.flags) == (flags + [flag]) + rest.flags;
    assert operators + ([run] + rest.operators) == (operators + [run]) + rest.operators;
  }

  /** One step of the loop: the text it takes or the operator it cuts at, and the next state. */
  datatype Step = Take(text: string, flag: Option<Construct>, next: nat, quote: Quote) | CutAt(run: string, next: nat)

  method NextStep(cmd: string, i: nat, quote: Quote) returns (step: Step)
    requires i < |cmd|
    ensures i < step.next <= |cmd|
    ensures Scan(cmd, i, quote) ==
            match step
            case Take(text, flag, next, after) => Prepend(text, flag, Scan(cmd, next, after))
            case CutAt(run, next) => Cut(run, Scan(cmd, next, Unquoted))
  {
    hide Prepend, Cut;
    var c := cmd[i];
    if quote == Single || (quote == Double && (c != '\\' || i + 1 == |cmd|)) {
      return Take([c], FlagIf(IsOperatorChar(c), QuotedOperator), i + 1, Toggle(quote, c));
    }
    if c == '\\' {
      var next := if i + 2 <= |cmd| then i + 2 else |cmd|;
      return Take(cmd[i..next],
                  FlagIf(i + 1 < |cmd| && IsOperatorChar(cmd[i + 1]),
                         if quote == Double then QuotedOperator else EscapedOperator),
                  next, quote);
    }
    if IsOperatorChar(c) {
      var end := i;
      while end < |cmd| && IsOperatorChar(cmd[end])
        invariant i <= end <= |cmd| && RunEnd(cmd, end) == RunEnd(cmd, i)
      {
        end := end + 1;
      }
      if IsRedirectRun(cmd, i, end) {
        return Take(cmd[i..end], Some(Redirect(cmd[i..end])), end, Unquoted);
      }
      return CutAt(cmd[i..end], end);
    }
    return Take([c], None, i + 1, Toggle(quote, c));
  }

  /** The splitting loop and the judging loop. */
  method SplitCommand(cmd: string) returns (result: SplitResult)
    ensures result == SplitCompound(cmd)
  {
    hide Joined, Judge, Prepend, Cut;
    var stages: seq<string>, operators: seq<string>, flags: seq<Option<Construct>> := [], [], [];
    var current, flag: Option<Construct>, quote, i := "", None, Unquoted, 0;
    JoinedNothing(Scan(cmd, 0, Unquoted));
    while i < |cmd|
      invariant i <= |cmd| && |stages| == |operators| == |flags|
      invariant Joined(stages, operators, flags, current, flag, Scan(cmd, i, quote)) == Scan(cmd, 0, Unquoted)
      decreases |cmd| - i
    {
      var step := NextStep(cmd, i, quote);
      match step {
        case Take(text, more, next, after) =>
          JoinedPrepend(stages, operators, flags, current, flag, text, more, Scan(cmd, next, after));
          current, flag, i, quote := current + text, Either(flag, more), next, after;
        case CutAt(run, next) =>
          JoinedCut(stages, operators, flags, current, flag, run, Scan(cmd, next, Unquoted));
          stages, operators, flags := stages + [current], operators + [run], flags + [flag];
          current, flag, i, quote := "", None, next, Unquoted;
      }
    }
    JoinedEnd(stages, operators, flags, current, flag, quote);
    var scanned := Scanned(stages + [current], operators, flags + [flag], quote);
    result := JudgeStages(scanned);
  }

  lemma JoinedNothing(rest: Scanned)
    requires Shaped(rest)
    ensures Joined([], [], [], "", None, rest) == rest
  {
    assert "" + rest.stages[0] == rest.stages[0];
  }

  lemma JoinedEnd(stages: seq<string>, operators: seq<string>, flags: seq<Option<Construct>>,
                  current: string, flag: Option<Construct>, quote: Quote)
    ensures Joined(stages, operators, flags, current, flag, Scanned([""], [], [None], quote))
            == Scanned(stages + [current], operators, flags + [flag], quote)
  {
    assert current + "" == current && operators + [] == operators;
  }

  method JudgeStages(sc: Scanned) returns (result: SplitResult)
    requires Shaped(sc)
    ensures result == Judge(sc, 0)
  {
    hide StageFault, FaultOperator;
    for k := 0 to |sc.stages|
      invariant Judge(sc, 0) == Judge(sc, k)
    {
      var fault := StageFault(sc, k);
      if fault.Some? {
        return Unprovable(fault.value, k + 1, |sc.stages|, FaultOperator(sc, k, fault.value));
      }
    }
    return Split(sc.stages, sc.operators);
  }
}
