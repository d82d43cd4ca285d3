/**
 From a shell command to a decision: the command is split, each stage is classified, and only a
 command of one stage can ask for more than reading.
 How one stage is classified is a parameter; everything here holds for any classifier.
 */
module BashAction {
  import opened Text
  import opened ShellSplit
  import opened Ownership

  /** `_bash_stage` on a stripped stage; the flag says that the command has several stages. */
  datatype StageResult =
    | Proved(kind: ActionClass, targets: seq<Option<Path>>)
    | Unproved(reason: string, construct: string)

  type Classifier = (string, bool) -> StageResult

  datatype Detail =
    | NoDetail
    | OfSplit(result: SplitResult)
    | OfStage(construct: string, index: nat, count: nat, operator: Option<string>)

  datatype Classified = Classified(action: Action, detail: Detail)

  function Unknown(reason: string, detail: Detail): Classified {
    Classified(Action(UnknownClass, [], false, reason), detail)
  }

  predicate IsRead(r: StageResult) {
    r.Proved? && r.kind == Read
  }

  /** The stages of a compound command from `k` on, given the targets read so far. */
  function Stages(
    stages: seq<string>, operators: seq<string>, k: nat, classify: Classifier, targets: seq<Option<Path>>): Classified
    requires |stages| == |operators| + 1 && k <= |stages|
    decreases |stages| - k
  {
    if k == |stages| then Classified(Action(Read, targets, true, ""), NoDetail)
    else
      var r := classify(Strip(stages[k]), true);
      if IsRead(r) then Stages(stages, operators, k + 1, classify, targets + r.targets)
      else
        var construct := if r.Unproved? then r.construct else "mutating_stage";
        Unknown("shell_unprovable", OfStage(construct, k + 1, |stages|, if k > 0 then Some(operators[k - 1]) else None))
  }

  lemma SplitIsShaped(cmd: string)
    requires SplitCompound(cmd).Split?
    ensures |SplitCompound(cmd).stages| == |SplitCompound(cmd).operators| + 1
    ensures |SplitCompound(cmd).stages| == 1 ==> SplitCompound(cmd).stages[0] == cmd
  {
    hide SplitCompound;
    SplitLosslessAndStable(cmd);
  }

  /** `_bash_action`. */
  function Classify(cmd: string, classify: Classifier): Classified {
    if Strip(cmd) == "" then Unknown("target_unresolved", NoDetail)
    else
      var split := SplitCompound(cmd);
      if !split.Split? then Unknown("shell_unprovable", OfSplit(split))
      else
        SplitIsShaped(cmd);
        if |split.stages| == 1 then
          match classify(Strip(split.stages[0]), false)
          case Unproved(reason, construct) => Unknown(reason, OfStage(construct, 1, 1, None))
          case Proved(kind, targets) => Classified(Action(kind, targets, true, ""), NoDetail)
        else Stages(split.stages, split.operators, 0, classify, [])
  }

  /** The classifying loop. */
  method ClassifyCommand(cmd: string, classify: Classifier) returns (res: Classified)
    ensures res == Classify(cmd, classify)
  {
    hide SplitCompound, Strip, Stages;
    if Strip(cmd) == "" { return Unknown("target_unresolved", NoDetail); }
    var split := SplitCommand(cmd);
    if !split.Split? { return Unknown("shell_unprovable", OfSplit(split)); }
    SplitIsShaped(cmd);
    var stages, operators := split.stages, split.operators;
    if |stages| == 1 {
      var r := classify(Strip(stages[0]), false);
      if r.Unproved? { return Unknown(r.reason, OfStage(r.construct, 1, 1, None)); }
      return Classified(Action(r.kind, r.targets, true, ""), NoDetail);
    }
    res := ReadStages(stages, operators, classify);
  }

  method ReadStages(stages: seq<string>, operators: seq<string>, classify: Classifier) returns (res: Classified)
    requires |stages| == |operators| + 1
    ensures res == Stages(stages, operators, 0, classify, [])
  {
    hide Strip;
    var targets: seq<Option<Path>> := [];
    for k := 0 to |stages|
      invariant Stages(stages, operators, k, classify, targets) == Stages(stages, operators, 0, classify, [])
    {
      var r := classify(Strip(stages[k]), true);
      if !IsRead(r) {
        var construct := if r.Unproved? then r.construct else "mutating_stage";
        var operator := if k > 0 then Some(operators[k - 1]) else None;
        return Unknown("shell_unprovable", OfStage(construct, k + 1, |stages|, operator));
      }
      targets := targets + r.targets;
    }
    return Classified(Action(Read, targets, true, ""), NoDetail);
  }

  // ---- what a compound command can be

  /** Everything the stages read, in order. */
  function Targets(stages: seq<string>, k: nat, classify: Classifier): seq<Option<Path>>
    requires k <= |stages|
    decreases |stages| - k
  {
    if k == |stages| then []
    else
      var r := classify(Strip(stages[k]), true);
      (if r.Proved? then r.targets else []) + Targets(stages, k + 1, classify)
  }

  predicate ReadsAt(stages: seq<string>, k: nat, classify: Classifier)
    requires k < |stages|
  {
    var r := classify(Strip(stages[k]), true);
    r.Proved? && r.kind == Read
  }

  /** Stage `j` is the first that is not proved to read, and is what the refusal tells: what stopped
      it, its number, how many there are, and the operator before it. */
  predicate StoppedAt(stages: seq<string>, operators: seq<string>, k: nat, j: nat, classify: Classifier, c: Classified)
    requires |stages| == |operators| + 1 && k <= j < |stages|
  {
    var r := classify(Strip(stages[j]), true);
    && !ReadsAt(stages, j, classify) && (forall i :: k <= i < j ==> ReadsAt(stages, i, classify))
    && c.action == Action(UnknownClass, [], false, "shell_unprovable")
    && c.detail.OfStage? && c.detail.index == j + 1 && c.detail.count == |stages|
    && c.detail.construct == (match r case Unproved(_, construct) => construct case Proved(_, _) => "mutating_stage")
    && (if j == 0 then c.detail.operator.None? else c.detail.operator == Some(operators[j - 1]))
  }

  lemma {:induction false} StagesExactly(
    stages: seq<string>, operators: seq<string>, k: nat, classify: Classifier, targets: seq<Option<Path>>)
    requires |stages| == |operators| + 1 && k <= |stages|
    ensures var c := Stages(stages, operators, k, classify, targets);
      if forall j :: k <= j < |stages| ==> ReadsAt(stages, j, classify)
      then c == Classified(Action(Read, targets + Targets(stages, k, classify), true, ""), NoDetail)
      else exists j :: k <= j < |stages| && StoppedAt(stages, operators, k, j, classify, c)
    decreases |stages| - k
  {
    hide Strip;
    if k < |stages| && ReadsAt(stages, k, classify) {
      var r := classify(Strip(stages[k]), true);
      StagesExactly(stages, operators, k + 1, classify, targets + r.targets);
      assert targets + r.targets + Targets(stages, k + 1, classify) == targets + Targets(stages, k, classify);
      var c, next := Stages(stages, operators, k, classify, targets), k + 1;
      if j :| next <= j < |stages| && StoppedAt(stages, operators, next, j, classify, c) {
        assert StoppedAt(stages, operators, k, j, classify, c);
      }
    } else if k < |stages| {
      assert StoppedAt(stages, operators, k, k, classify, Stages(stages, operators, k, classify, targets));
    }
  }

  /** A command is granted a write or a delete only as a whole: it splits into itself alone, the
      classifier proves it one, and every authority is justified for its target. */
  lemma OnlyWholeCommandsMutate(cmd: string, classify: Classifier, scope: OwnedScope, facts: map<Path, GitFacts>)
    requires Decide(Classify(cmd, classify).action, scope, facts).Allow?
    ensures SplitCompound(cmd) == Split([cmd], [])
    ensures var r := classify(Strip(cmd), false);
      r.Proved? && r.kind in {Write, Delete}
      && var d := Decide(Classify(cmd, classify).action, scope, facts);
      && |d.authorities| == |r.targets|
      && forall i :: 0 <= i < |r.targets| ==>
           r.targets[i].Some? && Justified(scope, r.kind, facts, r.targets[i].value, d.authorities[i])
  {
    hide SplitCompound, Strip, Stages, Justified;
    AllowedIsJustified(Classify(cmd, classify).action, scope, facts);
    hide Decide;
    SplitIsShaped(cmd);
    var split := SplitCompound(cmd);
    if |split.stages| > 1 {
      StagesExactly(split.stages, split.operators, 0, classify, []);
    } else {
      assert split.stages == [cmd] && split.operators == [];
    }
  }

  /** A command of several stages is let through exactly when every stage is proved to read and
      none of what they read is protected. */
  lemma CompoundReadsExactly(cmd: string, classify: Classifier, scope: OwnedScope, facts: map<Path, GitFacts>)
    requires Strip(cmd) != "" && SplitCompound(cmd).Split? && |SplitCompound(cmd).stages| > 1
    ensures var stages := SplitCompound(cmd).stages;
      var d := Decide(Classify(cmd, classify).action, scope, facts);
      !d.Deny? <==>
        && (forall k :: 0 <= k < |stages| ==> ReadsAt(stages, k, classify))
        && forall t :: t in Targets(stages, 0, classify) && t.Some? ==> !InsideAny(t.value, scope.protectedPaths)
  {
    hide SplitCompound, Strip, Stages, InsideAny;
    SplitIsShaped(cmd);
    var split := SplitCompound(cmd);
    StagesExactly(split.stages, split.operators, 0, classify, []);
    assert [] + Targets(split.stages, 0, classify) == Targets(split.stages, 0, classify);
  }

  /** A command resolves exactly when it is not blank and splits, and either is one stage that is proved
      or has several that are all proved to read; and then it asks for just what they ask for. */
  lemma ResolvesExactly(cmd: string, classify: Classifier)
    ensures var c, split := Classify(cmd, classify), SplitCompound(cmd);
      c.action.resolved <==>
        && Strip(cmd) != "" && split.Split?
        && if |split.stages| == 1 then classify(Strip(cmd), false).Proved?
           else forall k :: 0 <= k < |split.stages| ==> ReadsAt(split.stages, k, classify)
    ensures var c, split := Classify(cmd, classify), SplitCompound(cmd);
      c.action.resolved ==>
        if |split.stages| == 1 then classify(Strip(cmd), false) == Proved(c.action.kind, c.action.targets)
        else c.action.kind == Read && c.action.targets == Targets(split.stages, 0, classify)
  {
    hide SplitCompound, Strip, Stages;
    var split := SplitCompound(cmd);
    if split.Split? {
      SplitIsShaped(cmd);
      StagesExactly(split.stages, split.operators, 0, classify, []);
      assert [] + Targets(split.stages, 0, classify) == Targets(split.stages, 0, classify);
    }
  }
}
