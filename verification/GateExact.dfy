/**
 What the gate decides, told on the folded rows alone: when a proposal fits, when the current
 round recommends a close, which decision has the last word, which reasons block, and exactly
 when a finding is closed or refused, and why.
 */
module GateExact {
  import opened Text
  import opened Candidate
  import opened ChainRecord
  import opened ChainWalker
  import opened Gate

  // ---- proposals

  /** Every cited finding is known, open or closed, and of the session; and all are of one phase,
      the given one if there is one. */
  ghost predicate CitesOnly(p: ProposalRow, findings: map<string, FindingRow>, session: string, phase: string) {
    && (forall f :: f in p.findingIds ==>
          f in findings && findings[f].state in {Open, Closed} && findings[f].session == session)
    && exists one :: OfPhase(p.findingIds, findings, one) && (phase != "" ==> one == phase)
  }

  ghost predicate OfPhase(ids: seq<string>, findings: map<string, FindingRow>, phase: string) {
    forall f :: f in ids ==> f in findings && findings[f].phase == phase
  }

  /** The proposal names findings of the bound session, and changes just the gate candidate. */
  ghost predicate Fits(p: ProposalRow, fold: Fold, gate: Json, phase: string) {
    && p.findingIds != [] && Valid(gate) && p.changedCandidate == gate
    && fold.session.Some? && fold.session.value != ""
    && CitesOnly(p, fold.folded.findings, fold.session.value, phase)
  }

  /** Cited finding `i` is the first that is known and has a phase. */
  predicate FirstPhased(findings: map<string, FindingRow>, cited: seq<string>, i: nat) {
    && i < |cited| && cited[i] in findings && findings[cited[i]].phase != ""
    && forall j :: 0 <= j < i && cited[j] in findings ==> findings[cited[j]].phase == ""
  }

  lemma {:induction false} FirstPhaseExactly(findings: map<string, FindingRow>, cited: seq<string>)
    ensures var first := FirstCitedPhase(findings, cited);
      && (first.Some? <==> exists i :: FirstPhased(findings, cited, i))
      && (forall i: nat :: FirstPhased(findings, cited, i) ==> first == Some(findings[cited[i]].phase))
      && (first.None? ==> forall f :: f in cited && f in findings ==> findings[f].phase == "")
  {
    if cited != [] {
      var rest := cited[1..];
      FirstPhaseExactly(findings, rest);
      assert cited == [cited[0]] + rest;
      if cited[0] in findings && findings[cited[0]].phase != "" {
        assert FirstPhased(findings, cited, 0);
        forall i: nat | FirstPhased(findings, cited, i) ensures i == 0 { assert !(0 < i); }
      } else {
        forall i: nat ensures FirstPhased(findings, rest, i) <==> FirstPhased(findings, cited, i + 1) {
        }
        forall i: nat | FirstPhased(findings, cited, i) ensures i > 0 && FirstPhased(findings, rest, i - 1) {
        }
      }
    }
  }

  /** A proposal is found valid for a finding's phase exactly when it fits. */
  lemma FitsExactly(p: ProposalRow, fold: Fold, gate: Json, phase: string)
    ensures ValidFor(p, fold, gate, phase) <==> Fits(p, fold, gate, phase)
  {
    hide Valid;
    SameIsValidIdentity(p.changedCandidate, gate);
    if fold.session.Some? && fold.session.value != "" && p.findingIds != [] {
      var findings := fold.folded.findings;
      var scope := NonEmptyOr(Some(phase), FirstCitedPhase(findings, p.findingIds));
      NoCitedErrors(findings, fold.session.value, scope, p.findingIds);
      CitesOnlyExactly(p, findings, fold.session.value, phase);
      hide CitedErrors, CitesOnly, CitedFits, Same;
    }
  }

  lemma CitesOnlyExactly(p: ProposalRow, findings: map<string, FindingRow>, session: string, phase: string)
    requires p.findingIds != []
    ensures var scope := NonEmptyOr(Some(phase), FirstCitedPhase(findings, p.findingIds));
      (forall f :: f in p.findingIds ==> CitedFits(findings, session, scope, f)) <==>
          CitesOnly(p, findings, session, phase)
  {
    hide FirstCitedPhase, CitedFits, CitesOnly;
    var scope := NonEmptyOr(Some(phase), FirstCitedPhase(findings, p.findingIds));
    if forall f :: f in p.findingIds ==> CitedFits(findings, session, scope, f) {
      FitMeansOnly(p, findings, session, phase);
    }
    if CitesOnly(p, findings, session, phase) {
      forall f | f in p.findingIds ensures CitedFits(findings, session, scope, f) {
        OnlyMeansFit(p, findings, session, phase, f);
      }
    }
  }

  lemma FitMeansOnly(p: ProposalRow, findings: map<string, FindingRow>, session: string, phase: string)
    requires var scope := NonEmptyOr(Some(phase), FirstCitedPhase(findings, p.findingIds));
      forall f :: f in p.findingIds ==> CitedFits(findings, session, scope, f)
    ensures CitesOnly(p, findings, session, phase)
  {
    hide FirstCitedPhase;
    FirstPhaseExactly(findings, p.findingIds);
    var scope := NonEmptyOr(Some(phase), FirstCitedPhase(findings, p.findingIds));
    var one := if scope.Some? then scope.value else "";
    assert OfPhase(p.findingIds, findings, one);
  }

  lemma OnlyMeansFit(p: ProposalRow, findings: map<string, FindingRow>, session: string, phase: string, f: string)
    requires CitesOnly(p, findings, session, phase) && f in p.findingIds
    ensures CitedFits(findings, session, NonEmptyOr(Some(phase), FirstCitedPhase(findings, p.findingIds)), f)
  {
    hide FirstCitedPhase;
    FirstPhaseExactly(findings, p.findingIds);
  }

  // ---- the round that recommends

  /** Entry `k` is the last of its phase. */
  predicate LastOfPhase(rounds: seq<RoundRow>, k: nat, phase: string) {
    k < |rounds| && rounds[k].phase == phase && forall j :: k < j < |rounds| ==> rounds[j].phase != phase
  }

  /** The last round of the phase reviewed the gate candidate, and of the recommendations made in
      it some says closed and none says anything else that is an answer. */
  ghost predicate RoundSaysClosed(fold: Fold, id: string, phase: string, gate: Json) {
    phase != "" && Valid(gate) &&
    exists k: nat ::
      && LastOfPhase(fold.folded.rounds, k, phase)
      && var round := fold.folded.rounds[k];
      && round.candidate == gate
      && (exists e :: e in RowsOf(fold.folded.recommendations, id) && e.roundId == round.roundId
                       && e.recommend == "closed")
      && forall e :: e in RowsOf(fold.folded.recommendations, id) && e.roundId == round.roundId ==>
           e.recommend !in {"still_open", "withdrawn", "duplicate"}
  }

  lemma {:induction false} LatestRoundExactly(rounds: seq<RoundRow>, phase: string)
    ensures LatestRound(rounds, phase).None? <==> forall k: nat :: !LastOfPhase(rounds, k, phase)
    ensures forall k: nat :: LastOfPhase(rounds, k, phase) ==> LatestRound(rounds, phase) == Some(rounds[k])
  {
    if rounds != [] {
      var front, n := rounds[..|rounds| - 1], |rounds| - 1;
      LatestRoundExactly(front, phase);
      if rounds[n].phase == phase {
        assert LastOfPhase(rounds, n, phase);
        forall k: nat | LastOfPhase(rounds, k, phase) ensures k == n { assert !(k < n); }
      } else {
        forall k: nat ensures LastOfPhase(rounds, k, phase) <==> LastOfPhase(front, k, phase) {
        }
      }
    }
  }

  lemma RecommendedExactly(fold: Fold, id: string, phase: string, gate: Json)
    ensures RecommendedClosed(fold, id, phase, gate) <==> RoundSaysClosed(fold, id, phase, gate)
  {
    hide Valid, LatestRound;
    var rounds, entries := fold.folded.rounds, RowsOf(fold.folded.recommendations, id);
    LatestRoundExactly(rounds, phase);
    if LatestRound(rounds, phase).Some? {
      var k: nat :| LastOfPhase(rounds, k, phase);
      SameIsValidIdentity(rounds[k].candidate, gate);
      EntriesExactly(entries, rounds[k].roundId);
      forall j: nat | LastOfPhase(rounds, j, phase) ensures j == k { assert !(j < k) && !(k < j); }
    }
  }

  lemma EntriesExactly(entries: seq<RecommendationRow>, roundId: string)
    ensures (exists i :: 0 <= i < |entries| && SaysClosedAt(entries[i], roundId)) <==>
            exists e :: e in entries && e.roundId == roundId && e.recommend == "closed"
    ensures (forall i :: 0 <= i < |entries| ==> !SaysOtherwiseAt(entries[i], roundId)) <==>
            forall e :: e in entries && e.roundId == roundId ==>
                e.recommend !in {"still_open", "withdrawn", "duplicate"}
  {
    if e :| e in entries && e.roundId == roundId && e.recommend == "closed" {
      var i :| 0 <= i < |entries| && entries[i] == e;
      assert SaysClosedAt(entries[i], roundId);
    }
    if e :| e in entries && e.roundId == roundId && e.recommend in {"still_open", "withdrawn", "duplicate"} {
      var i :| 0 <= i < |entries| && entries[i] == e;
      assert SaysOtherwiseAt(entries[i], roundId);
    }
  }

  // ---- the decision that has the last word

  /** A decision made by one who may, on a valid candidate, whose answer the caller consumed. */
  predicate Heeded(d: DecisionRow, consumed: map<string, string>) {
    && Valid(d.candidate) && d.principal in {"supervisor_agent", "policy_principal"}
    && d.requestId != "" && d.answerSha256 != ""
    && d.requestId in consumed && consumed[d.requestId] == d.answerSha256
  }

  /** Ruling `k` of decision `i` is heeded and says `outcome` of the finding. */
  predicate Rules(ds: seq<DecisionRow>, i: nat, k: nat, id: string, consumed: map<string, string>, outcome: string) {
    i < |ds| && Heeded(ds[i], consumed) && k < |ds[i].adjudicates| && ds[i].adjudicates[k] == Ruling(id, outcome)
  }

  /** The newest heeded ruling on the finding is a close: none after it, in its decision or a later
      one, closes or upholds the finding. */
  ghost predicate AdjudicatedClosed(ds: seq<DecisionRow>, id: string, consumed: map<string, string>) {
    exists i, k :: Rules(ds, i, k, id, consumed, "close") && NoneNewer(ds, i, k, id, consumed)
  }

  ghost predicate NoneNewer(ds: seq<DecisionRow>, i: nat, k: nat, id: string, consumed: map<string, string>) {
    forall j: nat, l: nat :: (j > i || (j == i && l > k)) ==>
      !Rules(ds, j, l, id, consumed, "close") && !Rules(ds, j, l, id, consumed, "uphold")
  }

  lemma AdjudicatedExactly(ds: seq<DecisionRow>, id: string, consumed: map<string, string>)
    ensures LastRuling(ds, id, consumed) == Some("close") <==> AdjudicatedClosed(ds, id, consumed)
  {
    hide Valid, LastRuling;
    LastRulingExactly(ds, id, consumed, "close");
    if i: nat :| LastWord(ds, i, id, consumed, "close") {
      var k: nat :| LastAt(ds[i].adjudicates, k, id, "close");
      var r := ds[i].adjudicates[k];
      assert r == Ruling(r.findingId, r.outcome);
      assert Rules(ds, i, k, id, consumed, "close");
      forall j: nat, l: nat | j > i || (j == i && l > k)
        ensures !Rules(ds, j, l, id, consumed, "close") && !Rules(ds, j, l, id, consumed, "uphold")
      {
        if j < |ds| && Counts(ds[j], consumed) && l < |ds[j].adjudicates| {
          assert !Gate.Rules(ds[j].adjudicates[l], id);
        }
      }
    }
    if i: nat, k: nat :| Rules(ds, i, k, id, consumed, "close") && NoneNewer(ds, i, k, id, consumed) {
      NewestIsLastWord(ds, i, k, id, consumed);
    }
  }

  lemma NewestIsLastWord(ds: seq<DecisionRow>, i: nat, k: nat, id: string, consumed: map<string, string>)
    requires Rules(ds, i, k, id, consumed, "close") && NoneNewer(ds, i, k, id, consumed)
    ensures LastWord(ds, i, id, consumed, "close")
  {
    hide Valid;
    forall j, l | i <= j < |ds| && Counts(ds[j], consumed) && 0 <= l < |ds[j].adjudicates| && (j > i || l > k)
      ensures !Gate.Rules(ds[j].adjudicates[l], id)
    {
      var r := ds[j].adjudicates[l];
      assert r == Ruling(r.findingId, r.outcome);
      assert !Rules(ds, j, l, id, consumed, "close") && !Rules(ds, j, l, id, consumed, "uphold");
    }
    assert LastAt(ds[i].adjudicates, k, id, "close");
  }

  // ---- exactly when the gate closes

  /** A proposal of the fold that cites the finding and fits its phase. */
  ghost predicate Carrier(p: ProposalRow, fold: Fold, id: string, gate: Json)
    requires id in fold.folded.findings
  {
    p in fold.folded.proposals && id in p.findingIds && Fits(p, fold, gate, fold.folded.findings[id].phase)
  }

  /** Open in the bound session, on a gate candidate that can be compared. */
  predicate Closable(fold: Fold, id: string, gate: Json) {
    && id in fold.folded.findings && fold.folded.findings[id].state == Open && Valid(gate)
    && fold.session == Some(fold.folded.findings[id].session) && fold.folded.findings[id].session != ""
  }

  /** Every carrying proposal that needs a capability has it covered. */
  ghost predicate Granted(fold: Fold, id: string, gate: Json, coverage: map<string, bool>)
    requires id in fold.folded.findings
  {
    forall p :: Carrier(p, fold, id, gate) && p.needs != [] ==> p.id in coverage && coverage[p.id]
  }

  /** The finding asks for no witnesses, or there are screens and every one is approvable. */
  predicate Witnessed(row: FindingRow, screens: Option<seq<bool>>) {
    row.claimClass.None? || (screens.Some? && |screens.value| > 0 && false !in screens.value)
  }

  /** A decision closes the finding, or its current round does and a proposal carries it. */
  ghost predicate Based(fold: Fold, id: string, gate: Json, consumed: map<string, string>)
    requires id in fold.folded.findings
  {
    || AdjudicatedClosed(fold.folded.decisions, id, consumed)
    || (RoundSaysClosed(fold, id, fold.folded.findings[id].phase, gate) && exists p :: Carrier(p, fold, id, gate))
  }

  /** The gate closes exactly a closable finding with a basis, the capabilities and the witnesses. */
  lemma ClosesExactly(
    fold: Fold, id: string, gate: Json, screens: Option<seq<bool>>, coverage: map<string, bool>,
    consumed: map<string, string>)
    ensures ClosureDecision(fold, id, gate, screens, coverage, consumed).close <==>
            && Closable(fold, id, gate) && Granted(fold, id, gate, coverage)
            && Witnessed(fold.folded.findings[id], screens) && Based(fold, id, gate, consumed)
  {
    hide Valid, ClosureDecision, LastWord, RecommendedClosed, RoundSaysClosed, AdjudicatedClosed, ValidFor, Fits,
         LastRuling;
    ClosesByTier(fold, id, gate, screens, coverage, consumed);
    if id in fold.folded.findings {
      var row := fold.folded.findings[id];
      LastRulingExactly(fold.folded.decisions, id, consumed, "close");
      AdjudicatedExactly(fold.folded.decisions, id, consumed);
      RecommendedExactly(fold, id, row.phase, gate);
      forall p: ProposalRow ensures Carries(p, fold, id, row.phase, gate) <==> Carrier(p, fold, id, gate) {
        FitsExactly(p, fold, gate, row.phase);
      }
    }
  }

  /** Why it refuses a finding that is not closable: the first of these that applies. */
  lemma RefusesUnclosable(
    fold: Fold, id: string, gate: Json, screens: Option<seq<bool>>, coverage: map<string, bool>,
    consumed: map<string, string>)
    requires !Closable(fold, id, gate)
    ensures ClosureDecision(fold, id, gate, screens, coverage, consumed) ==
            Closure(false,
                    [if id !in fold.folded.findings then FindingUnknown
                     else if fold.folded.findings[id].state != Open then FindingNotOpen
                     else if !Valid(gate) then GateCandidateUnavailable
                     else Foreign],
                    None)
  {
    hide Valid, ValidProposals, CapabilityVeto, RecommendedClosed, LastRuling, WitnessOk, AnyInvalid;
  }

  lemma LaterTiers(
    fold: Fold, id: string, gate: Json, screens: Option<seq<bool>>, coverage: map<string, bool>,
    consumed: map<string, string>)
    requires Closable(fold, id, gate)
    ensures var row, ps := fold.folded.findings[id], fold.folded.proposals;
      var valid := ValidProposals(fold, ps, id, row.phase, gate);
      ClosureDecision(fold, id, gate, screens, coverage, consumed) ==
      if CapabilityVeto(valid, coverage).Some? then
        Closure(false, [CapabilityNotGranted], CapabilityVeto(valid, coverage))
      else if LastRuling(fold.folded.decisions, id, consumed) == Some("close")
              || (valid != [] && RecommendedClosed(fold, id, row.phase, gate)) then
        if WitnessOk(row, screens) then Closure(true, [], None) else Closure(false, [WitnessNotApprovable], None)
      else
        Closure(false, (if Same(row.candidate, gate) then [] else [FindingStale])
                       + (if AnyInvalid(fold, ps, id, row.phase, gate) then [CitingProposalInvalid] else [])
                       + [NoResolutionBasis], None)
  {
    hide Valid, Same, ValidProposals, CapabilityVeto, RecommendedClosed, LastRuling, WitnessOk, AnyInvalid;
  }

  lemma BasedExactly(fold: Fold, id: string, gate: Json, consumed: map<string, string>)
    requires id in fold.folded.findings
    ensures var phase := fold.folded.findings[id].phase;
      LastRuling(fold.folded.decisions, id, consumed) == Some("close")
      || (ValidProposals(fold, fold.folded.proposals, id, phase, gate) != []
          && RecommendedClosed(fold, id, phase, gate))
      <==> Based(fold, id, gate, consumed)
  {
    hide LastRuling, RecommendedClosed, ValidProposals, RoundSaysClosed, AdjudicatedClosed, Carrier;
    var valid := ValidProposals(fold, fold.folded.proposals, id, fold.folded.findings[id].phase, gate);
    AdjudicatedExactly(fold.folded.decisions, id, consumed);
    RecommendedExactly(fold, id, fold.folded.findings[id].phase, gate);
    CarriersExactly(fold, id, gate);
    if valid != [] { assert valid[0] in valid; }
  }

  /** Why it refuses a closable one. */
  lemma RefusesClosable(
    fold: Fold, id: string, gate: Json, screens: Option<seq<bool>>, coverage: map<string, bool>,
    consumed: map<string, string>)
    requires Closable(fold, id, gate)
    ensures var c, row := ClosureDecision(fold, id, gate, screens, coverage, consumed), fold.folded.findings[id];
      if !Granted(fold, id, gate, coverage) then
        && !c.close && c.reasons == [CapabilityNotGranted]
        && exists p :: Carrier(p, fold, id, gate) && p.needs != [] && c.escalation == Some(p.needs[0])
                       && !(p.id in coverage && coverage[p.id])
      else if !Based(fold, id, gate, consumed) then
        c == Closure(false, (if row.candidate == gate then [] else [FindingStale])
                            + (if exists p :: BadCiter(p, fold, id, gate) then [CitingProposalInvalid] else [])
                            + [NoResolutionBasis], None)
      else if !Witnessed(row, screens) then c == Closure(false, [WitnessNotApprovable], None)
      else c == Closure(true, [], None)
  {
    hide Valid, ClosureDecision, ValidProposals, CapabilityVeto, LastRuling, RecommendedClosed, AnyInvalid, Same, Based,
         Carrier, BadCiter, Fits;
    var row := fold.folded.findings[id];
    var valid := ValidProposals(fold, fold.folded.proposals, id, row.phase, gate);
    LaterTiers(fold, id, gate, screens, coverage, consumed);
    BasedExactly(fold, id, gate, consumed);
    SameIsValidIdentity(row.candidate, gate);
    CarriersExactly(fold, id, gate);
    VetoNames(valid, coverage);
    NoVetoExactly(valid, coverage);
    BadCitersExactly(fold, id, gate);
  }

  /** A proposal that cites the finding and does not fit. */
  ghost predicate BadCiter(p: ProposalRow, fold: Fold, id: string, gate: Json)
    requires id in fold.folded.findings
  {
    p in fold.folded.proposals && id in p.findingIds && !Fits(p, fold, gate, fold.folded.findings[id].phase)
  }

  lemma CarriersExactly(fold: Fold, id: string, gate: Json)
    requires id in fold.folded.findings
    ensures forall p :: p in ValidProposals(fold, fold.folded.proposals, id, fold.folded.findings[id].phase, gate) <==>
                        Carrier(p, fold, id, gate)
  {
    hide ValidFor, Fits, ValidProposals;
    var phase := fold.folded.findings[id].phase;
    forall p: ProposalRow
      ensures p in ValidProposals(fold, fold.folded.proposals, id, phase, gate) <==> Carrier(p, fold, id, gate)
    {
      ValidProposalsExactly(fold, fold.folded.proposals, id, phase, gate, p);
      FitsExactly(p, fold, gate, phase);
    }
  }

  lemma BadCitersExactly(fold: Fold, id: string, gate: Json)
    requires id in fold.folded.findings
    ensures AnyInvalid(fold, fold.folded.proposals, id, fold.folded.findings[id].phase, gate) <==>
            exists p :: BadCiter(p, fold, id, gate)
  {
    hide ValidFor, Fits;
    var phase, ps := fold.folded.findings[id].phase, fold.folded.proposals;
    forall p: ProposalRow ensures ValidFor(p, fold, gate, phase) <==> Fits(p, fold, gate, phase) {
      FitsExactly(p, fold, gate, phase);
    }
    if AnyInvalid(fold, ps, id, phase, gate) {
      var i :| 0 <= i < |ps| && id in ps[i].findingIds && !ValidFor(ps[i], fold, gate, phase);
      assert BadCiter(ps[i], fold, id, gate);
    }
    if p :| BadCiter(p, fold, id, gate) {
      var i :| 0 <= i < |ps| && ps[i] == p;
    }
  }

  lemma {:induction false} VetoNames(valid: seq<ProposalRow>, coverage: map<string, bool>)
    ensures CapabilityVeto(valid, coverage).Some? ==>
              exists p :: p in valid && p.needs != [] && CapabilityVeto(valid, coverage) == Some(p.needs[0])
                          && !(p.id in coverage && coverage[p.id])
  {
    if valid != [] {
      assert valid[0] in valid;
      if !(valid[0].needs != [] && !Covered(coverage, valid[0].id)) { VetoNames(valid[1..], coverage); }
    }
  }

  // ---- which reasons block

  /** The finding is open and blocking. */
  predicate Gates(fold: Fold, id: string) {
    id in fold.folded.findings && fold.folded.findings[id].state == Open && fold.folded.findings[id].blocking
  }

  /** The session and the phase a proposal is held to when the gate asks: its own, and where one is
      empty the chain's session and the first phase among the cited findings. */
  predicate CitedMisfit(p: ProposalRow, fold: Fold, session: string, phase: string, id: string) {
    var findings := fold.folded.findings;
    var first := FirstCitedPhase(findings, p.findingIds);
    id in p.findingIds &&
    !(id in findings && findings[id].state in {Open, Closed}
      && Some(findings[id].session) == (if session != "" then Some(session) else fold.session)
      && (if phase != "" then findings[id].phase == phase else first.Some? ==> findings[id].phase == first.value))
  }

  /** A proposal that cites a gating finding blames `id`: itself when it changes another candidate
      or no session is known, else each cited finding it cannot cite. */
  predicate Blames(p: ProposalRow, fold: Fold, session: string, phase: string, gate: Json, id: string) {
    && p in fold.folded.proposals
    && (exists f :: f in p.findingIds && Gates(fold, f))
    && if (session == "" && fold.session in {None, Some("")}) || p.changedCandidate != gate then id == p.id
       else CitedMisfit(p, fold, session, phase, id)
  }

  /** What a gating finding blocks with: it is foreign, or unresolved on the gate candidate, or stale. */
  predicate FindingBlocks(fold: Fold, session: string, phase: string, gate: Json, id: string, code: GateCode) {
    Gates(fold, id) &&
    var row := fold.folded.findings[id];
    if row.session != session || row.phase != phase then code == ForeignBinding
    else Valid(gate) && code == if row.candidate == gate then Unresolved else StaleCandidate
  }

  /** Why the gate blocks, reason by reason. */
  ghost predicate Blocks(
    meta: ReadMeta, fold: Fold, session: string, phase: string, gate: Json, r: GateReason)
  {
    match r.id
    case None =>
      || (r.code == HeadChanged && meta.head != fold.head)
      || (r.code == ForeignBinding && fold.session != Some(session))
      || (r.code == CandidateUnavailable && !Valid(gate))
    case Some(id) =>
      || FindingBlocks(fold, session, phase, gate, id, r.code)
      || (r.code == ProposalInvalid && Valid(gate) && exists p :: Blames(p, fold, session, phase, gate, id))
  }

  lemma FindingReasonsExactly(fold: Fold, session: string, phase: string, gate: Json, id: string, r: GateReason)
    ensures r in FindingReasons(fold, session, phase, gate, id) <==>
            r.id == Some(id) && FindingBlocks(fold, session, phase, gate, id, r.code)
  {
    hide Valid;
    if id in fold.folded.findings { SameIsValidIdentity(fold.folded.findings[id].candidate, gate); }
    hide Same;
  }

  lemma {:induction false} AllFindingReasonsExactly(
    fold: Fold, session: string, phase: string, gate: Json, ids: seq<string>, r: GateReason)
    ensures r in AllFindingReasons(fold, session, phase, gate, ids) <==>
            exists id :: id in ids && r in FindingReasons(fold, session, phase, gate, id)
  {
    hide FindingReasons;
    if ids != [] {
      AllFindingReasonsExactly(fold, session, phase, gate, ids[..|ids| - 1], r);
      assert ids == ids[..|ids| - 1] + [ids[|ids| - 1]];
    }
  }

  lemma {:induction false} CitedErrorsExactly(
    findings: map<string, FindingRow>, session: string, phase: Option<string>, cited: seq<string>, r: GateReason)
    ensures r in CitedErrors(findings, session, phase, cited) <==>
            r.code == ProposalInvalid && r.id.Some? && r.id.value in cited
            && !CitedFits(findings, session, phase, r.id.value)
  {
    hide CitedFits;
    if cited != [] {
      CitedErrorsExactly(findings, session, phase, cited[..|cited| - 1], r);
      assert cited == cited[..|cited| - 1] + [cited[|cited| - 1]];
    }
  }

  lemma ProposalReasonsExactly(fold: Fold, session: string, phase: string, gate: Json, p: ProposalRow, r: GateReason)
    requires Valid(gate) && p in fold.folded.proposals
    ensures r in ProposalReasons(fold, session, phase, gate, p) <==>
            r.code == ProposalInvalid && r.id.Some? && Blames(p, fold, session, phase, gate, r.id.value)
  {
    hide Valid, CitedErrors, FirstCitedPhase;
    SameIsValidIdentity(p.changedCandidate, gate);
    hide Same;
    CitesGatingExactly(p, fold);
    hide CitesGating;
    var findings := fold.folded.findings;
    var proven := NonEmptyOr(Some(session), fold.session);
    if proven.Some? {
      var scope := NonEmptyOr(Some(phase), FirstCitedPhase(findings, p.findingIds));
      CitedErrorsExactly(findings, proven.value, scope, p.findingIds, r);
      FirstPhaseExactly(findings, p.findingIds);
    }
  }

  lemma CitesGatingExactly(p: ProposalRow, fold: Fold)
    ensures CitesGating(p, fold.folded.findings) <==> exists f :: f in p.findingIds && Gates(fold, f)
    ensures CitesGating(p, fold.folded.findings) ==> p.findingIds != []
  {
    if f :| f in p.findingIds && Gates(fold, f) {
      var i :| 0 <= i < |p.findingIds| && p.findingIds[i] == f;
    }
    if CitesGating(p, fold.folded.findings) {
      var i :| 0 <= i < |p.findingIds| && p.findingIds[i] in fold.folded.findings
        && Gating(fold.folded.findings[p.findingIds[i]]);
      assert Gates(fold, p.findingIds[i]);
    }
  }

  lemma {:induction false} AllProposalReasonsExactly(
    fold: Fold, session: string, phase: string, gate: Json, ps: seq<ProposalRow>, r: GateReason)
    ensures r in AllProposalReasons(fold, session, phase, gate, ps) <==>
            exists p :: p in ps && r in ProposalReasons(fold, session, phase, gate, p)
  {
    hide ProposalReasons;
    if ps != [] {
      AllProposalReasonsExactly(fold, session, phase, gate, ps[..|ps| - 1], r);
      assert ps == ps[..|ps| - 1] + [ps[|ps| - 1]];
    }
  }

  /** On a good read the reasons given are exactly those that block; a bad read gives one. */
  lemma BlocksExactly(meta: ReadMeta, fold: Option<Fold>, session: string, phase: string, gate: Json, r: GateReason)
    requires fold.Some? ==> Listed(fold.value.folded)
    ensures var d := BlockingDecision(meta, fold, session, phase, gate);
      && d.blocked == (d.reasons != [])
      && (r in d.reasons <==>
            if !meta.ok || fold.None? then r == GateReason(None, ChainUnreadable)
            else Blocks(meta, fold.value, session, phase, gate, r))
      && d.head == if !meta.ok || fold.None? then meta.head else fold.value.head
  {
    hide Valid, AllFindingReasons, AllProposalReasons, Blames, FindingBlocks;
    if meta.ok && fold.Some? {
      FindingPart(fold.value, session, phase, gate, r);
      if Valid(gate) { ProposalPart(fold.value, session, phase, gate, r); }
    }
  }

  lemma FindingPart(fold: Fold, session: string, phase: string, gate: Json, r: GateReason)
    requires Listed(fold.folded)
    ensures r in AllFindingReasons(fold, session, phase, gate, fold.folded.findingOrder) <==>
            r.id.Some? && FindingBlocks(fold, session, phase, gate, r.id.value, r.code)
  {
    hide Valid, AllFindingReasons, FindingReasons, Listed, Gates;
    AllFindingReasonsExactly(fold, session, phase, gate, fold.folded.findingOrder, r);
    GatesAreListed(fold);
    forall id: string ensures r in FindingReasons(fold, session, phase, gate, id) <==>
                              r.id == Some(id) && FindingBlocks(fold, session, phase, gate, id, r.code)
    {
      FindingReasonsExactly(fold, session, phase, gate, id, r);
    }
  }

  lemma ProposalPart(fold: Fold, session: string, phase: string, gate: Json, r: GateReason)
    requires Valid(gate)
    ensures r in AllProposalReasons(fold, session, phase, gate, fold.folded.proposals) <==>
            r.code == ProposalInvalid && r.id.Some? && exists p :: Blames(p, fold, session, phase, gate, r.id.value)
  {
    hide Valid, AllProposalReasons, ProposalReasons, Blames;
    AllProposalReasonsExactly(fold, session, phase, gate, fold.folded.proposals, r);
    BlamersAreProposals(fold, session, phase, gate);
    forall p | p in fold.folded.proposals
      ensures r in ProposalReasons(fold, session, phase, gate, p) <==>
              r.code == ProposalInvalid && r.id.Some? && Blames(p, fold, session, phase, gate, r.id.value)
    {
      ProposalReasonsExactly(fold, session, phase, gate, p, r);
    }
  }

  lemma GatesAreListed(fold: Fold)
    requires Listed(fold.folded)
    ensures forall id :: Gates(fold, id) ==> id in fold.folded.findingOrder && id in fold.folded.findings
  {
  }

  lemma BlamersAreProposals(fold: Fold, session: string, phase: string, gate: Json)
    ensures forall p, id :: Blames(p, fold, session, phase, gate, id) ==> p in fold.folded.proposals
  {
  }
}
