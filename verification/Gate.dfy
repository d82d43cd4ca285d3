/**
 The blocking gate and the closure predicate over a folded chain: which reasons block a
 phase, and when a finding may be closed.
 */
module Gate {
  import opened Text
  import opened Candidate
  import opened ChainRecord
  import opened ChainWalker

  /** What `fold` hands the gate. */
  datatype Fold = Fold(head: Option<string>, session: Option<string>, folded: Folded)

  datatype ReadMeta = ReadMeta(ok: bool, head: Option<string>)

  datatype GateCode =
    | Unresolved | StaleCandidate | ForeignBinding | ChainUnreadable | HeadChanged
    | ProposalInvalid | CandidateUnavailable

  datatype GateReason = GateReason(id: Option<string>, code: GateCode)

  datatype Blocking = Blocking(blocked: bool, reasons: seq<GateReason>, head: Option<string>)

  predicate Gating(row: FindingRow) {
    row.state == Open && row.blocking
  }

  // ---- proposals

  /** One cited finding fits a proposal: known, open or closed, of this session and phase. */
  predicate CitedFits(findings: map<string, FindingRow>, session: string, phase: Option<string>, id: string) {
    id in findings && findings[id].state in {Open, Closed}
    && findings[id].session == session && (phase.Some? ==> findings[id].phase == phase.value)
  }

  /** The cited ids that do not fit, each once, in order of first citation. */
  function CitedErrors(
    findings: map<string, FindingRow>, session: string, phase: Option<string>, cited: seq<string>): seq<GateReason> {
    if cited == [] then []
    else
      var last, front := cited[|cited| - 1], cited[..|cited| - 1];
      CitedErrors(findings, session, phase, front)
      + if last in front || CitedFits(findings, session, phase, last) then []
        else [GateReason(Some(last), ProposalInvalid)]
  }

  function FirstCitedPhase(findings: map<string, FindingRow>, cited: seq<string>): Option<string> {
    if cited == [] then None
    else if cited[0] in findings && findings[cited[0]].phase != "" then Some(findings[cited[0]].phase)
    else FirstCitedPhase(findings, cited[1..])
  }

  function NonEmptyOr(given: Option<string>, fallback: Option<string>): Option<string> {
    if given.Some? && given.value != "" then given
    else if fallback.Some? && fallback.value != "" then fallback
    else None
  }

  /** `validate_proposal`. Without `gate` no candidate is checked. */
  function ProposalErrors(
    p: ProposalRow, fold: Fold, gate: Option<Json>, session: Option<string>, phase: Option<string>,
    proposalId: Option<string>): seq<GateReason>
  {
    var proposalLevel := [GateReason(proposalId, ProposalInvalid)];
    var proven := NonEmptyOr(session, fold.session);
    if p.findingIds == [] || proven.None? then proposalLevel
    else if gate.Some? && !Same(p.changedCandidate, gate.value) then proposalLevel
    else
      CitedErrors(fold.folded.findings, proven.value,
                  NonEmptyOr(phase, FirstCitedPhase(fold.folded.findings, p.findingIds)), p.findingIds)
  }

  lemma {:induction false} NoCitedErrors(
    findings: map<string, FindingRow>, session: string, phase: Option<string>, cited: seq<string>)
    ensures CitedErrors(findings, session, phase, cited) == [] <==>
            forall id :: id in cited ==> CitedFits(findings, session, phase, id)
  {
    if cited != [] {
      var last, front := cited[|cited| - 1], cited[..|cited| - 1];
      NoCitedErrors(findings, session, phase, front);
      assert cited == front + [last];
    }
  }

  /** The validation loop, with its set of ids already seen. */
  method ValidateProposal(
    p: ProposalRow, fold: Fold, gate: Option<Json>, session: Option<string>, phase: Option<string>,
    proposalId: Option<string>) returns (reasons: seq<GateReason>)
    ensures reasons == ProposalErrors(p, fold, gate, session, phase, proposalId)
  {
    var proven := NonEmptyOr(session, fold.session);
    if p.findingIds == [] || proven.None? || (gate.Some? && !Same(p.changedCandidate, gate.value)) {
      return [GateReason(proposalId, ProposalInvalid)];
    }
    var findings, cited := fold.folded.findings, p.findingIds;
    var scope := NonEmptyOr(phase, FirstCitedPhase(findings, cited));
    var seen: set<string> := {};
    reasons := [];
    for i := 0 to |cited|
      invariant seen == set id | id in cited[..i]
      invariant reasons == CitedErrors(findings, proven.value, scope, cited[..i])
    {
      var id := cited[i];
      assert cited[..i + 1][..i] == cited[..i];
      assert cited[..i + 1] == cited[..i] + [id];
      if id !in seen {
        seen := seen + {id};
        if !CitedFits(findings, proven.value, scope, id) {
          reasons := reasons + [GateReason(Some(id), ProposalInvalid)];
        }
      }
    }
    assert cited[..|cited|] == cited;
  }

  // ---- blocking

  predicate CitesGating(p: ProposalRow, findings: map<string, FindingRow>) {
    exists i :: 0 <= i < |p.findingIds| && p.findingIds[i] in findings && Gating(findings[p.findingIds[i]])
  }

  /** The reasons one finding contributes. */
  function FindingReasons(fold: Fold, session: string, phase: string, gate: Json, id: string): seq<GateReason> {
    if id !in fold.folded.findings || !Gating(fold.folded.findings[id]) then []
    else
      var row := fold.folded.findings[id];
      if row.session != session || row.phase != phase then [GateReason(Some(id), ForeignBinding)]
      else if !Valid(gate) then []
      else if Same(row.candidate, gate) then [GateReason(Some(id), Unresolved)]
      else [GateReason(Some(id), StaleCandidate)]
  }

  function AllFindingReasons(
    fold: Fold, session: string, phase: string, gate: Json, ids: seq<string>): seq<GateReason> {
    if ids == [] then []
    else AllFindingReasons(fold, session, phase, gate, ids[..|ids| - 1])
         + FindingReasons(fold, session, phase, gate, ids[|ids| - 1])
  }

  function ProposalReasons(fold: Fold, session: string, phase: string, gate: Json, p: ProposalRow): seq<GateReason> {
    if CitesGating(p, fold.folded.findings)
    then ProposalErrors(p, fold, Some(gate), Some(session), Some(phase), Some(p.id))
    else []
  }

  function AllProposalReasons(
    fold: Fold, session: string, phase: string, gate: Json, ps: seq<ProposalRow>): seq<GateReason> {
    if ps == [] then []
    else AllProposalReasons(fold, session, phase, gate, ps[..|ps| - 1])
         + ProposalReasons(fold, session, phase, gate, ps[|ps| - 1])
  }

  function When(condition: bool, code: GateCode): seq<GateReason> {
    if condition then [GateReason(None, code)] else []
  }

  /** `blocking_decision`: chain-level reasons, then one per gating finding, then proposals. */
  function BlockingDecision(meta: ReadMeta, fold: Option<Fold>, session: string, phase: string, gate: Json): Blocking {
    if !meta.ok || fold.None? then Blocking(true, [GateReason(None, ChainUnreadable)], meta.head)
    else
      var reasons :=
        When(meta.head != fold.value.head, HeadChanged)
        + When(fold.value.session != Some(session), ForeignBinding)
        + When(!Valid(gate), CandidateUnavailable)
        + AllFindingReasons(fold.value, session, phase, gate, fold.value.folded.findingOrder)
        + if Valid(gate) then AllProposalReasons(fold.value, session, phase, gate, fold.value.folded.proposals)
          else [];
      Blocking(reasons != [], reasons, fold.value.head)
  }

  method FindingsLoop(fold: Fold, session: string, phase: string, gate: Json) returns (reasons: seq<GateReason>)
    ensures reasons == AllFindingReasons(fold, session, phase, gate, fold.folded.findingOrder)
  {
    hide FindingReasons;
    var ids := fold.folded.findingOrder;
    reasons := [];
    for i := 0 to |ids|
      invariant reasons == AllFindingReasons(fold, session, phase, gate, ids[..i])
    {
      assert ids[..i + 1][..i] == ids[..i];
      reasons := reasons + FindingReasons(fold, session, phase, gate, ids[i]);
    }
    assert ids[..|ids|] == ids;
  }

  method ProposalsLoop(fold: Fold, session: string, phase: string, gate: Json) returns (reasons: seq<GateReason>)
    ensures reasons == AllProposalReasons(fold, session, phase, gate, fold.folded.proposals)
  {
    hide ProposalErrors, CitesGating;
    var ps := fold.folded.proposals;
    reasons := [];
    for i := 0 to |ps|
      invariant reasons == AllProposalReasons(fold, session, phase, gate, ps[..i])
    {
      assert ps[..i + 1][..i] == ps[..i];
      if CitesGating(ps[i], fold.folded.findings) {
        var more := ValidateProposal(ps[i], fold, Some(gate), Some(session), Some(phase), Some(ps[i].id));
        reasons := reasons + more;
      }
    }
    assert ps[..|ps|] == ps;
  }

  method Block(meta: ReadMeta, fold: Option<Fold>, session: string, phase: string, gate: Json)
    returns (decision: Blocking)
    ensures decision == BlockingDecision(meta, fold, session, phase, gate)
  {
    hide Valid;
    if !meta.ok || fold.None? {
      return Blocking(true, [GateReason(None, ChainUnreadable)], meta.head);
    }
    var reasons := When(meta.head != fold.value.head, HeadChanged)
                   + When(fold.value.session != Some(session), ForeignBinding)
                   + When(!Valid(gate), CandidateUnavailable);
    var more := FindingsLoop(fold.value, session, phase, gate);
    reasons := reasons + more;
    if Valid(gate) {
      more := ProposalsLoop(fold.value, session, phase, gate);
      reasons := reasons + more;
    }
    return Blocking(reasons != [], reasons, fold.value.head);
  }

  /** The folded findings are listed once each: what every accepted chain folds to. */
  ghost predicate Listed(folded: Folded) {
    forall id :: id in folded.findings <==> id in folded.findingOrder
  }

  lemma {:induction false} SomeFindingReason(
    fold: Fold, session: string, phase: string, gate: Json, ids: seq<string>)
    requires Valid(gate)
    ensures AllFindingReasons(fold, session, phase, gate, ids) == [] <==>
            forall id :: id in ids && id in fold.folded.findings ==> !Gating(fold.folded.findings[id])
  {
    hide Valid, Same;
    if ids != [] {
      var front, last := ids[..|ids| - 1], ids[|ids| - 1];
      SomeFindingReason(fold, session, phase, gate, front);
      assert ids == front + [last];
    }
  }

  lemma {:induction false} NoGatingNoProposalReasons(
    fold: Fold, session: string, phase: string, gate: Json, ps: seq<ProposalRow>)
    requires forall id :: id in fold.folded.findings ==> !Gating(fold.folded.findings[id])
    ensures AllProposalReasons(fold, session, phase, gate, ps) == []
  {
    hide Gating, ProposalErrors;
    if ps != [] {
      NoGatingNoProposalReasons(fold, session, phase, gate, ps[..|ps| - 1]);
    }
  }

  /** The gate is open exactly when the read is good, head and session are the expected ones,
      the gate candidate is valid, and no blocking finding is open. A bad proposal is never
      the only reason. */
  lemma BlockedExactly(meta: ReadMeta, fold: Fold, session: string, phase: string, gate: Json)
    requires Listed(fold.folded)
    ensures !BlockingDecision(meta, Some(fold), session, phase, gate).blocked <==>
            meta.ok && meta.head == fold.head && fold.session == Some(session) && Valid(gate)
            && forall id :: id in fold.folded.findings ==> !Gating(fold.folded.findings[id])
  {
    hide Valid, Gating, FindingReasons, ProposalReasons;
    var ids := fold.folded.findingOrder;
    if Valid(gate) {
      SomeFindingReason(fold, session, phase, gate, ids);
      if AllFindingReasons(fold, session, phase, gate, ids) == [] {
        NoGatingNoProposalReasons(fold, session, phase, gate, fold.folded.proposals);
      }
    }
  }

  // ---- closing

  datatype ClosureCode =
    | CapabilityNotGranted | GateCandidateUnavailable | FindingStale | CitingProposalInvalid
    | FindingUnknown | FindingNotOpen | Foreign | NoResolutionBasis | WitnessNotApprovable

  datatype Closure = Closure(close: bool, reasons: seq<ClosureCode>, escalation: Option<string>)

  predicate ValidFor(p: ProposalRow, fold: Fold, gate: Json, phase: string) {
    ProposalErrors(p, fold, Some(gate), fold.session, Some(phase), Some(p.id)) == []
  }

  /** The valid proposals that cite the finding, in order. */
  function ValidProposals(fold: Fold, ps: seq<ProposalRow>, id: string, phase: string, gate: Json): seq<ProposalRow> {
    if ps == [] then []
    else
      var p := ps[|ps| - 1];
      ValidProposals(fold, ps[..|ps| - 1], id, phase, gate)
      + if id in p.findingIds && ValidFor(p, fold, gate, phase) then [p] else []
  }

  predicate AnyInvalid(fold: Fold, ps: seq<ProposalRow>, id: string, phase: string, gate: Json) {
    exists i :: 0 <= i < |ps| && id in ps[i].findingIds && !ValidFor(ps[i], fold, gate, phase)
  }

  predicate Covered(coverage: map<string, bool>, id: string) {
    id in coverage && coverage[id]
  }

  /** The first uncovered capability a valid citing proposal needs. */
  function CapabilityVeto(valid: seq<ProposalRow>, coverage: map<string, bool>): Option<string> {
    if valid == [] then None
    else if valid[0].needs != [] && !Covered(coverage, valid[0].id) then Some(valid[0].needs[0])
    else CapabilityVeto(valid[1..], coverage)
  }

  function LatestRound(rounds: seq<RoundRow>, phase: string): Option<RoundRow> {
    if rounds == [] then None
    else if rounds[|rounds| - 1].phase == phase then Some(rounds[|rounds| - 1])
    else LatestRound(rounds[..|rounds| - 1], phase)
  }

  predicate SaysClosedAt(entry: RecommendationRow, roundId: string) {
    entry.roundId == roundId && entry.recommend == "closed"
  }

  predicate SaysOtherwiseAt(entry: RecommendationRow, roundId: string) {
    entry.roundId == roundId && entry.recommend in {"still_open", "withdrawn", "duplicate"}
  }

  /** `_current_round_recommends_closed`. */
  predicate RecommendedClosed(fold: Fold, id: string, phase: string, gate: Json) {
    phase != "" &&
    var latest := LatestRound(fold.folded.rounds, phase);
    latest.Some? && Same(latest.value.candidate, gate) &&
    var entries := RowsOf(fold.folded.recommendations, id);
    (exists i :: 0 <= i < |entries| && SaysClosedAt(entries[i], latest.value.roundId))
    && (forall i :: 0 <= i < |entries| ==> !SaysOtherwiseAt(entries[i], latest.value.roundId))
  }

  method CurrentRoundRecommendsClosed(fold: Fold, id: string, phase: string, gate: Json) returns (closed: bool)
    ensures closed <==> RecommendedClosed(fold, id, phase, gate)
  {
    hide Same;
    if phase == "" { return false; }
    var rounds := fold.folded.rounds;
    var latest: Option<RoundRow> := None;
    for i := 0 to |rounds|
      invariant latest == LatestRound(rounds[..i], phase)
    {
      assert rounds[..i + 1][..i] == rounds[..i];
      if rounds[i].phase == phase { latest := Some(rounds[i]); }
    }
    assert rounds[..|rounds|] == rounds;
    if latest.None? || !Same(latest.value.candidate, gate) { return false; }
    var entries := RowsOf(fold.folded.recommendations, id);
    closed := false;
    for i := 0 to |entries|
      invariant closed <==> exists j :: 0 <= j < i && SaysClosedAt(entries[j], latest.value.roundId)
      invariant forall j :: 0 <= j < i ==> !SaysOtherwiseAt(entries[j], latest.value.roundId)
    {
      if entries[i].roundId == latest.value.roundId {
        if entries[i].recommend == "closed" {
          closed := true;
          assert SaysClosedAt(entries[i], latest.value.roundId);
        } else if entries[i].recommend in {"still_open", "withdrawn", "duplicate"} {
          assert SaysOtherwiseAt(entries[i], latest.value.roundId);
          return false;
        }
      }
    }
  }

  /** A decision counts when it has a candidate, an authorized principal, and an answer the
      caller has consumed. */
  predicate Counts(d: DecisionRow, consumed: map<string, string>) {
    Valid(d.candidate) && d.requestId != "" && d.answerSha256 != ""
    && d.requestId in consumed && consumed[d.requestId] == d.answerSha256
    && d.principal in DECISION_PRINCIPALS
  }

  function LastRulingIn(rulings: seq<Ruling>, id: string): Option<string> {
    if rulings == [] then None
    else
      var r := rulings[|rulings| - 1];
      if r.findingId == id && r.outcome in {"close", "uphold"} then Some(r.outcome)
      else LastRulingIn(rulings[..|rulings| - 1], id)
  }

  /** The latest ruling on the finding among the decisions that count. */
  function LastRuling(ds: seq<DecisionRow>, id: string, consumed: map<string, string>): Option<string> {
    if ds == [] then None
    else
      var d := ds[|ds| - 1];
      if Counts(d, consumed) && LastRulingIn(d.adjudicates, id).Some? then LastRulingIn(d.adjudicates, id)
      else LastRuling(ds[..|ds| - 1], id, consumed)
  }

  /** The adjudication loops: each ruling that counts overwrites the one before. */
  method AdjudicationClose(fold: Fold, id: string, consumed: map<string, string>) returns (close: bool)
    ensures close <==> LastRuling(fold.folded.decisions, id, consumed) == Some("close")
  {
    hide Counts;
    var ds := fold.folded.decisions;
    var outcome: Option<string> := None;
    for i := 0 to |ds|
      invariant outcome == LastRuling(ds[..i], id, consumed)
    {
      assert ds[..i + 1][..i] == ds[..i];
      if Counts(ds[i], consumed) {
        var rulings := ds[i].adjudicates;
        ghost var before := outcome;
        for j := 0 to |rulings|
          invariant outcome == if LastRulingIn(rulings[..j], id).Some? then LastRulingIn(rulings[..j], id) else before
        {
          assert rulings[..j + 1][..j] == rulings[..j];
          if rulings[j].findingId == id && rulings[j].outcome in {"close", "uphold"} {
            outcome := Some(rulings[j].outcome);
          }
        }
        assert rulings[..|rulings|] == rulings;
      }
    }
    assert ds[..|ds|] == ds;
    return outcome == Some("close");
  }

  /** A finding with a claim class needs a nonempty set of screens, every one approvable. */
  predicate WitnessOk(row: FindingRow, screens: Option<seq<bool>>) {
    row.claimClass.Some? ==>
      screens.Some? && screens.value != [] && forall i :: 0 <= i < |screens.value| ==> screens.value[i]
  }

  function Refusal(reasons: seq<ClosureCode>): Closure {
    Closure(false, reasons, None)
  }

  /** `closure_decision`: the first refusal tier that applies, or a close. */
  function ClosureDecision(
    fold: Fold, id: string, gate: Json, screens: Option<seq<bool>>, coverage: map<string, bool>,
    consumed: map<string, string>): Closure
  {
    if id !in fold.folded.findings then Refusal([FindingUnknown])
    else
      var row := fold.folded.findings[id];
      if row.state != Open then Refusal([FindingNotOpen])
      else if !Valid(gate) then Refusal([GateCandidateUnavailable])
      else if fold.session.None? || fold.session.value == "" || row.session != fold.session.value then
        Refusal([Foreign])
      else
        var ps := fold.folded.proposals;
        var valid := ValidProposals(fold, ps, id, row.phase, gate);
        var veto := CapabilityVeto(valid, coverage);
        if veto.Some? then Closure(false, [CapabilityNotGranted], veto)
        else if LastRuling(fold.folded.decisions, id, consumed) == Some("close")
                || (valid != [] && RecommendedClosed(fold, id, row.phase, gate)) then
          if WitnessOk(row, screens) then Closure(true, [], None) else Refusal([WitnessNotApprovable])
        else
          Refusal((if Same(row.candidate, gate) then [] else [FindingStale])
                  + (if AnyInvalid(fold, ps, id, row.phase, gate) then [CitingProposalInvalid] else [])
                  + [NoResolutionBasis])
  }

  // ---- exactly when the gate closes

  predicate Rules(r: Ruling, id: string) {
    r.findingId == id && r.outcome in {"close", "uphold"}
  }

  predicate Speaks(rulings: seq<Ruling>, id: string) {
    exists l :: 0 <= l < |rulings| && Rules(rulings[l], id)
  }

  /** Ruling `k` is the last on the finding, and says `o`. */
  predicate LastAt(rulings: seq<Ruling>, k: nat, id: string, o: string) {
    k < |rulings| && Rules(rulings[k], id) && rulings[k].outcome == o
    && forall l :: k < l < |rulings| ==> !Rules(rulings[l], id)
  }

  /** Decision `i` counts and its last ruling on the finding is `o`; no later one that counts
      rules on it. */
  ghost predicate LastWord(ds: seq<DecisionRow>, i: nat, id: string, consumed: map<string, string>, o: string) {
    && i < |ds| && Counts(ds[i], consumed)
    && (exists k :: LastAt(ds[i].adjudicates, k, id, o))
    && forall j :: i < j < |ds| && Counts(ds[j], consumed) ==> !Speaks(ds[j].adjudicates, id)
  }

  lemma {:induction false} LastRulingInExactly(rulings: seq<Ruling>, id: string, o: string)
    ensures LastRulingIn(rulings, id) == Some(o) <==> exists k :: LastAt(rulings, k, id, o)
    ensures LastRulingIn(rulings, id).None? <==> !Speaks(rulings, id)
  {
    if rulings != [] {
      var front, n := rulings[..|rulings| - 1], |rulings| - 1;
      LastRulingInExactly(front, id, o);
      if Rules(rulings[n], id) {
        assert LastAt(rulings, n, id, rulings[n].outcome);
        forall k: nat | LastAt(rulings, k, id, o) ensures k == n { assert !(k < n); }
      } else {
        forall k: nat ensures LastAt(front, k, id, o) <==> LastAt(rulings, k, id, o) {
        }
        if Speaks(rulings, id) {
          var l :| 0 <= l < |rulings| && Rules(rulings[l], id);
          assert front[l] == rulings[l];
        }
      }
    }
  }

  /** What counts is the last word: the latest ruling on the finding, over all decisions that count. */
  lemma {:induction false} LastRulingExactly(ds: seq<DecisionRow>, id: string, consumed: map<string, string>, o: string)
    ensures LastRuling(ds, id, consumed) == Some(o) <==> exists i :: LastWord(ds, i, id, consumed, o)
  {
    hide Counts, LastRulingIn, LastAt, Speaks;
    if ds != [] {
      var front, n := ds[..|ds| - 1], |ds| - 1;
      LastRulingExactly(front, id, consumed, o);
      LastRulingInExactly(ds[n].adjudicates, id, o);
      if Counts(ds[n], consumed) && Speaks(ds[n].adjudicates, id) {
        forall i: nat | LastWord(ds, i, id, consumed, o) ensures i == n { assert !(i < n); }
        if LastRuling(ds, id, consumed) == Some(o) { assert LastWord(ds, n, id, consumed, o); }
      } else {
        forall i: nat ensures LastWord(front, i, id, consumed, o) <==> LastWord(ds, i, id, consumed, o) {
          NothingNew(ds, i, id, consumed, o);
        }
      }
    }
  }

  lemma NothingNew(ds: seq<DecisionRow>, i: nat, id: string, consumed: map<string, string>, o: string)
    requires ds != []
    requires var last := ds[|ds| - 1];
      !(Counts(last, consumed) && Speaks(last.adjudicates, id))
    ensures LastWord(ds[..|ds| - 1], i, id, consumed, o) <==> LastWord(ds, i, id, consumed, o)
  {
    hide Counts;
  }

  /** The proposals that can carry a close: they cite the finding and fit the gate. */
  predicate Carries(p: ProposalRow, fold: Fold, id: string, phase: string, gate: Json) {
    p in fold.folded.proposals && id in p.findingIds && ValidFor(p, fold, gate, phase)
  }

  lemma {:induction false} ValidProposalsExactly(
    fold: Fold, ps: seq<ProposalRow>, id: string, phase: string, gate: Json, p: ProposalRow)
    ensures p in ValidProposals(fold, ps, id, phase, gate) <==>
              p in ps && id in p.findingIds && ValidFor(p, fold, gate, phase)
  {
    hide ValidFor;
    if ps != [] {
      ValidProposalsExactly(fold, ps[..|ps| - 1], id, phase, gate, p);
      assert ps == ps[..|ps| - 1] + [ps[|ps| - 1]];
    }
  }

  lemma {:induction false} NoVetoExactly(valid: seq<ProposalRow>, coverage: map<string, bool>)
    ensures CapabilityVeto(valid, coverage).None? <==>
            forall p :: p in valid ==> p.needs == [] || Covered(coverage, p.id)
  {
    if valid != [] {
      NoVetoExactly(valid[1..], coverage);
      assert valid == [valid[0]] + valid[1..];
    }
  }

  /** The gate closes exactly when the finding stands open in the bound session, the gate
      candidate is valid, no proposal that could carry the close lacks a capability it needs, the
      witnesses agree where the finding asks for them, and either the last word of the decisions
      that count is a close, or the current round recommends it and a proposal carries it. */
  lemma ClosesByTier(
    fold: Fold, id: string, gate: Json, screens: Option<seq<bool>>, coverage: map<string, bool>,
    consumed: map<string, string>)
    ensures ClosureDecision(fold, id, gate, screens, coverage, consumed).close <==>
      && id in fold.folded.findings && Valid(gate)
      && var row := fold.folded.findings[id];
      && row.state == Open && row.session != "" && fold.session == Some(row.session) && WitnessOk(row, screens)
      && (forall p :: Carries(p, fold, id, row.phase, gate) ==> p.needs == [] || Covered(coverage, p.id))
      && ((exists i :: LastWord(fold.folded.decisions, i, id, consumed, "close"))
          || (RecommendedClosed(fold, id, row.phase, gate) && exists p :: Carries(p, fold, id, row.phase, gate)))
  {
    hide Valid, ValidProposals, CapabilityVeto, RecommendedClosed, LastRuling, WitnessOk, ValidFor, LastWord, Covered;
    if id in fold.folded.findings {
      var row := fold.folded.findings[id];
      var valid := ValidProposals(fold, fold.folded.proposals, id, row.phase, gate);
      forall p ensures p in valid <==> Carries(p, fold, id, row.phase, gate) {
        ValidProposalsExactly(fold, fold.folded.proposals, id, row.phase, gate, p);
      }
      NoVetoExactly(valid, coverage);
      LastRulingExactly(fold.folded.decisions, id, consumed, "close");
      assert valid != [] <==> exists p :: Carries(p, fold, id, row.phase, gate) by {
        if valid != [] { assert Carries(valid[0], fold, id, row.phase, gate); }
      }
    }
  }
}
