/**
 When a record is well formed, kind by kind, in one condition each: what the field table, the rules
 of a kind and the candidate rule come to together.
 */
module RecordExact {
  import opened Text
  import opened Candidate
  import opened ChainRecord

  predicate Named(o: Option<string>) {
    o != Some("")
  }

  predicate Capabilities(tokens: seq<string>) {
    forall t :: t in tokens ==> t == "scope_expansion" || t == "policy_exception"
  }

  predicate KnownClass(o: Option<string>) {
    o.None? || o.value == "source_of_truth" || o.value == "only" || o.value == "never" || o.value == "fail_closed"
  }

  predicate Authorized(principal: string) {
    principal == "reviewer" || principal == "supervisor_agent" || principal == "policy_principal"
    || principal == "runtime"
  }

  predicate KnownPhase(phase: string) {
    phase == "scouting" || phase == "planning" || phase == "building"
  }

  predicate Probed(result: WitnessResult) {
    (result.outcome == "bypass_not_found" || result.outcome == "bypass_found")
    && result.evidencePath != "" && IsHex64(result.evidenceSha256)
  }

  /** The fields of a kind, and how they go together. */
  predicate PayloadOk(p: Payload) {
    match p
    case Round(seat, verdict, review, copyPath, copySha) =>
      seat != "" && IsHex64(verdict) && review != "" && copyPath != "" && IsHex64(copySha)
    case Finding(openedIn, _, severity, blocking, _, path, sha, claimClass, discoverer, superseded) =>
      && openedIn != "" && severity != "" && path != "" && IsHex64(sha) && KnownClass(claimClass) && discoverer != ""
      && Named(superseded) && (blocking <==> severity == "blocking" && superseded.None?)
    case Proposal(ids, paths, shas, changed, role, needs) =>
      && ids != [] && "" !in ids && "" !in paths && (forall s :: s in shas ==> IsHex64(s)) && Valid(changed)
      && (role == "builder" || role == "planner" || role == "scout") && Capabilities(needs)
    case Recommendation(about, recommend, seat, madeIn) =>
      && about != "" && seat != "" && madeIn != ""
      && (recommend == "closed" || recommend == "still_open" || recommend == "withdrawn" || recommend == "duplicate")
    case Resolution(resolves, outcome, decidedBy, basis) =>
      && resolves != "" && outcome == "closed" && decidedBy == "control_plane"
      && Named(basis.proposalId) && Named(basis.recommendationId) && Named(basis.decisionId) && "" !in basis.witnessIds
    case Retraction(retracts, reason, duplicateOf, principal) =>
      && retracts != "" && Named(duplicateOf)
      && (principal == "reviewer" || principal == "supervisor_agent" || principal == "policy_principal")
      && ((reason == "withdrawn" && duplicateOf.None?) || (reason == "duplicate" && duplicateOf.Some?))
    case Reopen(reopens, reopenedIn, principal) => reopens != "" && reopenedIn != "" && principal == "reviewer"
    case Decision(requestId, kind, role, principal, answer, adjudicates, nullBasis) =>
      && requestId != "" && kind != "" && role != "" && IsHex64(answer)
      && (principal == "supervisor_agent" || principal == "policy_principal")
      && (forall r :: r in adjudicates ==> r.findingId != "" && (r.outcome == "close" || r.outcome == "uphold"))
      && (nullBasis.None? || nullBasis.value == "status_absent")
    case Amendment(revision, sha, principal, phase, supersedes, grants) =>
      && revision >= 0 && IsHex64(sha) && Authorized(principal) && KnownPhase(phase) && Named(supersedes)
      && (grants.None? || Capabilities(grants.value))
    case Escalation(capability, target, proposalId, requestId, token) =>
      Capabilities([capability]) && target == "policy_principal" && proposalId != "" && requestId != ""
      && IsHex64(token)
    case EscalationResume(escalationId, requestId, principal, answer, outcome, grants) =>
      && escalationId != "" && requestId != "" && Authorized(principal) && IsHex64(answer) && Capabilities(grants)
      && (outcome == "grant" || (outcome == "decline" && grants == []))
    case Witness(claimId, claimClass, kind, probe, seat, expected, result, notExecutable) =>
      && claimId != "" && KnownClass(claimClass) && kind != "" && probe != "" && seat != ""
      && (expected.Obj? || (expected.Str? && expected.s != ""))
      && ((result.Some? && Probed(result.value) && notExecutable.None?)
          || (result.None? && notExecutable.Some? && notExecutable.value != ""))
    case Reconciliation(role, workId, path, oldSha, newSha, original, reconciled, activity) =>
      && role != "" && workId != "" && path != "" && IsHex64(oldSha) && IsHex64(newSha)
      && original != "" && reconciled != "" && Named(activity)
  }

  /** The candidate: a valid one; or none, for an amendment or an answered escalation, and for a
      decision that says the status is absent and rules on nothing. */
  predicate CandidateOk(b: Body) {
    if b.payload.Decision? then
      if b.candidate.Null? then b.payload.nullCandidateBasis == Some("status_absent") && b.payload.adjudicates == []
      else b.payload.nullCandidateBasis.None? && Valid(b.candidate)
    else Valid(b.candidate) || (b.candidate.Null? && (b.payload.Amendment? || b.payload.EscalationResume?))
  }

  /** A round is numbered by the store alone; other kinds may name one. */
  predicate RoundOk(b: Body, stored: bool) {
    if b.payload.Round? && !stored then b.round.None?
    else (b.round.None? && !b.payload.Round?) || (b.round.Some? && b.round.value >= 1)
  }

  predicate WellFormed(b: Body, stored: bool) {
    && b.session != "" && KnownPhase(b.phase) && Named(b.opKey)
    && RoundOk(b, stored) && PayloadOk(b.payload) && CandidateOk(b)
  }

  lemma CapabilitiesExactly(tokens: seq<string>)
    ensures AllIn(tokens, CAPABILITIES) <==> Capabilities(tokens)
  {
    hide *;
    AllInExactly(tokens, CAPABILITIES);
    CapabilitiesAre();
  }

  lemma CapabilitiesAre()
    ensures forall t :: t in CAPABILITIES <==> t == "scope_expansion" || t == "policy_exception"
    ensures forall tokens :: Capabilities(tokens) <==> forall t :: t in tokens ==> t in CAPABILITIES
  {
  }

  lemma AllInExactly(tokens: seq<string>, allowed: set<string>)
    ensures AllIn(tokens, allowed) <==> forall t :: t in tokens ==> t in allowed
  {
    if AllIn(tokens, allowed) {
      forall t | t in tokens ensures t in allowed { var i :| 0 <= i < |tokens| && tokens[i] == t; }
    }
  }

  lemma ListsExactly(ss: seq<string>)
    ensures AllNonEmpty(ss) <==> "" !in ss
    ensures AllHex(ss) <==> forall s :: s in ss ==> IsHex64(s)
  {
    hide IsHex64;
    if AllHex(ss) {
      forall s | s in ss ensures IsHex64(s) { var i :| 0 <= i < |ss| && ss[i] == s; }
    }
  }

  lemma RulingsExactly(rs: seq<Ruling>)
    ensures RulingsOk(rs) <==>
              forall r :: r in rs ==> r.findingId != "" && (r.outcome == "close" || r.outcome == "uphold")
  {
    if RulingsOk(rs) {
      forall r | r in rs ensures r.findingId != "" && (r.outcome == "close" || r.outcome == "uphold") {
        var i :| 0 <= i < |rs| && rs[i] == r;
      }
    }
  }

  predicate AboutFindings(p: Payload) {
    p.Round? || p.Finding? || p.Proposal? || p.Recommendation? || p.Resolution? || p.Retraction? || p.Reopen?
  }

  lemma PayloadExactly(p: Payload)
    ensures FieldCheck(p).Ok? && KindRules(p).Ok? <==> PayloadOk(p)
  {
    hide FieldCheck, KindRules, PayloadOk;
    if AboutFindings(p) { FindingPayloads(p); } else { OtherPayloads(p); }
  }

  lemma FindingPayloads(p: Payload)
    requires AboutFindings(p)
    ensures FieldCheck(p).Ok? && KindRules(p).Ok? <==> PayloadOk(p)
  {
    hide IsHex64, Valid, AllIn, AllNonEmpty, AllHex, Capabilities;
    match p
    case Proposal(ids, paths, shas, _, _, needs) =>
      ListsExactly(ids);
      ListsExactly(paths);
      ListsExactly(shas);
      CapabilitiesExactly(needs);
    case Resolution(_, _, _, basis) => ListsExactly(basis.witnessIds);
    case _ =>
  }

  lemma OtherPayloads(p: Payload)
    requires !AboutFindings(p)
    ensures FieldCheck(p).Ok? && KindRules(p).Ok? <==> PayloadOk(p)
  {
    hide IsHex64, Valid, AllIn, RulingsOk, Capabilities;
    match p
    case Decision(_, _, _, _, _, adjudicates, _) => RulingsExactly(adjudicates);
    case Amendment(_, _, _, _, _, grants) => if grants.Some? { CapabilitiesExactly(grants.value); }
    case Escalation(capability, _, _, _, _) => OneCapability(capability);
    case EscalationResume(_, _, _, _, _, grants) => CapabilitiesExactly(grants);
    case _ =>
  }

  lemma OneCapability(token: string)
    ensures token in CAPABILITIES <==> Capabilities([token])
  {
    CapabilitiesAre();
    assert forall t :: t in [token] <==> t == token;
  }

  /** A body or a stored record passes the checks exactly when it is well formed. */
  lemma WellFormedExactly(b: Body, stored: bool)
    ensures BodyCheck(b, stored).Ok? <==> WellFormed(b, stored)
  {
    hide FieldCheck, KindRules, PayloadOk, Valid;
    PayloadExactly(b.payload);
    NoNullIsValid(b);
  }

  lemma NoNullIsValid(b: Body)
    ensures Valid(b.candidate) ==> !b.candidate.Null?
  {
  }
}
