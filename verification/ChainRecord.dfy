/**
 Authority-chain records: the thirteen kinds, the caller's body, the keys the store
 adds, and the value checks every record passes before the walker looks at its place
 in the chain.
 */
module ChainRecord {
  import opened Text
  import opened Candidate

  datatype Reason =
    | WrongSchema | SeqGap | DuplicateId | BadId | WrongSession | DigestBreak
    | BadValue | BadCandidate | BadNullCandidateBasis | BadRound | RoundMismatch
    | UnknownReference | IllegalTransition | IllegalResolutionBasis
    | NullCandidateDecisionBasis | DuplicateOpKey
    | EmptyBatch | OpKeyConflict | OpKeyPartial | CandidateMismatchInBatch

  datatype Result<+T> = Ok(value: T) | Bad(reason: Reason) {
    predicate IsFailure() {
      Bad?
    }

    function PropagateFailure<U>(): Result<U>
      requires Bad?
    {
      Bad(reason)
    }

    function Extract(): T
      requires Ok?
    {
      value
    }
  }

  function Need(condition: bool, reason: Reason): Result<()> {
    if condition then Ok(()) else Bad(reason)
  }

  datatype Ruling = Ruling(findingId: string, outcome: string)

  datatype WitnessResult =
    WitnessResult(outcome: string, evidencePath: string, evidenceSha256: string)

  datatype Basis = Basis(
    proposalId: Option<string>,
    recommendationId: Option<string>,
    decisionId: Option<string>,
    witnessIds: seq<string>)

  datatype Payload =
    | Round(seat: string, verdictSha256: string, reviewPath: string,
            verdictCopyPath: string, verdictCopySha256: string)
    | Finding(openedIn: string, summary: string, severity: string, blocking: bool,
              criterion: string, evidencePath: string, evidenceSha256: string,
              claimClass: Option<string>, discoverer: string, supersededBy: Option<string>)
    | Proposal(findingIds: seq<string>, changedPaths: seq<string>, changedSha256s: seq<string>,
               changedCandidate: Json, authorRole: string, needs: seq<string>)
    | Recommendation(about: string, recommend: string, reviewerSeat: string, madeIn: string)
    | Resolution(resolves: string, outcome: string, decidedBy: string, basis: Basis)
    | Retraction(retracts: string, retractReason: string, duplicateOf: Option<string>, retractedBy: string)
    | Reopen(reopens: string, reopenedIn: string, reopenedBy: string)
    | Decision(requestId: string, requestKind: string, requestRole: string, principal: string,
               answerSha256: string, adjudicates: seq<Ruling>, nullCandidateBasis: Option<string>)
    | Amendment(contextRevision: int, contextSha256: string, amendedBy: string,
                appliesToPhase: string, supersedes: Option<string>, amendGrants: Option<seq<string>>)
    | Escalation(requiredCapability: string, targetPrincipal: string, proposalId: string,
                 escalationRequestId: string, resumeTokenSha256: string)
    | EscalationResume(escalationId: string, resumeRequestId: string, resumedBy: string,
                       resumeAnswerSha256: string, resumeOutcome: string, resumeGrants: seq<string>)
    | Witness(claimId: string, witnessClass: Option<string>, probeKind: string, probeRef: string,
              probeAuthorSeat: string, expectedWitness: Json, result: Option<WitnessResult>,
              notExecutableReason: Option<string>)
    | Reconciliation(role: string, workId: string, artifactPath: string, oldSha256: string,
                     newSha256: string, originalDecision: string, reconciledOutcome: string,
                     activityRef: Option<string>)

  /** What a caller hands to `append`: everything except the store's own keys. */
  datatype Body = Body(
    payload: Payload,
    session: string,
    phase: string,
    round: Option<int>,
    candidate: Json,
    opKey: Option<string>)

  /** A stored record without its digest: exactly what the digest is taken over. */
  datatype Content = Content(schema: int, number: int, id: string, prevDigest: string, body: Body)

  datatype Record = Record(content: Content, digest: string) {
    function Id(): string { content.id }
    function Payload(): Payload { content.body.payload }
  }

  const SCHEMA := 1
  const PHASES: set<string> := {"scouting", "planning", "building"}
  const PRINCIPALS: set<string> := {"reviewer", "supervisor_agent", "policy_principal", "runtime"}
  const DECISION_PRINCIPALS: set<string> := {"supervisor_agent", "policy_principal"}
  const RETRACTION_BY: set<string> := {"reviewer", "supervisor_agent", "policy_principal"}
  const CAPABILITIES: set<string> := {"scope_expansion", "policy_exception"}
  const CLAIM_CLASSES: set<string> := {"source_of_truth", "only", "never", "fail_closed"}
  const AUTHOR_ROLES: set<string> := {"builder", "planner", "scout"}
  const RECOMMENDS: set<string> := {"closed", "still_open", "withdrawn", "duplicate"}

  function Prefix(p: Payload): (s: string)
    ensures |s| == 2
  {
    match p
    case Round(_, _, _, _, _) => "RD"
    case Finding(_, _, _, _, _, _, _, _, _, _) => "AF"
    case Proposal(_, _, _, _, _, _) => "AP"
    case Recommendation(_, _, _, _) => "AC"
    case Resolution(_, _, _, _) => "AR"
    case Retraction(_, _, _, _) => "AT"
    case Reopen(_, _, _) => "AO"
    case Decision(_, _, _, _, _, _, _) => "AD"
    case Amendment(_, _, _, _, _, _) => "AA"
    case Escalation(_, _, _, _, _) => "AE"
    case EscalationResume(_, _, _, _, _, _) => "AS"
    case Witness(_, _, _, _, _, _, _, _) => "AV"
    case Reconciliation(_, _, _, _, _, _, _, _) => "AL"
  }

  /** `record_id(kind, seq)`. */
  function RecordId(p: Payload, n: nat): string {
    Prefix(p) + "-" + Pad4(n)
  }

  /** An identifier fixes the sequence number it was minted for, whatever the kind. */
  lemma RecordIdFixesSeq(p: Payload, m: nat, q: Payload, n: nat)
    requires RecordId(p, m) == RecordId(q, n)
    ensures m == n
  {
    assert RecordId(p, m)[3..] == Pad4(m);
    assert RecordId(q, n)[3..] == Pad4(n);
    Pad4Injective(m, n);
  }

  // ---- value checks, in the order the source applies them

  predicate AllNonEmpty(ss: seq<string>) {
    forall i :: 0 <= i < |ss| ==> ss[i] != ""
  }

  predicate AllHex(ss: seq<string>) {
    forall i :: 0 <= i < |ss| ==> IsHex64(ss[i])
  }

  predicate AllIn(ss: seq<string>, allowed: set<string>) {
    forall i :: 0 <= i < |ss| ==> ss[i] in allowed
  }

  predicate NonEmptyOrNull(o: Option<string>) {
    o.Some? ==> o.value != ""
  }

  predicate ClaimClassOk(o: Option<string>) {
    o.Some? ==> o.value in CLAIM_CLASSES
  }

  predicate RulingsOk(rs: seq<Ruling>) {
    forall i :: 0 <= i < |rs| ==> rs[i].findingId != "" && rs[i].outcome in {"close", "uphold"}
  }

  /** The `_SPECS` table: one row of field checkers per kind. */
  function FieldCheck(p: Payload): Result<()> {
    match p
    case Round(seat, verdict, review, copyPath, copySha) =>
      Need(seat != "" && IsHex64(verdict) && review != "" && copyPath != "" && IsHex64(copySha), BadValue)
    case Finding(openedIn, _, severity, _, _, path, sha, claimClass, discoverer, superseded) =>
      Need(openedIn != "" && severity != "" && path != "" && IsHex64(sha) && ClaimClassOk(claimClass)
           && discoverer != "" && NonEmptyOrNull(superseded), BadValue)
    case Proposal(ids, paths, shas, cand, role, needs) =>
      var _ :- Need(ids != [] && AllNonEmpty(ids) && AllNonEmpty(paths) && AllHex(shas), BadValue);
      var _ :- Need(Valid(cand), BadCandidate);
      Need(role in AUTHOR_ROLES && AllIn(needs, CAPABILITIES), BadValue)
    case Recommendation(about, recommend, seat, madeIn) =>
      Need(about != "" && recommend in RECOMMENDS && seat != "" && madeIn != "", BadValue)
    case Resolution(resolves, outcome, decidedBy, basis) =>
      Need(resolves != "" && outcome == "closed" && decidedBy == "control_plane"
           && NonEmptyOrNull(basis.proposalId) && NonEmptyOrNull(basis.recommendationId)
           && NonEmptyOrNull(basis.decisionId) && AllNonEmpty(basis.witnessIds), BadValue)
    case Retraction(retracts, reason, duplicateOf, principal) =>
      Need(retracts != "" && reason in {"withdrawn", "duplicate"} && NonEmptyOrNull(duplicateOf)
           && principal in RETRACTION_BY, BadValue)
    case Reopen(reopens, reopenedIn, principal) =>
      Need(reopens != "" && reopenedIn != "" && principal == "reviewer", BadValue)
    case Decision(requestId, kind, role, principal, answer, adjudicates, nullBasis) =>
      var _ :- Need(requestId != "" && kind != "" && role != "" && principal in DECISION_PRINCIPALS
                    && IsHex64(answer) && RulingsOk(adjudicates), BadValue);
      Need(nullBasis.Some? ==> nullBasis.value == "status_absent", BadNullCandidateBasis)
    case Amendment(revision, sha, principal, phase, supersedes, grants) =>
      Need(revision >= 0 && IsHex64(sha) && principal in PRINCIPALS && phase in PHASES
           && NonEmptyOrNull(supersedes) && (grants.Some? ==> AllIn(grants.value, CAPABILITIES)), BadValue)
    case Escalation(capability, target, proposalId, requestId, token) =>
      Need(capability in CAPABILITIES && target == "policy_principal" && proposalId != ""
           && requestId != "" && IsHex64(token), BadValue)
    case EscalationResume(escalationId, requestId, principal, answer, outcome, grants) =>
      Need(escalationId != "" && requestId != "" && principal in PRINCIPALS && IsHex64(answer)
           && outcome in {"grant", "decline"} && AllIn(grants, CAPABILITIES), BadValue)
    case Witness(claimId, claimClass, kind, ref_, seat, expected, result, notExecutable) =>
      Need(claimId != "" && ClaimClassOk(claimClass) && kind != "" && ref_ != "" && seat != ""
           && ((expected.Str? && expected.s != "") || expected.Obj?)
           && (result.Some? ==> result.value.outcome in {"bypass_not_found", "bypass_found"}
                                && result.value.evidencePath != "" && IsHex64(result.value.evidenceSha256))
           && NonEmptyOrNull(notExecutable), BadValue)
    case Reconciliation(role, workId, path, oldSha, newSha, original, reconciled, activity) =>
      Need(role != "" && workId != "" && path != "" && IsHex64(oldSha) && IsHex64(newSha)
           && original != "" && reconciled != "" && NonEmptyOrNull(activity), BadValue)
  }

  /** `_kind_rules`: constraints between the fields of one kind. */
  function KindRules(p: Payload): Result<()> {
    match p
    case Finding(_, _, severity, blocking, _, _, _, _, _, superseded) =>
      Need(blocking == (severity == "blocking" && superseded.None?), BadValue)
    case Retraction(_, reason, duplicateOf, _) =>
      Need((reason == "duplicate" ==> duplicateOf.Some?) && (reason == "withdrawn" ==> duplicateOf.None?), BadValue)
    case Witness(_, _, _, _, _, _, result, notExecutable) =>
      Need(result.None? == notExecutable.Some?, BadValue)
    case EscalationResume(_, _, _, _, outcome, grants) =>
      Need(outcome == "decline" ==> grants == [], BadValue)
    case _ => Ok(())
  }

  /** `_candidate_rule`: which kinds may carry a null candidate, and on what terms. */
  function CandidateRule(b: Body): Result<()> {
    if b.payload.Decision? && b.candidate.Null? then
      Need(b.payload.nullCandidateBasis == Some("status_absent") && b.payload.adjudicates == [],
           BadNullCandidateBasis)
    else if b.payload.Decision? && b.payload.nullCandidateBasis.Some? then
      Bad(BadNullCandidateBasis)
    else if b.candidate.Null? && (b.payload.Amendment? || b.payload.EscalationResume?) then
      Ok(())
    else
      Need(Valid(b.candidate), BadCandidate)
  }

  /** `_values` on the part of a record the caller wrote. */
  function BodyCheck(b: Body, committed: bool): Result<()> {
    var _ :- Need(b.session != "" && b.phase in PHASES && NonEmptyOrNull(b.opKey), BadValue);
    var _ :- Need(if b.payload.Round? then
                    if committed then b.round.Some? && b.round.value >= 1 else b.round.None?
                  else b.round.Some? ==> b.round.value >= 1, BadRound);
    var _ :- FieldCheck(b.payload);
    var _ :- KindRules(b.payload);
    CandidateRule(b)
  }

  /** `_values(record, committed=True)` on a stored record. */
  function StoredCheck(r: Record): Result<()> {
    var c := r.content;
    var _ :- Need(c.number >= 1, BadValue);
    var _ :- Need(c.id == RecordId(c.body.payload, c.number), BadId);
    var _ :- Need((c.prevDigest == "" || IsHex64(c.prevDigest)) && IsHex64(r.digest), BadValue);
    BodyCheck(c.body, true)
  }

  /** `_body_view`: the caller's body back out of a stored record. */
  function BodyView(r: Record): Body {
    var b := r.content.body;
    if b.payload.Round? then b.(round := None) else b
  }
}
