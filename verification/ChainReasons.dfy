/**
 Why a record is refused: each reason the walker gives holds, told on the record and on the records
 before it.
 */
module ChainReasons {
  import opened Text
  import opened Candidate
  import opened ChainRecord
  import opened ChainWalker
  import opened ChainHistory
  import opened ChainRuns
  import opened RecordExact
  import opened FoldExact
  import opened ChainLegal
  import opened ChainBytes
  import opened ChainCommit
  import opened CommitExact

  // ---- the values of a record

  /** The fields are out of order, whatever candidate a proposal names and whatever a decision says of
      having none. */
  ghost predicate FieldsWrong(p: Payload) {
    match p
    case Proposal(_, _, _, _, _, _) => forall c :: Valid(c) ==> !PayloadOk(p.(changedCandidate := c))
    case Decision(_, _, _, _, _, _, _) => !PayloadOk(p.(nullCandidateBasis := None))
    case _ => !PayloadOk(p)
  }

  /** What is wrong with the values of a body or stored record. */
  ghost predicate ValueReason(b: Body, stored: bool, why: Reason) {
    var p := b.payload;
    match why
    case BadValue => b.session == "" || !KnownPhase(b.phase) || b.opKey == Some("") || FieldsWrong(p)
    case BadRound => !RoundOk(b, stored)
    case BadCandidate => (p.Proposal? && !Valid(p.changedCandidate)) || !Valid(b.candidate)
    case BadNullCandidateBasis =>
      p.Decision? && ((p.nullCandidateBasis.Some? && p.nullCandidateBasis.value != "status_absent") || !CandidateOk(b))
    case _ => false
  }

  ghost predicate PayloadReason(p: Payload, why: Reason) {
    match why
    case BadValue => FieldsWrong(p)
    case BadCandidate => p.Proposal? && !Valid(p.changedCandidate)
    case BadNullCandidateBasis =>
      p.Decision? && p.nullCandidateBasis.Some? && p.nullCandidateBasis.value != "status_absent"
    case _ => false
  }

  lemma OtherFieldReason(p: Payload)
    requires !p.Proposal? && !p.Decision?
    ensures FieldCheck(p).Bad? ==> FieldCheck(p).reason == BadValue
    ensures KindRules(p).Bad? ==> KindRules(p).reason == BadValue
  {
    hide IsHex64, AllIn, AllNonEmpty, AllHex, RulingsOk;
  }

  lemma ProposalReason(p: Payload)
    requires p.Proposal? && FieldCheck(p).Bad?
    ensures PayloadReason(p, FieldCheck(p).reason)
  {
    hide IsHex64, AllIn, AllNonEmpty, AllHex, PayloadOk, Valid;
    if FieldCheck(p).reason == BadValue {
      forall c | Valid(c) ensures !PayloadOk(p.(changedCandidate := c)) {
        PayloadExactly(p.(changedCandidate := c));
      }
    }
  }

  lemma DecisionReason(p: Payload)
    requires p.Decision? && FieldCheck(p).Bad?
    ensures PayloadReason(p, FieldCheck(p).reason)
  {
    hide IsHex64, RulingsOk, PayloadOk;
    if FieldCheck(p).reason == BadValue { PayloadExactly(p.(nullCandidateBasis := None)); }
  }

  lemma PayloadReasonHolds(p: Payload)
    ensures FieldCheck(p).Bad? ==> PayloadReason(p, FieldCheck(p).reason)
    ensures FieldCheck(p).Ok? && KindRules(p).Bad? ==> PayloadReason(p, KindRules(p).reason)
  {
    if p.Proposal? {
      hide FieldCheck, PayloadOk, Valid;
      if FieldCheck(p).Bad? { ProposalReason(p); }
    } else if p.Decision? {
      hide FieldCheck, PayloadOk, Valid;
      if FieldCheck(p).Bad? { DecisionReason(p); }
    } else {
      PayloadExactly(p);
      OtherFieldReason(p);
      hide FieldCheck, KindRules, PayloadOk, Valid;
    }
  }

  lemma CandidateReason(b: Body)
    requires CandidateRule(b).Bad?
    ensures CandidateRule(b).reason == BadCandidate ==> !Valid(b.candidate)
    ensures CandidateRule(b).reason == BadNullCandidateBasis ==> b.payload.Decision? && !CandidateOk(b)
    ensures CandidateRule(b).reason == BadCandidate || CandidateRule(b).reason == BadNullCandidateBasis
  {
    NoNullIsValid(b);
    hide Valid;
  }

  lemma ValueReasonHolds(b: Body, stored: bool)
    requires BodyCheck(b, stored).Bad?
    ensures ValueReason(b, stored, BodyCheck(b, stored).reason)
  {
    hide FieldCheck, KindRules, FieldsWrong, Valid, CandidateRule, CandidateOk;
    PayloadReasonHolds(b.payload);
    if CandidateRule(b).Bad? { CandidateReason(b); }
  }

  // ---- its round

  predicate NamesRoundId(p: Payload, id: string) {
    (p.Finding? && p.openedIn == id) || (p.Recommendation? && p.madeIn == id) || (p.Reopen? && p.reopenedIn == id)
  }

  ghost predicate IsRoundId(rs: seq<Record>, id: string) {
    exists i: nat :: IdentifiedRound(rs, i, id)
  }

  ghost predicate RoundReason(rs: seq<Record>, b: Body, why: Reason) {
    match why
    case BadRound =>
      if b.payload.Round? then b.round != Some(|RoundsAt(rs, b.phase, b.payload.seat)| + 1)
      else
        || (NamesRound(b.payload) && b.round.None?)
        || (b.round.Some? && !RoundHeld(rs, b.phase, b.round.value))
    case UnknownReference => exists id :: NamesRoundId(b.payload, id) && !IsRoundId(rs, id)
    case RoundMismatch => exists id :: NamesRoundId(b.payload, id) && IsRoundId(rs, id) && !HeldIn(rs, id, b)
    case _ => false
  }

  lemma RoundReasonHolds(rs: seq<Record>, s: Folded, b: Body)
    requires RoundsTold(rs, s) && RoundCheck(s, b).Bad?
    ensures RoundReason(rs, b, RoundCheck(s, b).reason)
  {
    hide RoundsMinted, RoundsAt, RoundHeld, IdentifiedRound, HeldIn, RoundRowOf;
    RoundTables(rs, s, b);
    var named := NamedRound(b.payload);
    if named.Some? {
      assert NamesRoundId(b.payload, named.value);
      if b.round.Some? { HeldExactly(rs, s, named.value, b); }
    }
  }

  // ---- its basis and its move

  ghost predicate IsProposal(rs: seq<Record>, id: string) {
    exists i :: 0 <= i < |rs| && rs[i].content.id == id && rs[i].content.body.payload.Proposal?
  }

  ghost predicate IsRecommendation(rs: seq<Record>, id: string) {
    exists i :: 0 <= i < |rs| && rs[i].content.id == id && rs[i].content.body.payload.Recommendation?
  }

  ghost predicate IsDecision(rs: seq<Record>, id: string) {
    exists i :: 0 <= i < |rs| && rs[i].content.id == id && rs[i].content.body.payload.Decision?
  }

  ghost predicate NullDecision(rs: seq<Record>, id: string) {
    exists i ::
      && 0 <= i < |rs| && rs[i].content.id == id && rs[i].content.body.payload.Decision?
      && rs[i].content.body.candidate.Null?
  }

  ghost predicate BasisReason(rs: seq<Record>, f: string, basis: Basis, candidate: Json, why: Reason) {
    match why
    case UnknownReference =>
      || (basis.proposalId.Some? && !IsProposal(rs, basis.proposalId.value))
      || (basis.recommendationId.Some? && !IsRecommendation(rs, basis.recommendationId.value))
      || (basis.decisionId.Some? && !IsDecision(rs, basis.decisionId.value))
      || exists k :: 0 <= k < |basis.witnessIds| && !SomeWitness(rs, basis.witnessIds[k])
    case NullCandidateDecisionBasis => basis.decisionId.Some? && NullDecision(rs, basis.decisionId.value)
    case IllegalResolutionBasis =>
      || (basis.proposalId.Some? && IsProposal(rs, basis.proposalId.value)
          && forall i: nat :: !ClosingProposal(rs, i, basis.proposalId.value, f, candidate))
      || (basis.recommendationId.Some?
          && IsRecommendation(rs, basis.recommendationId.value)
          && forall i: nat :: !ClosingRecommendation(rs, i, basis.recommendationId.value, f))
      || (basis.decisionId.Some? && IsDecision(rs, basis.decisionId.value)
          && !NullDecision(rs, basis.decisionId.value)
          && forall i: nat :: !ClosingDecision(rs, i, basis.decisionId.value, f))
      || (basis.decisionId.None? && (basis.proposalId.None? || basis.recommendationId.None?))
    case _ => false
  }

  lemma CitedHolds(rs: seq<Record>, log: Log, id: string)
    requires log.records == rs && Indexed(log)
    ensures IsProposal(rs, id) <==> id in log.byId && log.byId[id].Payload().Proposal?
    ensures IsRecommendation(rs, id) <==> id in log.byId && log.byId[id].Payload().Recommendation?
    ensures IsDecision(rs, id) <==> id in log.byId && log.byId[id].Payload().Decision?
    ensures NullDecision(rs, id) <==>
            id in log.byId && log.byId[id].Payload().Decision? && log.byId[id].content.body.candidate.Null?
  {
    FoundById(rs, log, id);
    hide Indexed;
  }

  /** One citation that fails, fails for a reason that holds. */
  lemma CitationReason(rs: seq<Record>, log: Log, f: string, id: string, candidate: Json)
    requires log.records == rs && Indexed(log)
    ensures var p := ProposalCited(log.byId, id, f, candidate);
      p.Bad? ==>
        if IsProposal(rs, id) then
          p.reason == IllegalResolutionBasis && forall i: nat :: !ClosingProposal(rs, i, id, f, candidate)
        else p.reason == UnknownReference
    ensures var p := RecommendationCited(log.byId, id, f);
      p.Bad? ==>
        if IsRecommendation(rs, id) then
          p.reason == IllegalResolutionBasis && forall i: nat :: !ClosingRecommendation(rs, i, id, f)
        else p.reason == UnknownReference
    ensures var p := DecisionCited(log.byId, id, f);
      p.Bad? ==>
        if !IsDecision(rs, id) then p.reason == UnknownReference
        else if NullDecision(rs, id) then p.reason == NullCandidateDecisionBasis
        else p.reason == IllegalResolutionBasis && forall i: nat :: !ClosingDecision(rs, i, id, f)
  {
    CitedExactly(rs, log, f, id, candidate);
    CitedHolds(rs, log, id);
    hide Indexed, IsProposal, IsRecommendation, IsDecision, NullDecision, ClosingProposal, ClosingRecommendation,
         ClosingDecision, Same, SomeWitness;
  }

  lemma BasisReasonIs(byId: map<string, Record>, f: string, basis: Basis, candidate: Json)
    ensures var out := BasisCheck(byId, f, basis, candidate);
      out.Bad? ==>
        || (basis.proposalId.Some? && ProposalCited(byId, basis.proposalId.value, f, candidate) == out)
        || (basis.recommendationId.Some? && RecommendationCited(byId, basis.recommendationId.value, f) == out)
        || (basis.decisionId.Some? && DecisionCited(byId, basis.decisionId.value, f) == out)
        || (out.reason == UnknownReference
            && exists k :: 0 <= k < |basis.witnessIds|
                           && !(basis.witnessIds[k] in byId && byId[basis.witnessIds[k]].Payload().Witness?))
        || (out.reason == IllegalResolutionBasis && basis.decisionId.None?
            && (basis.proposalId.None? || basis.recommendationId.None?))
  {
    hide ProposalCited, RecommendationCited, DecisionCited;
  }

  lemma BasisReasonHolds(rs: seq<Record>, log: Log, f: string, basis: Basis, candidate: Json)
    requires log.records == rs && Indexed(log) && BasisCheck(log.byId, f, basis, candidate).Bad?
    ensures BasisReason(rs, f, basis, candidate, BasisCheck(log.byId, f, basis, candidate).reason)
  {
    BasisReasonIs(log.byId, f, basis, candidate);
    if basis.proposalId.Some? { CitationReason(rs, log, f, basis.proposalId.value, candidate); }
    if basis.recommendationId.Some? { CitationReason(rs, log, f, basis.recommendationId.value, candidate); }
    if basis.decisionId.Some? { CitationReason(rs, log, f, basis.decisionId.value, candidate); }
    hide IsProposal, IsRecommendation, IsDecision, NullDecision, ClosingProposal, ClosingRecommendation,
         ClosingDecision, SomeWitness, ProposalCited, RecommendationCited, DecisionCited, Indexed, BasisCheck;
    forall k | 0 <= k < |basis.witnessIds|
      ensures basis.witnessIds[k] in log.byId && log.byId[basis.witnessIds[k]].Payload().Witness? <==>
              SomeWitness(rs, basis.witnessIds[k])
    {
      CitedExactly(rs, log, f, basis.witnessIds[k], candidate);
    }
  }

  /** The finding a record closes, retracts or reopens. */
  predicate Moves(p: Payload, f: string) {
    (p.Resolution? && p.resolves == f) || (p.Retraction? && p.retracts == f) || (p.Reopen? && p.reopens == f)
  }

  ghost predicate Unopened(rs: seq<Record>, f: string) {
    forall i :: 0 <= i < |rs| ==> !About(rs[i], f)
  }

  ghost predicate MoveReason(rs: seq<Record>, r: Record, f: string, why: Reason) {
    var p := r.content.body.payload;
    && Moves(p, f)
    && ((why == UnknownReference && Unopened(rs, f))
        || (why == IllegalTransition && !Unopened(rs, f)
            && if p.Reopen? then !StandsClosed(rs, f) else !StandsOpen(rs, f))
        || (p.Resolution? && StandsOpen(rs, f) && BasisReason(rs, f, p.basis, r.content.body.candidate, why)))
  }

  lemma UnopenedExactly(rs: seq<Record>, s: State, f: string)
    requires s.log.records == rs && RowTold(s, f)
    ensures Unopened(rs, f) <==> f !in s.folded.findings
  {
    LastMoveIsLast(rs, f);
    hide MovesOf, About;
  }

  lemma MoveReasonHolds(rs: seq<Record>, s: State, r: Record)
    requires Known(rs, s) && ((r.Payload().Round? || IsEventKind(r.Payload())) ==> r.content.body.round.Some?)
    requires Apply(s.log.byId, s.folded, r).Bad?
    ensures exists f :: MoveReason(rs, r, f, Apply(s.log.byId, s.folded, r).reason)
  {
    hide Indexed, Numbered, KeysIndexed, RoundsTold, RowTold, BasisCheck, BasisReason, StandsOpen, StandsClosed,
         Unopened, IsHex64, Move;
    var p := r.Payload();
    var f := Movement(r).value.0;
    assert Moves(p, f);
    StandsExactly(rs, s, f);
    UnopenedExactly(rs, s, f);
    if p.Resolution? && BasisCheck(s.log.byId, f, p.basis, r.content.body.candidate).Bad? {
      BasisReasonHolds(rs, s.log, f, p.basis, r.content.body.candidate);
    }
    assert MoveReason(rs, r, f, Apply(s.log.byId, s.folded, r).reason);
  }

  // ---- the record in its chain

  ghost predicate PlaceReason(hash: Content -> string, rs: seq<Record>, r: Record, why: Reason) {
    var c := r.content;
    match why
    case WrongSchema => c.schema != 1
    case SeqGap => c.number != |rs| + 1
    case DuplicateId => exists i :: 0 <= i < |rs| && rs[i].content.id == c.id
    case BadId => c.id != RecordId(c.body.payload, |rs| + 1)
    case WrongSession => rs != [] && c.body.session != rs[0].content.body.session
    case DigestBreak => c.prevDigest != (if rs == [] then "" else rs[|rs| - 1].digest) || r.digest != hash(c)
    case BadValue => !IsHex64(r.digest)
    case DuplicateOpKey => exists i :: 0 <= i < |rs| && c.body.opKey.Some? && rs[i].content.body.opKey == c.body.opKey
    case _ => false
  }

  ghost predicate Deserves(hash: Content -> string, rs: seq<Record>, r: Record, why: Reason) {
    || PlaceReason(hash, rs, r, why)
    || ValueReason(r.content.body, true, why)
    || RoundReason(rs, r.content.body, why)
    || exists f :: MoveReason(rs, r, f, why)
  }

  lemma PlaceReasonHolds(hash: Content -> string, rs: seq<Record>, s: State, r: Record)
    requires Known(rs, s) && Admit(hash, s, r).Bad?
    ensures PlaceReason(hash, rs, r, Admit(hash, s, r).reason)
            || BodyCheck(r.content.body, true) == Bad(Admit(hash, s, r).reason)
            || RoundCheck(s.folded, r.content.body) == Bad(Admit(hash, s, r).reason)
  {
    hide RecordId, BodyCheck, RoundCheck, RowTold, RoundsTold, IsHex64, Indexed, Numbered, KeysIndexed;
    HeadIsLast(rs, s);
    TakenExactly(rs, s, r);
  }

  /** The indexes name records of the chain. */
  lemma TakenExactly(rs: seq<Record>, s: State, r: Record)
    requires Known(rs, s)
    ensures r.content.id in s.log.byId ==> exists i :: 0 <= i < |rs| && rs[i].content.id == r.content.id
    ensures var key := r.content.body.opKey;
      key.Some? && key.value in s.log.opKeys ==> exists i :: 0 <= i < |rs| && rs[i].content.body.opKey == key
  {
    hide RecordId, RowTold, RoundsTold, IsHex64, Numbered;
    if r.content.id in s.log.byId { FoundById(rs, s.log, r.content.id); }
    if r.content.body.opKey.Some? && r.content.body.opKey.value in s.log.opKeys {
      var q := s.log.opKeys[r.content.body.opKey.value];
      assert q in rs && q.content.body.opKey == r.content.body.opKey;
      var i :| 0 <= i < |rs| && rs[i] == q;
    }
  }

  lemma HeadIsLast(rs: seq<Record>, s: State)
    requires Known(rs, s)
    ensures HeadOrEmpty(s.log.head) == if rs == [] then "" else rs[|rs| - 1].digest
  {
    hide RecordId, RowTold, RoundsTold, IsHex64, KeysIndexed, Indexed;
  }

  /** On a chain it has accepted the walker refuses a record for a reason that the record deserves. */
  lemma RefusalTellsTruth(hash: Content -> string, rs: seq<Record>, s: State, r: Record)
    requires Reaches(hash, rs, s) && Step(hash, s, r).Bad?
    ensures Deserves(hash, rs, r, Step(hash, s, r).reason)
  {
    hide Reaches, Known, Apply, Stamp, PlaceReason, ValueReason, RoundReason, MoveReason;
    ReachedIsKnown(hash, rs, s);
    KnownParts(rs, s);
    var admitted := Admit(hash, s, r);
    if admitted.Bad? {
      PlaceReasonHolds(hash, rs, s, r);
      if BodyCheck(r.content.body, true).Bad? { ValueReasonHolds(r.content.body, true); }
      if RoundCheck(s.folded, r.content.body).Bad? { RoundReasonHolds(rs, s.folded, r.content.body); }
    } else {
      MoveReasonHolds(rs, s, r);
    }
    hide Admit, BodyCheck, RoundCheck, RoundsTold;
  }

  // ---- why an append is refused

  /** Body `k` is the first that cannot be prepared: its values are wrong, or an earlier one has its key. */
  ghost predicate PrepareStops(bodies: seq<Body>, k: nat, why: Reason) {
    && k < |bodies| && Preparable(bodies[..k])
    && (ValueReason(bodies[k], false, why)
        || (why == DuplicateOpKey && bodies[k].opKey.Some?
            && exists i :: 0 <= i < k && bodies[i].opKey == bodies[k].opKey))
  }

  lemma {:induction false} PrepareReasonHolds(bodies: seq<Body>)
    requires Prepare(bodies).Bad?
    ensures exists k: nat :: PrepareStops(bodies, k, Prepare(bodies).reason)
  {
    hide BodyCheck, ValueReason, Preparable;
    var front, n := bodies[..|bodies| - 1], |bodies| - 1;
    var why := Prepare(bodies).reason;
    if Prepare(front).Bad? {
      PrepareReasonHolds(front);
      var k: nat :| PrepareStops(front, k, why);
      assert front[..k] == bodies[..k];
      assert PrepareStops(bodies, k, why);
    } else {
      PrepareMeans(front);
      PreparableExactly(front);
      if BodyCheck(bodies[n], false).Bad? { ValueReasonHolds(bodies[n], false); }
      assert PrepareStops(bodies, n, why);
    }
  }

  lemma {:induction false} ConflictExactly(opKeys: map<string, Record>, bodies: seq<Body>)
    ensures Replays(opKeys, bodies).Bad? <==>
            exists k :: 0 <= k < |bodies| && IsReplay(opKeys, bodies[k]) && !IsSameReplay(opKeys, bodies[k])
    ensures Replays(opKeys, bodies).Bad? ==> Replays(opKeys, bodies).reason == OpKeyConflict
  {
    hide BodyView;
    if bodies != [] {
      var front, n := bodies[..|bodies| - 1], |bodies| - 1;
      ConflictExactly(opKeys, front);
      assert forall k :: 0 <= k < n ==> front[k] == bodies[k];
    }
  }

  /** A key of the batch stands for another body. */
  ghost predicate OtherThere(rs: seq<Record>, bodies: seq<Body>) {
    exists k :: 0 <= k < |bodies| && KeyThere(rs, bodies[k]) && !BodyThere(rs, bodies[k])
  }

  lemma OtherExactly(log: Log, bodies: seq<Body>)
    requires KeysIndexed(log) && KeysUnique(log.records)
    ensures OtherThere(log.records, bodies) <==> Replays(log.opKeys, bodies).Bad?
  {
    ConflictExactly(log.opKeys, bodies);
    forall k | 0 <= k < |bodies|
      ensures IsReplay(log.opKeys, bodies[k]) <==> KeyThere(log.records, bodies[k])
      ensures IsSameReplay(log.opKeys, bodies[k]) <==> BodyThere(log.records, bodies[k])
    {
      ThereExactly(log, bodies[k]);
    }
    hide KeysIndexed, KeysUnique, IsReplay, IsSameReplay, BodyThere, KeyThere, Replays;
  }

  lemma {:induction false} MismatchReason(bodies: seq<Body>, reference: Option<Json>)
    ensures BatchCandidates(bodies, reference).Bad? ==>
              BatchCandidates(bodies, reference).reason == CandidateMismatchInBatch
  {
    hide Same;
    if bodies != [] {
      MismatchReason(bodies[1..], reference);
      MismatchReason(bodies[1..], Some(bodies[0].candidate));
    }
  }

  /** The first `k` bodies extend the chain, and the record minted from the next deserves the reason. */
  ghost predicate MintStops(hash: Content -> string, rs: seq<Record>, bodies: seq<Body>, k: nat, why: Reason) {
    k < |bodies|
    && exists added, r ::
         && Extends(hash, rs, bodies[..k], added)
         && MintedFrom(hash, rs + added, bodies[k], r) && Deserves(hash, rs + added, r, why)
  }

  lemma {:induction false} MintReasonHolds(hash: Content -> string, rs: seq<Record>, s: State, bodies: seq<Body>)
    requires Reaches(hash, rs, s) && MintAll(hash, s, bodies).Bad?
    ensures exists k: nat :: MintStops(hash, rs, bodies, k, MintAll(hash, s, bodies).reason)
    decreases |bodies|
  {
    hide Reaches, Step, Minted, MintedFrom, Extends, Deserves;
    var front, n := bodies[..|bodies| - 1], |bodies| - 1;
    var why := MintAll(hash, s, bodies).reason;
    if MintAll(hash, s, front).Bad? {
      MintReasonHolds(hash, rs, s, front);
      var k: nat :| MintStops(hash, rs, front, k, why);
      assert front[..k] == bodies[..k];
      assert MintStops(hash, rs, bodies, k, why);
    } else {
      MintAllExactly(hash, rs, s, front);
      var t := MintAll(hash, s, front).value;
      var added :| Extends(hash, rs, front, added) && Reaches(hash, rs + added, t);
      var r := Minted(hash, t, bodies[n]);
      MintedExactly(hash, rs + added, t, bodies[n]);
      RefusalTellsTruth(hash, rs + added, t, r);
      assert MintStops(hash, rs, bodies, n, why);
    }
  }

  ghost predicate AppendReason(hash: Content -> string, rs: seq<Record>, bodies: seq<Body>, why: Reason) {
    if bodies == [] then why == EmptyBatch
    else if !Preparable(bodies) then exists k: nat :: PrepareStops(bodies, k, why)
    else if SomeKeyThere(rs, bodies) then why == if OtherThere(rs, bodies) then OpKeyConflict else OpKeyPartial
    else if !OneCandidate(bodies) then why == CandidateMismatchInBatch
    else exists k: nat :: MintStops(hash, rs, bodies, k, why)
  }

  lemma DecideReasonHolds(
    codec: Codec, file: Option<string>, s: State, bodies: seq<Body>, expected: Option<string>)
    requires Faithful(codec) && Holds(codec, file, s) && bodies != []
    requires var p := Decide(codec, file, bodies, expected); p.Answer? && p.out.Refused?
    ensures var why := Decide(codec, file, bodies, expected).out.reason;
      if SomeKeyThere(s.log.records, bodies) then
        why == if OtherThere(s.log.records, bodies) then OpKeyConflict else OpKeyPartial
      else if !OneCandidate(bodies) then why == CandidateMismatchInBatch
      else exists k: nat :: MintStops(codec.digest, s.log.records, bodies, k, why)
  {
    hide Faithful, Load, HeadMatches, BatchCandidates, MintAll, MintStops, AllThere, NoneThere, Reaches, SomeKeyThere,
         OtherThere, OneCandidate, AllBodiesThere, Replays;
    LoadIsHolds(codec, file, s);
    HoldsReaches(codec, file, s);
    hide Holds;
    KeysCommittedOnce(codec.digest, s.log.records, s);
    BatchThereExactly(s.log, bodies);
    OtherExactly(s.log, bodies);
    ConflictExactly(s.log.opKeys, bodies);
    ReplayExact(s.log.opKeys, bodies);
    CandidatesExactly(bodies, None);
    MismatchReason(bodies, None);
    if MintAll(codec.digest, s, bodies).Bad? { MintReasonHolds(codec.digest, s.log.records, s, bodies); }
  }

  /** An append without faults is refused for a reason that holds: of the batch alone, of its keys, of
      its candidates, or of the record that the first body that cannot follow becomes. */
  lemma AppendTellsTruth(
    codec: Codec, file: Option<string>, s: State, bodies: seq<Body>, expected: Option<string>, f: Faults)
    requires Faithful(codec) && Holds(codec, file, s) && NothingFails(f)
    requires Attempt(codec, file, bodies, expected, f).out.Refused?
    ensures AppendReason(codec.digest, s.log.records, bodies, Attempt(codec, file, bodies, expected, f).out.reason)
  {
    AppendExactly(codec, file, s, bodies, expected, f);
    PrepareMeans(bodies);
    PreparableExactly(bodies);
    hide Faithful, Holds, Decide, Prepare, Preparable, WellPrepared, PrepareStops, MintStops, SomeKeyThere, OtherThere,
         OneCandidate, AllBodiesThere, Extends, Render, HeadNamed;
    if bodies != [] {
      if Prepare(bodies).Bad? {
        PrepareReasonHolds(bodies);
      } else {
        NoRefusedWrite(codec, file, s, bodies, expected, f);
        DecideReasonHolds(codec, file, s, bodies, expected);
      }
    }
  }

  lemma NoRefusedWrite(
    codec: Codec, file: Option<string>, s: State, bodies: seq<Body>, expected: Option<string>, f: Faults)
    requires bodies != [] && Prepare(bodies).Ok? && NothingFails(f)
    requires Attempt(codec, file, bodies, expected, f).out.Refused?
    ensures var p := Decide(codec, file, bodies, expected);
      p == Answer(Attempt(codec, file, bodies, expected, f).out)
  {
    hide Decide, Prepare, Load;
  }
}
