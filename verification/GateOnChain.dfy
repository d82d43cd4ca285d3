/**
 The gate against the chain it reads: an open gate means every blocking finding was closed,
 withdrawn or marked duplicate, and whatever the gate agrees to close the walker accepts.
 */
module GateOnChain {
  import opened Text
  import opened Candidate
  import opened ChainRecord
  import opened ChainWalker
  import opened ChainHistory
  import opened ChainBytes
  import opened ChainCommit
  import opened ChainRuns
  import opened Gate
  import GateExact

  function FoldOf(s: State): Fold {
    Fold(s.log.head, s.log.session, s.folded)
  }

  // ---- what folding guarantees about the rows

  /** Proposal rows repeat their records. */
  ghost predicate ProposalsTold(byId: map<string, Record>, s: Folded) {
    forall p :: p in s.proposals ==>
      p.id in byId && byId[p.id].Payload().Proposal?
      && byId[p.id].Payload().findingIds == p.findingIds
      && byId[p.id].Payload().changedCandidate == p.changedCandidate
  }

  ghost predicate DecisionsTold(byId: map<string, Record>, s: Folded) {
    forall d :: d in s.decisions ==>
      d.id in byId && byId[d.id].Payload().Decision?
      && byId[d.id].Payload().adjudicates == d.adjudicates
      && byId[d.id].content.body.candidate == d.candidate
  }

  ghost predicate RecommendationsTold(byId: map<string, Record>, s: Folded) {
    forall f, e :: f in s.recommendations && e in s.recommendations[f] ==>
      e.id in byId && byId[e.id].Payload().Recommendation?
      && byId[e.id].Payload().about == f && byId[e.id].Payload().recommend == e.recommend
  }

  /** A finding stands in a minted round of a known phase. */
  ghost predicate FindingsPlaced(s: Folded) {
    forall f :: f in s.findings ==>
      f != "" && s.findings[f].phase in PHASES && s.findings[f].openedRound >= 1
      && (s.findings[f].phase, s.findings[f].openedRound) in s.roundKeys
  }

  ghost predicate Told(s: State) {
    && ProposalsTold(s.log.byId, s.folded)
    && DecisionsTold(s.log.byId, s.folded)
    && RecommendationsTold(s.log.byId, s.folded)
    && FindingsPlaced(s.folded)
    && Listed(s.folded)
  }

  /** What admission says about where a record stands. */
  ghost predicate Placed(s: Folded, b: Body) {
    && b.phase in PHASES
    && (b.round.Some? ==> b.round.value >= 1)
    && (IsEventKind(b.payload) ==> b.round.Some? && (b.phase, b.round.value) in s.roundKeys)
  }

  lemma AdmittedIsPlaced(s: Folded, b: Body)
    requires BodyCheck(b, true).Ok? && RoundCheck(s, b).Ok?
    ensures Placed(s, b)
  {
    hide FieldCheck, KindRules, CandidateRule;
  }

  /** The rows each kind of step leaves alone or extends. */
  ghost predicate RowsExtended(s: Folded, r: Record, u: Folded) {
    && u.proposals == Append(s.proposals, ProposalRowOf(r))
    && u.decisions == Append(s.decisions, DecisionRowOf(r))
    && u.recommendations == AppendAt(s.recommendations, RecommendationOf(r))
    && s.roundKeys <= u.roundKeys
  }

  lemma ApplyExtendsRows(byId: map<string, Record>, s: Folded, r: Record, u: Folded)
    requires (r.Payload().Round? || IsEventKind(r.Payload())) ==> r.content.body.round.Some?
    requires Apply(byId, s, r) == Ok(u)
    ensures RowsExtended(s, r, u)
  {
    hide BasisCheck, Grants, Move;
    if Movement(r).Some? && !r.Payload().Finding? {
      var (f, k) := Movement(r).value;
      MoveKeepsRows(s, r, f, StateAfter(k), k);
    }
  }

  lemma MoveKeepsRows(s: Folded, r: Record, f: string, to: FindingState, k: EventKind)
    requires f in s.findings && r.content.body.round.Some?
    ensures var u := Move(s, r, f, to, k);
      u.proposals == s.proposals && u.decisions == s.decisions && u.recommendations == s.recommendations
      && u.roundKeys == s.roundKeys && u.findingOrder == s.findingOrder
      && u.findings == s.findings[f := s.findings[f].(state := to, lastTransition := r.Id())]
  {
  }

  lemma RowsStayTold(byId: map<string, Record>, s: Folded, r: Record, u: Folded)
    requires RowsExtended(s, r, u) && r.Id() !in byId
    requires ProposalsTold(byId, s) && DecisionsTold(byId, s) && RecommendationsTold(byId, s)
    ensures ProposalsTold(byId[r.Id() := r], u)
    ensures DecisionsTold(byId[r.Id() := r], u)
    ensures RecommendationsTold(byId[r.Id() := r], u)
  {
    RecommendationsStayTold(byId, s, r, u);
  }

  lemma RecommendationsStayTold(byId: map<string, Record>, s: Folded, r: Record, u: Folded)
    requires RowsExtended(s, r, u) && r.Id() !in byId && RecommendationsTold(byId, s)
    ensures RecommendationsTold(byId[r.Id() := r], u)
  {
    forall f, e | f in u.recommendations && e in u.recommendations[f]
      ensures e.id in byId[r.Id() := r] && byId[r.Id() := r][e.id].Payload().Recommendation?
      ensures byId[r.Id() := r][e.id].Payload().about == f
      ensures byId[r.Id() := r][e.id].Payload().recommend == e.recommend
    {
      if f in s.recommendations && e in s.recommendations[f] {
        assert e.id in byId;
      }
    }
  }

  /** Findings stay placed and listed. */
  lemma FindingsStayPlaced(byId: map<string, Record>, s: Folded, r: Record, u: Folded)
    requires Placed(s, r.content.body) && r.Id() != ""
    requires (r.Payload().Round? || IsEventKind(r.Payload())) ==> r.content.body.round.Some?
    requires Apply(byId, s, r) == Ok(u)
    requires FindingsPlaced(s) && Listed(s)
    ensures FindingsPlaced(u) && Listed(u)
  {
    hide BasisCheck, Grants, Move, Append, AppendAt;
    if Movement(r).Some? && !r.Payload().Finding? {
      var (f, k) := Movement(r).value;
      MoveKeepsRows(s, r, f, StateAfter(k), k);
    }
  }

  lemma {:induction false} FoldIsTold(digest: Content -> string, rs: seq<Record>, s: State)
    requires Reaches(digest, rs, s)
    ensures Told(s)
    decreases |rs|
  {
    hide Step;
    ReachesEmpty(digest);
    if rs != [] {
      hide Reaches;
      var p := ReachesUnsnoc(digest, rs, s);
      FoldIsTold(digest, rs[..|rs| - 1], p);
      StepStaysTold(digest, p, rs[|rs| - 1], s);
    }
  }

  lemma StepStaysTold(digest: Content -> string, s: State, r: Record, t: State)
    requires Step(digest, s, r) == Ok(t) && Told(s)
    ensures Told(t)
  {
    hide Step, Placed, RowsExtended, ProposalsTold, DecisionsTold, RecommendationsTold, FindingsPlaced, Listed;
    StepParts(digest, s, r, t);
    AdmitParts(digest, s, r);
    AdmitRoundGiven(digest, s, r);
    hide Admit, Apply;
    AdmittedIsPlaced(s.folded, r.content.body);
    assert r.Id() != "" by { assert |RecordId(r.Payload(), |s.log.records| + 1)| > 0; }
    ApplyExtendsRows(s.log.byId, s.folded, r, t.folded);
    RowsStayTold(s.log.byId, s.folded, r, t.folded);
    FindingsStayPlaced(s.log.byId, s.folded, r, t.folded);
  }

  lemma AdmitRoundGiven(digest: Content -> string, s: State, r: Record)
    requires Admit(digest, s, r).Ok?
    ensures (r.Payload().Round? || IsEventKind(r.Payload())) ==> r.content.body.round.Some?
  {
    hide StoredCheck, RoundCheck;
  }

  // ---- an open gate

  /** On the fold of an accepted chain the gate is open exactly when the read is good, head and
      session match, the gate candidate is valid, and every blocking finding's last move
      closed it, withdrew it, or marked it a duplicate. */
  lemma OpenGateMeansSettled(
    digest: Content -> string, rs: seq<Record>, s: State, meta: ReadMeta, session: string, phase: string, gate: Json)
    requires Reaches(digest, rs, s)
    ensures !BlockingDecision(meta, Some(FoldOf(s)), session, phase, gate).blocked <==>
            meta.ok && meta.head == s.log.head && s.log.session == Some(session) && Valid(gate)
            && forall f :: f in s.folded.findings && s.folded.findings[f].blocking ==> LastMoveSettles(rs, f)
  {
    hide Step, BlockingDecision, Valid, LastMoveSettles, Reaches, ProposalsTold, DecisionsTold, RecommendationsTold,
         Indexed, Numbered, FindingsPlaced;
    FoldIsTold(digest, rs, s);
    ReachesIndexed(digest, rs, s);
    BlockedExactly(meta, FoldOf(s), session, phase, gate);
    forall f | f in s.folded.findings
      ensures Gating(s.folded.findings[f]) <==> s.folded.findings[f].blocking && !LastMoveSettles(rs, f)
    {
      FindingLifecycle(digest, rs, s, f);
      SettledIsNotOpen(s, f);
    }
  }

  /** The newest record that moves `f` is a close, a withdrawal, or a duplicate mark. */
  ghost predicate LastMoveSettles(rs: seq<Record>, f: string) {
    var ms := MovesOf(rs, f);
    ms != [] && Movement(ms[|ms| - 1]).Some?
    && Movement(ms[|ms| - 1]).value.1 in {ClosedBy, RetractedAs(Withdrawn), RetractedAs(Duplicate)}
  }

  lemma SettledIsNotOpen(s: State, f: string)
    requires f in s.folded.findings && RowTold(s, f)
    ensures LastMoveSettles(s.log.records, f) <==> s.folded.findings[f].state != Open
  {
    hide Movement, MovesOf;
    var ms := MovesOf(s.log.records, f);
    assert KindAt(ms, |ms| - 1) in {Opened, Reopened, ClosedBy, RetractedAs(Withdrawn), RetractedAs(Duplicate)};
  }

  // ---- whatever the gate closes, the walker accepts

  /** The bases the gate finds for a close: a heeded decision that closes the finding, or a
      fitting proposal with a closed recommendation made in the last round of the finding's
      phase, which reviewed the gate candidate. */
  ghost predicate GateBasis(fold: Fold, id: string, gate: Json, consumed: map<string, string>, basis: Basis)
    requires id in fold.folded.findings
  {
    (exists d :: d in fold.folded.decisions && GateExact.Heeded(d, consumed) && Ruling(id, "close") in d.adjudicates
                 && basis == Basis(None, None, Some(d.id), []))
    || exists p, e ::
         GateExact.Carrier(p, fold, id, gate) && Recommends(fold, id, gate, e)
         && basis == Basis(Some(p.id), Some(e.id), None, [])
  }

  ghost predicate Recommends(fold: Fold, id: string, gate: Json, e: RecommendationRow)
    requires id in fold.folded.findings
  {
    && e in RowsOf(fold.folded.recommendations, id) && e.recommend == "closed"
    && exists k: nat ::
         && GateExact.LastOfPhase(fold.folded.rounds, k, fold.folded.findings[id].phase)
         && fold.folded.rounds[k].candidate == gate && e.roundId == fold.folded.rounds[k].roundId
  }

  lemma CloseHasBasis(
    fold: Fold, id: string, gate: Json, screens: Option<seq<bool>>, coverage: map<string, bool>,
    consumed: map<string, string>)
    requires ClosureDecision(fold, id, gate, screens, coverage, consumed).close
    ensures id in fold.folded.findings && exists basis :: GateBasis(fold, id, gate, consumed, basis)
  {
    hide ClosureDecision, Valid, GateExact.Carrier, GateExact.Granted, GateExact.Heeded, GateExact.NoneNewer;
    GateExact.ClosesExactly(fold, id, gate, screens, coverage, consumed);
    if GateExact.AdjudicatedClosed(fold.folded.decisions, id, consumed) {
      var i: nat, k: nat :| GateExact.Rules(fold.folded.decisions, i, k, id, consumed, "close")
        && GateExact.NoneNewer(fold.folded.decisions, i, k, id, consumed);
      var d := fold.folded.decisions[i];
      assert d in fold.folded.decisions && Ruling(id, "close") in d.adjudicates;
      assert GateBasis(fold, id, gate, consumed, Basis(None, None, Some(d.id), []));
    } else {
      var p :| GateExact.Carrier(p, fold, id, gate);
      var k: nat :| GateExact.LastOfPhase(fold.folded.rounds, k, fold.folded.findings[id].phase)
        && fold.folded.rounds[k].candidate == gate
        && exists e :: e in RowsOf(fold.folded.recommendations, id)
                       && e.roundId == fold.folded.rounds[k].roundId && e.recommend == "closed";
      var e :| e in RowsOf(fold.folded.recommendations, id)
        && e.roundId == fold.folded.rounds[k].roundId && e.recommend == "closed";
      assert Recommends(fold, id, gate, e);
      assert GateBasis(fold, id, gate, consumed, Basis(Some(p.id), Some(e.id), None, []));
    }
  }

  /** Every basis the gate finds passes the walker's own basis check. */
  lemma GateBasisPasses(s: State, id: string, gate: Json, consumed: map<string, string>, basis: Basis)
    requires Told(s) && id in s.folded.findings
    requires GateBasis(FoldOf(s), id, gate, consumed, basis)
    ensures BasisCheck(s.log.byId, id, basis, gate).Ok?
    ensures basis.witnessIds == []
    ensures forall cited :: Some(cited) in {basis.proposalId, basis.recommendationId, basis.decisionId} ==>
              cited in s.log.byId
  {
    hide FindingsPlaced, Listed, GateExact.CitesOnly, GateExact.LastOfPhase;
    if p, e :| GateExact.Carrier(p, FoldOf(s), id, gate) && Recommends(FoldOf(s), id, gate, e)
               && basis == Basis(Some(p.id), Some(e.id), None, [])
    {
      SameIsValidIdentity(p.changedCandidate, gate);
      hide Same, Valid;
    }
  }

  /** The resolution the control plane records: the finding's own phase and opening round, the
      gate candidate, and the basis the gate found. */
  function ResolutionBody(s: State, id: string, gate: Json, basis: Basis): Body
    requires id in s.folded.findings
  {
    var row := s.folded.findings[id];
    Body(Resolution(id, "closed", "control_plane", basis), row.session, row.phase,
         Some(row.openedRound), gate, None)
  }

  lemma FreshId(s: State, p: Payload)
    requires Indexed(s.log) && Numbered(s.log)
    ensures RecordId(p, |s.log.records| + 1) !in s.log.byId
    ensures "" !in s.log.byId
  {
    hide RecordId;
    forall id | id in s.log.byId ensures id != RecordId(p, |s.log.records| + 1) && id != "" {
      var i :| 0 <= i < |s.log.records| && s.log.records[i] == s.log.byId[id];
      assert s.log.records[i].Id() == RecordId(s.log.records[i].Payload(), i + 1);
      if id == RecordId(p, |s.log.records| + 1) {
        RecordIdFixesSeq(s.log.records[i].Payload(), i + 1, p, |s.log.records| + 1);
      }
      RecordIdNonEmpty(s.log.records[i].Payload(), i + 1);
    }
  }

  lemma RecordIdNonEmpty(p: Payload, n: nat)
    ensures RecordId(p, n) != ""
  {
  }

  /** The digest is SHA-256 in lowercase hex. */
  ghost predicate HexDigest(digest: Content -> string) {
    forall c :: IsHex64(digest(c))
  }

  lemma HeadIsHex(digest: Content -> string, rs: seq<Record>, s: State)
    requires Reaches(digest, rs, s) && HexDigest(digest)
    ensures s.log.head.Some? ==> IsHex64(s.log.head.value)
  {
    hide Step, IsHex64, Reaches;
    ReachesEmpty(digest);
    if rs != [] {
      var p := ReachesUnsnoc(digest, rs, s);
      LastLink(digest, p, rs[|rs| - 1], s);
    } else {
      assert s == INIT;
    }
  }

  lemma ResolutionWellFormed(body: Body)
    requires body.payload.Resolution? && body.payload.resolves != ""
    requires body.payload.outcome == "closed" && body.payload.decidedBy == "control_plane"
    requires body.payload.basis.witnessIds == []
    requires var basis := body.payload.basis;
      forall cited :: Some(cited) in {basis.proposalId, basis.recommendationId, basis.decisionId} ==> cited != ""
    requires body.session != "" && body.phase in PHASES && body.opKey.None?
    requires body.round.Some? && body.round.value >= 1 && Valid(body.candidate)
    ensures BodyCheck(body, true).Ok? && BodyCheck(body, false).Ok?
  {
    hide Valid;
  }

  lemma ResolutionAdmitted(digest: Content -> string, s: State, body: Body)
    requires Indexed(s.log) && Numbered(s.log) && HexDigest(digest)
    requires s.log.head.Some? ==> IsHex64(s.log.head.value)
    requires body.payload.Resolution? && BodyCheck(body, true).Ok? && body.opKey.None?
    requires s.log.session == Some(body.session) && body.round.Some?
    requires (body.phase, body.round.value) in s.folded.roundKeys
    ensures Admit(digest, s, Minted(digest, s, body)).Ok?
  {
    hide BodyCheck, IsHex64, RecordId, Indexed, Numbered;
    FreshId(s, body.payload);
  }

  /** Closing with a basis the gate found is accepted, closes that finding, and moves no other. */
  lemma GateBasisCloses(
    digest: Content -> string, rs: seq<Record>, s: State, id: string, gate: Json,
    consumed: map<string, string>, basis: Basis)
    requires Reaches(digest, rs, s) && HexDigest(digest)
    requires id in s.folded.findings && s.folded.findings[id].state == Open && Valid(gate)
    requires s.log.session == Some(s.folded.findings[id].session) && s.folded.findings[id].session != ""
    requires GateBasis(FoldOf(s), id, gate, consumed, basis)
    ensures var r := Minted(digest, s, ResolutionBody(s, id, gate, basis));
      Step(digest, s, r).Ok?
      && Step(digest, s, r).value.folded.findings
         == s.folded.findings[id := s.folded.findings[id].(state := Closed, lastTransition := r.Id())]
    ensures BodyCheck(ResolutionBody(s, id, gate, basis), false).Ok?
  {
    hide Reaches, Valid, GateBasis, BasisCheck, IsHex64, Listed, ProposalsTold, DecisionsTold, RecommendationsTold,
         BodyCheck, Admit, Step, Indexed, Numbered, RecordId, HexDigest;
    FoldIsTold(digest, rs, s);
    ReachesIndexed(digest, rs, s);
    HeadIsHex(digest, rs, s);
    GateBasisPasses(s, id, gate, consumed, basis);
    var body := ResolutionBody(s, id, gate, basis);
    FreshId(s, body.payload);
    assert forall cited :: Some(cited) in {basis.proposalId, basis.recommendationId, basis.decisionId} ==> cited != "";
    ResolutionWellFormed(body);
    ResolutionAdmitted(digest, s, body);
    ShiftCloses(digest, s, id, gate, basis);
  }

  lemma ShiftCloses(digest: Content -> string, s: State, id: string, gate: Json, basis: Basis)
    requires id in s.folded.findings && s.folded.findings[id].state == Open
    requires BasisCheck(s.log.byId, id, basis, gate).Ok?
    ensures var r := Minted(digest, s, ResolutionBody(s, id, gate, basis));
      Admit(digest, s, r).Ok? ==>
        Step(digest, s, r).Ok?
        && Step(digest, s, r).value.folded.findings
           == s.folded.findings[id := s.folded.findings[id].(state := Closed, lastTransition := r.Id())]
  {
    hide Admit, BasisCheck, RecordId;
  }

  /** The theorem that crosses both files: whatever `closure_decision` agrees to close on the
      fold of an accepted chain, the walker accepts as a resolution in the finding's own phase
      and opening round, on the gate candidate, citing a basis the gate found. */
  lemma CloseIsCommittable(
    digest: Content -> string, rs: seq<Record>, s: State, id: string, gate: Json, screens: Option<seq<bool>>,
    coverage: map<string, bool>, consumed: map<string, string>) returns (basis: Basis)
    requires Reaches(digest, rs, s) && HexDigest(digest)
    requires ClosureDecision(FoldOf(s), id, gate, screens, coverage, consumed).close
    ensures id in s.folded.findings && GateBasis(FoldOf(s), id, gate, consumed, basis)
    ensures var r := Minted(digest, s, ResolutionBody(s, id, gate, basis));
      Step(digest, s, r).Ok?
      && Step(digest, s, r).value.folded.findings
         == s.folded.findings[id := s.folded.findings[id].(state := Closed, lastTransition := r.Id())]
    ensures BodyCheck(ResolutionBody(s, id, gate, basis), false).Ok?
  {
    hide Reaches, Step, Valid, GateBasis, BodyCheck, HexDigest, Minted;
    CloseHasBasis(FoldOf(s), id, gate, screens, coverage, consumed);
    basis :| GateBasis(FoldOf(s), id, gate, consumed, basis);
    CloseIsOpenAndBound(FoldOf(s), id, gate, screens, coverage, consumed);
    GateBasisCloses(digest, rs, s, id, gate, consumed, basis);
  }

  lemma CloseIsOpenAndBound(
    fold: Fold, id: string, gate: Json, screens: Option<seq<bool>>, coverage: map<string, bool>,
    consumed: map<string, string>)
    requires ClosureDecision(fold, id, gate, screens, coverage, consumed).close
    ensures id in fold.folded.findings && fold.folded.findings[id].state == Open && Valid(gate)
    ensures fold.session == Some(fold.folded.findings[id].session) && fold.folded.findings[id].session != ""
  {
    hide Valid, ValidProposals, CapabilityVeto, RecommendedClosed, LastRuling, WitnessOk;
  }

  /** And the store commits it: with no failure, appending that resolution to the file that
      holds the chain succeeds, whether or not the caller names the current head. */
  lemma CloseCommits(
    codec: Codec, file: Option<string>, s: State, id: string, gate: Json, screens: Option<seq<bool>>,
    coverage: map<string, bool>, consumed: map<string, string>, expected: Option<string>, f: Faults)
    returns (body: Body)
    requires Faithful(codec) && Holds(codec, file, s) && HexDigest(codec.digest)
    requires ClosureDecision(FoldOf(s), id, gate, screens, coverage, consumed).close
    requires expected.None? || expected == s.log.head
    requires !f.lockFails && !f.readFails && f.swap.Exact? && !f.syncFails && !f.readbackFails
    ensures body.payload.Resolution? && body.payload.resolves == id && body.candidate == gate
    ensures Attempt(codec, file, [body], expected, f).out.Committed?
  {
    hide Reaches, Step, Valid, GateBasis, BodyCheck, HexDigest, Minted, ClosureDecision, Faithful, Load,
         WriteAtomically;
    var basis := CloseIsCommittable(codec.digest, s.log.records, s, id, gate, screens, coverage, consumed);
    body := ResolutionBody(s, id, gate, basis);
    LoadIsHolds(codec, file, s);
    assert WellPrepared([body]);
    PrepareMeans([body]);
    SingleMint(codec.digest, s, body);
    var t := MintAll(codec.digest, s, [body]).value;
    ReplayExact(s.log.opKeys, [body]);
    assert Replay(s.log.opKeys, [body]) == Ok(None);
    assert BatchCandidates([body], None) == Ok(());
    MintAllAdds(codec.digest, s, [body], t);
    NewBytesHold(codec, file, s, [body], t);
    hide Holds, Adds, Prepare, Replay;
    WriteEffect(codec, file, Bytes(file) + Render(codec, NewRecords(s, t)), t, 1, f);
    HeadMatchesItself(codec, s, expected);
  }

  lemma SingleMint(digest: Content -> string, s: State, body: Body)
    ensures MintAll(digest, s, [body]) == Step(digest, s, Minted(digest, s, body))
  {
    hide Step, Minted;
    assert [body][..0] == [];
    assert MintAll(digest, s, []) == Ok(s);
  }

  lemma HeadMatchesItself(codec: Codec, s: State, expected: Option<string>)
    requires Reaches(codec.digest, s.log.records, s) && (expected.None? || expected == s.log.head)
    ensures HeadMatches(s.log.head, expected)
  {
    hide Reaches, Step, Indexed, RecordId;
    ReachesIndexed(codec.digest, s.log.records, s);
    if expected.Some? {
      assert s.log.records[|s.log.records| - 1].digest != "";
    }
  }
}
