/**
 Which record may follow which chain, told on the records alone: no walker, no folded state, no
 index. The walker accepts a chain exactly when each of its records may follow those before it.
 */
module ChainLegal {
  import opened Text
  import opened Candidate
  import opened ChainRecord
  import opened ChainWalker
  import opened ChainHistory
  import opened ChainCommit
  import opened ChainRuns
  import opened RecordExact
  import opened FoldExact
  import GateOnChain

  // ---- rounds

  /** What must name a round. */
  predicate NamesRound(p: Payload) {
    p.Finding? || p.Recommendation? || p.Resolution? || p.Retraction? || p.Reopen?
  }

  /** A round is the next of its seat in its phase. Whatever else names a round names one that was
      held in its phase; findings, recommendations, closes, retractions and reopenings must; and
      those that give a round's identifier give that of the round they name. */
  ghost predicate RoundLegal(rs: seq<Record>, b: Body) {
    if b.payload.Round? then b.round == Some(|RoundsAt(rs, b.phase, b.payload.seat)| + 1)
    else
      && (NamesRound(b.payload) ==> b.round.Some?)
      && (b.round.Some? ==> RoundHeld(rs, b.phase, b.round.value))
      && (b.payload.Finding? ==> HeldIn(rs, b.payload.openedIn, b))
      && (b.payload.Recommendation? ==> HeldIn(rs, b.payload.madeIn, b))
      && (b.payload.Reopen? ==> HeldIn(rs, b.payload.reopenedIn, b))
  }

  /** The record with this identifier is the round of the body's phase and number. */
  ghost predicate HeldIn(rs: seq<Record>, id: string, b: Body) {
    b.round.Some? && exists i: nat :: IdentifiedRound(rs, i, id) && NumberedRound(rs, i, b.phase, b.round.value)
  }

  // ---- moves of a finding

  /** The record opens, closes, retracts or reopens the finding. */
  predicate About(r: Record, f: string) {
    var p := r.content.body.payload;
    || (p.Finding? && r.content.id == f) || (p.Resolution? && p.resolves == f)
    || (p.Retraction? && p.retracts == f) || (p.Reopen? && p.reopens == f)
  }

  predicate LastAbout(rs: seq<Record>, f: string, i: nat) {
    i < |rs| && About(rs[i], f) && forall j :: i < j < |rs| ==> !About(rs[j], f)
  }

  ghost predicate StandsOpen(rs: seq<Record>, f: string) {
    exists i: nat :: LastAbout(rs, f, i) && (rs[i].Payload().Finding? || rs[i].Payload().Reopen?)
  }

  ghost predicate StandsClosed(rs: seq<Record>, f: string) {
    exists i: nat :: LastAbout(rs, f, i) && rs[i].Payload().Resolution?
  }

  predicate IsWitness(rs: seq<Record>, i: nat, id: string) {
    i < |rs| && rs[i].content.id == id && rs[i].Payload().Witness?
  }

  ghost predicate SomeWitness(rs: seq<Record>, id: string) {
    exists i: nat :: IsWitness(rs, i, id)
  }

  /** What a close cites: a decision that closes the finding, or a proposal on the close's own
      candidate with a recommendation to close; whatever is cited is what it is cited as. */
  ghost predicate BasisLegal(rs: seq<Record>, f: string, basis: Basis, candidate: Json) {
    && (basis.proposalId.Some? ==> exists i: nat :: ClosingProposal(rs, i, basis.proposalId.value, f, candidate))
    && (basis.recommendationId.Some? ==> exists i: nat :: ClosingRecommendation(rs, i, basis.recommendationId.value, f))
    && (basis.decisionId.Some? ==> exists i: nat :: ClosingDecision(rs, i, basis.decisionId.value, f))
    && (forall k :: 0 <= k < |basis.witnessIds| ==> SomeWitness(rs, basis.witnessIds[k]))
    && (basis.decisionId.Some? || (basis.proposalId.Some? && basis.recommendationId.Some?))
  }

  /** Only an open finding is closed or retracted, and only a closed one reopened. */
  ghost predicate MoveLegal(rs: seq<Record>, r: Record) {
    var p := r.content.body.payload;
    && (p.Resolution? ==> StandsOpen(rs, p.resolves) && BasisLegal(rs, p.resolves, p.basis, r.content.body.candidate))
    && (p.Retraction? ==> StandsOpen(rs, p.retracts))
    && (p.Reopen? ==> StandsClosed(rs, p.reopens))
  }

  // ---- what may follow

  ghost predicate Follows(hash: Content -> string, rs: seq<Record>, r: Record) {
    var b := r.content.body;
    && r.content.schema == 1 && r.content.number == |rs| + 1
    && r.content.id == RecordId(b.payload, |rs| + 1)
    && (rs != [] ==> b.session == rs[0].content.body.session)
    && r.content.prevDigest == (if rs == [] then "" else rs[|rs| - 1].digest)
    && r.digest == hash(r.content) && IsHex64(r.digest)
    && WellFormed(b, true)
    && RoundLegal(rs, b)
    && (b.opKey.Some? ==> forall i :: 0 <= i < |rs| ==> rs[i].content.body.opKey != b.opKey)
    && MoveLegal(rs, r)
  }

  // ---- the folded state told on the records

  /** All that is known of a state an accepted chain reaches. */
  ghost predicate Known(rs: seq<Record>, s: State) {
    && s.log.records == rs && Indexed(s.log) && Numbered(s.log) && KeysIndexed(s.log) && RoundsTold(rs, s.folded)
    && (forall f :: RowTold(s, f))
    && s.log.session == (if rs == [] then None else Some(rs[0].content.body.session))
    && (rs != [] ==> IsHex64(rs[|rs| - 1].digest))
  }

  lemma {:induction false} SessionIsFirst(hash: Content -> string, rs: seq<Record>, s: State)
    requires Reaches(hash, rs, s)
    ensures s.log.session == (if rs == [] then None else Some(rs[0].content.body.session))
    ensures rs != [] ==> IsHex64(rs[|rs| - 1].digest)
    decreases |rs|
  {
    hide Step, IsHex64;
    ReachesEmpty(hash);
    if rs != [] {
      hide Reaches;
      var front, r := rs[..|rs| - 1], rs[|rs| - 1];
      var p := ReachesUnsnoc(hash, rs, s);
      SessionIsFirst(hash, front, p);
      StepParts(hash, p, r, s);
      AdmitParts(hash, p, r);
      AdmitHex(hash, p, r);
      hide Admit, Apply;
    }
  }

  lemma AdmitHex(hash: Content -> string, s: State, r: Record)
    requires Admit(hash, s, r).Ok?
    ensures IsHex64(r.digest)
  {
    hide IsHex64, RecordId, BodyCheck, RoundCheck;
  }

  lemma ReachedIsKnown(hash: Content -> string, rs: seq<Record>, s: State)
    requires Reaches(hash, rs, s)
    ensures Known(rs, s)
  {
    hide Reaches, Indexed, Numbered, KeysIndexed, RoundsTold, RowTold, IsHex64;
    ReachesIndexed(hash, rs, s);
    KeysCommittedOnce(hash, rs, s);
    RoundsAreTold(hash, rs, s);
    SessionIsFirst(hash, rs, s);
    forall f ensures RowTold(s, f) { RowIsTold(hash, rs, s, f); }
  }

  lemma RoundExactly(rs: seq<Record>, s: Folded, b: Body)
    requires RoundsTold(rs, s)
    ensures RoundCheck(s, b).Ok? <==> RoundLegal(rs, b)
  {
    hide RoundsMinted, RoundsAt, RoundsTold, HeldIn, RoundHeld;
    RoundTables(rs, s, b);
    var named := NamedRound(b.payload);
    if named.Some? && b.round.Some? { HeldExactly(rs, s, named.value, b); }
  }

  lemma RoundTables(rs: seq<Record>, s: Folded, b: Body)
    requires RoundsTold(rs, s)
    ensures b.payload.Round? ==>
              RoundsMinted(s.roundCounts, b.phase, b.payload.seat) == |RoundsAt(rs, b.phase, b.payload.seat)|
    ensures b.round.Some? ==>
              ((b.phase, b.round.value) in s.roundKeys <==> RoundHeld(rs, b.phase, b.round.value))
  {
    hide RoundsMinted, RoundsAt, RoundHeld, IdentifiedRound, RoundRowOf;
  }

  lemma HeldExactly(rs: seq<Record>, s: Folded, id: string, b: Body)
    requires RoundsTold(rs, s) && b.round.Some?
    ensures HeldIn(rs, id, b) <==>
            id in s.roundRows && s.roundRows[id].phase == b.phase && s.roundRows[id].round == b.round.value
  {
    hide RoundsMinted, RoundsAt;
    if id in s.roundRows {
      var i: nat :| IdentifiedRound(rs, i, id);
      assert RoundRowOf(rs[i]) == [s.roundRows[id]];
    }
    if i: nat :| IdentifiedRound(rs, i, id) && NumberedRound(rs, i, b.phase, b.round.value) {
      assert RoundRowOf(rs[i]) == [s.roundRows[id]];
    }
  }

  // ---- where a finding stands

  lemma AboutIsMovement(r: Record, f: string)
    ensures About(r, f) <==> Movement(r).Some? && Movement(r).value.0 == f
    ensures About(r, f) ==>
              (StateAfter(Movement(r).value.1) == Open <==> r.Payload().Finding? || r.Payload().Reopen?)
              && (StateAfter(Movement(r).value.1) == Closed <==> r.Payload().Resolution?)
  {
  }

  lemma {:induction false} LastMoveIsLast(rs: seq<Record>, f: string)
    ensures var ms := MovesOf(rs, f);
      && (ms == [] <==> forall i :: 0 <= i < |rs| ==> !About(rs[i], f))
      && (ms != [] ==> exists i: nat :: LastAbout(rs, f, i) && rs[i] == ms[|ms| - 1])
  {
    hide About, Movement;
    if rs != [] {
      var front, n := rs[..|rs| - 1], |rs| - 1;
      LastMoveIsLast(front, f);
      assert rs == front + [rs[n]];
      hide MovesOf;
      MovesOfSnoc(front, rs[n], f);
      if About(rs[n], f) {
        assert LastAbout(rs, f, n);
      } else if MovesOf(front, f) != [] {
        var i: nat :| LastAbout(front, f, i) && front[i] == MovesOf(front, f)[|MovesOf(front, f)| - 1];
        LastAboutStays(front, rs[n], f, i);
      }
    }
  }

  lemma LastAboutStays(rs: seq<Record>, r: Record, f: string, i: nat)
    requires LastAbout(rs, f, i) && !About(r, f)
    ensures LastAbout(rs + [r], f, i) && (rs + [r])[i] == rs[i]
  {
    hide About;
  }

  lemma MovesOfSnoc(rs: seq<Record>, r: Record, f: string)
    ensures MovesOf(rs + [r], f) == MovesOf(rs, f) + if About(r, f) then [r] else []
  {
    AboutIsMovement(r, f);
    hide About, Movement;
    assert (rs + [r])[..|rs|] == rs;
  }

  lemma StandsExactly(rs: seq<Record>, s: State, f: string)
    requires s.log.records == rs && RowTold(s, f)
    ensures StandsOpen(rs, f) <==> f in s.folded.findings && s.folded.findings[f].state == Open
    ensures StandsClosed(rs, f) <==> f in s.folded.findings && s.folded.findings[f].state == Closed
  {
    hide MovesOf, Movement, StateAfter, About;
    LastMoveIsLast(rs, f);
    var ms := MovesOf(rs, f);
    if ms != [] {
      var i: nat :| LastAbout(rs, f, i) && rs[i] == ms[|ms| - 1];
      AboutIsMovement(rs[i], f);
      forall j: nat | LastAbout(rs, f, j) ensures j == i { assert !(j < i) && !(i < j); }
    }
  }

  // ---- what is cited

  lemma FoundById(rs: seq<Record>, log: Log, id: string)
    requires log.records == rs && Indexed(log)
    ensures id in log.byId ==> exists i :: 0 <= i < |rs| && rs[i] == log.byId[id] && rs[i].content.id == id
    ensures forall i :: 0 <= i < |rs| && rs[i].content.id == id ==> id in log.byId && log.byId[id] == rs[i]
  {
    forall i | 0 <= i < |rs| && rs[i].content.id == id ensures id in log.byId && log.byId[id] == rs[i] {
      assert rs[i] in log.records && rs[i].Id() == id;
    }
    if id in log.byId {
      assert log.byId[id] in rs && log.byId[id].Id() == id;
      var i :| 0 <= i < |rs| && rs[i] == log.byId[id];
    }
  }

  lemma CitedExactly(rs: seq<Record>, log: Log, f: string, id: string, candidate: Json)
    requires log.records == rs && Indexed(log)
    ensures ProposalCited(log.byId, id, f, candidate).Ok? <==> exists i: nat :: ClosingProposal(rs, i, id, f, candidate)
    ensures RecommendationCited(log.byId, id, f).Ok? <==> exists i: nat :: ClosingRecommendation(rs, i, id, f)
    ensures DecisionCited(log.byId, id, f).Ok? <==> exists i: nat :: ClosingDecision(rs, i, id, f)
    ensures id in log.byId && log.byId[id].Payload().Witness? <==> SomeWitness(rs, id)
  {
    hide Indexed, Same;
    FoundById(rs, log, id);
    if id in log.byId {
      var i: nat :| i < |rs| && rs[i] == log.byId[id] && rs[i].content.id == id;
      assert ProposalCited(log.byId, id, f, candidate).Ok? ==> ClosingProposal(rs, i, id, f, candidate);
      assert RecommendationCited(log.byId, id, f).Ok? ==> ClosingRecommendation(rs, i, id, f);
      assert DecisionCited(log.byId, id, f).Ok? ==> ClosingDecision(rs, i, id, f);
      assert log.byId[id].Payload().Witness? ==> IsWitness(rs, i, id);
    }
  }

  lemma BasisParts(byId: map<string, Record>, f: string, basis: Basis, candidate: Json)
    ensures BasisCheck(byId, f, basis, candidate).Ok? <==>
            && (basis.proposalId.Some? ==> ProposalCited(byId, basis.proposalId.value, f, candidate).Ok?)
            && (basis.recommendationId.Some? ==> RecommendationCited(byId, basis.recommendationId.value, f).Ok?)
            && (basis.decisionId.Some? ==> DecisionCited(byId, basis.decisionId.value, f).Ok?)
            && (forall k :: 0 <= k < |basis.witnessIds| ==>
                  basis.witnessIds[k] in byId && byId[basis.witnessIds[k]].Payload().Witness?)
            && (basis.decisionId.Some? || (basis.proposalId.Some? && basis.recommendationId.Some?))
  {
    hide ProposalCited, RecommendationCited, DecisionCited;
  }

  lemma BasisExactly(rs: seq<Record>, log: Log, f: string, basis: Basis, candidate: Json)
    requires log.records == rs && Indexed(log)
    ensures BasisCheck(log.byId, f, basis, candidate).Ok? <==> BasisLegal(rs, f, basis, candidate)
  {
    hide Indexed, BasisCheck, ProposalCited, RecommendationCited, DecisionCited, ClosingProposal, ClosingRecommendation,
         ClosingDecision, SomeWitness;
    BasisParts(log.byId, f, basis, candidate);
    if basis.proposalId.Some? { CitedExactly(rs, log, f, basis.proposalId.value, candidate); }
    if basis.recommendationId.Some? { CitedExactly(rs, log, f, basis.recommendationId.value, candidate); }
    if basis.decisionId.Some? { CitedExactly(rs, log, f, basis.decisionId.value, candidate); }
    forall k | 0 <= k < |basis.witnessIds|
      ensures basis.witnessIds[k] in log.byId && log.byId[basis.witnessIds[k]].Payload().Witness? <==>
              SomeWitness(rs, basis.witnessIds[k])
    {
      CitedExactly(rs, log, f, basis.witnessIds[k], candidate);
    }
  }

  lemma MoveExactly(rs: seq<Record>, s: State, r: Record)
    requires Known(rs, s) && ((r.Payload().Round? || IsEventKind(r.Payload())) ==> r.content.body.round.Some?)
    ensures Apply(s.log.byId, s.folded, r).Ok? <==> MoveLegal(rs, r)
  {
    hide RowTold, Indexed, Numbered, KeysIndexed, RoundsTold, BasisCheck, BasisLegal, StandsOpen, StandsClosed,
         OpenFinding, AddRound, AddRow, Move, IsHex64;
    var p := r.Payload();
    if p.Resolution? {
      StandsExactly(rs, s, p.resolves);
      BasisExactly(rs, s.log, p.resolves, p.basis, r.content.body.candidate);
    } else if p.Retraction? {
      StandsExactly(rs, s, p.retracts);
    } else if p.Reopen? {
      StandsExactly(rs, s, p.reopens);
    }
  }

  lemma LinkExactly(rs: seq<Record>, s: State, r: Record)
    requires Known(rs, s) && r.content.number == |rs| + 1 && r.content.id == RecordId(r.Payload(), |rs| + 1)
    ensures r.content.id !in s.log.byId
    ensures HeadOrEmpty(s.log.head) == if rs == [] then "" else rs[|rs| - 1].digest
    ensures r.content.body.opKey.Some? ==>
              (r.content.body.opKey.value !in s.log.opKeys <==>
               forall i :: 0 <= i < |rs| ==> rs[i].content.body.opKey != r.content.body.opKey)
  {
    hide RecordId, RowTold, RoundsTold, IsHex64;
    GateOnChain.FreshId(s, r.Payload());
    if r.content.body.opKey.Some? {
      var key := r.content.body.opKey.value;
      if key in s.log.opKeys {
        var i :| 0 <= i < |rs| && rs[i] == s.log.opKeys[key];
      }
      forall i | 0 <= i < |rs| && rs[i].content.body.opKey == Some(key) ensures key in s.log.opKeys {
        assert rs[i] in s.log.records;
      }
    }
  }

  lemma AdmitExactly(hash: Content -> string, rs: seq<Record>, s: State, r: Record)
    requires Known(rs, s)
    ensures Admit(hash, s, r).Ok? && MoveLegal(rs, r) <==> Follows(hash, rs, r)
  {
    hide Known, IsHex64, RecordId, BodyCheck, WellFormed, RoundCheck, RoundLegal, MoveLegal;
    assert s.log.records == rs && RoundsTold(rs, s.folded)
           && s.log.session == (if rs == [] then None else Some(rs[0].content.body.session))
           && (rs != [] ==> IsHex64(rs[|rs| - 1].digest)) by { KnownParts(rs, s); }
    WellFormedExactly(r.content.body, true);
    RoundExactly(rs, s.folded, r.content.body);
    if r.content.number == |rs| + 1 && r.content.id == RecordId(r.Payload(), |rs| + 1) { LinkExactly(rs, s, r); }
  }

  lemma KnownParts(rs: seq<Record>, s: State)
    requires Known(rs, s)
    ensures s.log.records == rs && RoundsTold(rs, s.folded)
    ensures s.log.session == (if rs == [] then None else Some(rs[0].content.body.session))
    ensures rs != [] ==> IsHex64(rs[|rs| - 1].digest)
  {
    hide IsHex64, RoundsTold;
  }

  /** On a chain it has accepted, the walker accepts a record exactly when it may follow. */
  lemma StepExactly(hash: Content -> string, rs: seq<Record>, s: State, r: Record)
    requires Reaches(hash, rs, s)
    ensures Step(hash, s, r).Ok? <==> Follows(hash, rs, r)
  {
    hide Reaches, Known, Follows, MoveLegal, Apply, Stamp;
    ReachedIsKnown(hash, rs, s);
    AdmitExactly(hash, rs, s, r);
    assert Admit(hash, s, r).Ok? ==> (r.Payload().Round? || IsEventKind(r.Payload()) ==> r.content.body.round.Some?);
    if Admit(hash, s, r).Ok? { MoveExactly(rs, s, r); }
    hide Admit;
  }

  lemma AcceptedSnoc(hash: Content -> string, rs: seq<Record>, r: Record)
    ensures Accepted(hash, rs + [r]) <==> Accepted(hash, rs) && Follows(hash, rs, r)
  {
    hide Reaches, Step, Follows;
    assert (rs + [r])[..|rs|] == rs;
    if Accepted(hash, rs + [r]) {
      var t :| Reaches(hash, rs + [r], t);
      var s := ReachesUnsnoc(hash, rs + [r], t);
      StepExactly(hash, rs, s, r);
    }
    if Accepted(hash, rs) && Follows(hash, rs, r) {
      var s :| Reaches(hash, rs, s);
      StepExactly(hash, rs, s, r);
      ReachesSnoc(hash, rs, s, r, Step(hash, s, r).value);
    }
  }

  /** A chain is accepted exactly when each of its records may follow those before it. */
  lemma {:induction false} AcceptedExactly(hash: Content -> string, rs: seq<Record>)
    ensures Accepted(hash, rs) <==> forall i :: 0 <= i < |rs| ==> Follows(hash, rs[..i], rs[i])
    decreases |rs|
  {
    hide Reaches, Follows;
    if rs == [] {
      ReachesEmpty(hash);
    } else {
      hide Accepted;
      var front, n := rs[..|rs| - 1], |rs| - 1;
      AcceptedExactly(hash, front);
      assert rs == front + [rs[n]];
      AcceptedSnoc(hash, front, rs[n]);
      assert forall i :: 0 <= i < n ==> front[..i] == rs[..i] && front[i] == rs[i];
    }
  }

  // ---- what the store mints

  /** The record the store makes of a body. */
  ghost predicate MintedFrom(hash: Content -> string, rs: seq<Record>, b: Body, r: Record) {
    var c := r.content;
    && c.schema == 1 && c.number == |rs| + 1 && c.id == RecordId(b.payload, |rs| + 1)
    && c.prevDigest == (if rs == [] then "" else rs[|rs| - 1].digest) && r.digest == hash(c)
    && c.body == if b.payload.Round? then b.(round := Some(|RoundsAt(rs, b.phase, b.payload.seat)| + 1)) else b
  }

  lemma MintedExactly(hash: Content -> string, rs: seq<Record>, s: State, b: Body)
    requires Reaches(hash, rs, s)
    ensures MintedFrom(hash, rs, b, Minted(hash, s, b))
  {
    hide Reaches, RecordId, RoundsAt, RowTold, Indexed, KeysIndexed, IsHex64;
    ReachedIsKnown(hash, rs, s);
    assert b.payload.Round? ==>
             RoundsMinted(s.folded.roundCounts, b.phase, b.payload.seat) == |RoundsAt(rs, b.phase, b.payload.seat)|;
    hide RoundsMinted, RoundsTold;
  }

  /** Every well-formed round of the chain's session, under no key or a fresh one, is accepted as the
      store mints it, numbered next for its seat in its phase. */
  lemma RoundsAreCommittable(hash: Content -> string, rs: seq<Record>, s: State, b: Body)
    requires Reaches(hash, rs, s) && GateOnChain.HexDigest(hash)
    requires b.payload.Round? && WellFormed(b, false)
    requires rs != [] ==> b.session == rs[0].content.body.session
    requires b.opKey.Some? ==> forall i :: 0 <= i < |rs| ==> rs[i].content.body.opKey != b.opKey
    ensures Step(hash, s, Minted(hash, s, b)).Ok?
    ensures Minted(hash, s, b).content.body.round == Some(|RoundsAt(rs, b.phase, b.payload.seat)| + 1)
  {
    hide Reaches, Step, RecordId, RoundsAt, PayloadOk, IsHex64;
    var r := Minted(hash, s, b);
    MintedExactly(hash, rs, s, b);
    StepExactly(hash, rs, s, r);
    hide Minted;
    assert IsHex64(r.digest);
    assert Follows(hash, rs, r);
  }
}
