/**
 What an accepted chain folds to, row by row: every folded list is its records' rows in order, told
 on the records' own fields, and every round is numbered by how many came before it.
 */
module FoldExact {
  import opened Text
  import opened Candidate
  import opened ChainRecord
  import opened ChainWalker
  import opened ChainHistory

  // ---- the row each record gives

  function RoundRowOf(r: Record): seq<RoundRow> {
    var b := r.content.body;
    if b.payload.Round? && b.round.Some?
    then [RoundRow(r.content.id, b.phase, b.payload.seat, b.round.value, b.candidate)] else []
  }

  function ProposalRowFor(r: Record): seq<ProposalRow> {
    var p := r.content.body.payload;
    if p.Proposal?
    then [ProposalRow(r.content.id, p.findingIds, r.content.body.candidate, p.changedCandidate, p.authorRole, p.needs)]
    else []
  }

  function DecisionRowFor(r: Record): seq<DecisionRow> {
    var p := r.content.body.payload;
    if p.Decision?
    then [DecisionRow(r.content.id, p.requestId, p.principal, p.answerSha256, p.adjudicates, r.content.body.candidate)]
    else []
  }

  /** A recommendation about the finding. */
  function RecommendationRowFor(r: Record, f: string): seq<RecommendationRow> {
    var p := r.content.body.payload;
    if p.Recommendation? && p.about == f
    then [RecommendationRow(r.content.id, p.recommend, p.madeIn, p.reviewerSeat)] else []
  }

  /** A witness for the claim. */
  function WitnessRowFor(r: Record, claim: string): seq<WitnessRow> {
    var p := r.content.body.payload;
    if p.Witness? && p.claimId == claim
    then [WitnessRow(r.content.id, p.witnessClass, r.content.body.candidate, p.result)] else []
  }

  /** The capabilities an amendment names, or a granted escalation. */
  function GrantsFor(r: Record): seq<Grant> {
    var p := r.content.body.payload;
    var tokens :=
      if p.Amendment? && p.amendGrants.Some? then p.amendGrants.value
      else if p.EscalationResume? && p.resumeOutcome == "grant" then p.resumeGrants
      else [];
    seq(|tokens|, i requires 0 <= i < |tokens| => Grant(r.content.id, tokens[i]))
  }

  function FindingIdOf(r: Record): seq<string> {
    if r.content.body.payload.Finding? then [r.content.id] else []
  }

  // ---- the rows of a chain

  function Rounds(rs: seq<Record>): seq<RoundRow> {
    if rs == [] then [] else Rounds(rs[..|rs| - 1]) + RoundRowOf(rs[|rs| - 1])
  }

  function Proposals(rs: seq<Record>): seq<ProposalRow> {
    if rs == [] then [] else Proposals(rs[..|rs| - 1]) + ProposalRowFor(rs[|rs| - 1])
  }

  function Decisions(rs: seq<Record>): seq<DecisionRow> {
    if rs == [] then [] else Decisions(rs[..|rs| - 1]) + DecisionRowFor(rs[|rs| - 1])
  }

  function Recommendations(rs: seq<Record>, f: string): seq<RecommendationRow> {
    if rs == [] then [] else Recommendations(rs[..|rs| - 1], f) + RecommendationRowFor(rs[|rs| - 1], f)
  }

  function Witnesses(rs: seq<Record>, claim: string): seq<WitnessRow> {
    if rs == [] then [] else Witnesses(rs[..|rs| - 1], claim) + WitnessRowFor(rs[|rs| - 1], claim)
  }

  function GrantsOf(rs: seq<Record>): seq<Grant> {
    if rs == [] then [] else GrantsOf(rs[..|rs| - 1]) + GrantsFor(rs[|rs| - 1])
  }

  function FindingIds(rs: seq<Record>): seq<string> {
    if rs == [] then [] else FindingIds(rs[..|rs| - 1]) + FindingIdOf(rs[|rs| - 1])
  }

  /** The folded rows, list by list. */
  ghost predicate RowsTold(rs: seq<Record>, s: Folded) {
    && s.rounds == Rounds(rs) && s.proposals == Proposals(rs) && s.decisions == Decisions(rs)
    && (forall f :: RowsOf(s.recommendations, f) == Recommendations(rs, f))
    && (forall c :: RowsOf(s.witnesses, c) == Witnesses(rs, c))
    && s.grants == GrantsOf(rs) && s.findingOrder == FindingIds(rs)
  }

  /** What one record adds. */
  ghost predicate Adds(s: Folded, r: Record, u: Folded) {
    && u.rounds == s.rounds + RoundRowOf(r) && u.proposals == s.proposals + ProposalRowFor(r)
    && u.decisions == s.decisions + DecisionRowFor(r)
    && (forall f :: RowsOf(u.recommendations, f) == RowsOf(s.recommendations, f) + RecommendationRowFor(r, f))
    && (forall c :: RowsOf(u.witnesses, c) == RowsOf(s.witnesses, c) + WitnessRowFor(r, c))
    && u.grants == s.grants + GrantsFor(r) && u.findingOrder == s.findingOrder + FindingIdOf(r)
  }

  lemma OpenAdds(s: Folded, r: Record)
    requires r.Payload().Finding? && r.content.body.round.Some?
    ensures Adds(s, r, OpenFinding(s, r))
  {
  }

  lemma ShiftAdds(byId: map<string, Record>, s: Folded, r: Record, u: Folded)
    requires Movement(r).Some? && !r.Payload().Finding? && r.content.body.round.Some? && Shift(byId, s, r) == Ok(u)
    ensures Adds(s, r, u)
  {
    hide BasisCheck;
  }

  lemma RoundAdds(s: Folded, r: Record)
    requires r.Payload().Round? && r.content.body.round.Some?
    ensures Adds(s, r, AddRound(s, r))
  {
  }

  lemma RowAdds(s: Folded, r: Record)
    requires Movement(r).None? && !r.Payload().Round?
    ensures Adds(s, r, AddRow(s, r))
  {
    var u := AddRow(s, r);
    forall f ensures RowsOf(u.recommendations, f) == RowsOf(s.recommendations, f) + RecommendationRowFor(r, f) {
    }
    forall c ensures RowsOf(u.witnesses, c) == RowsOf(s.witnesses, c) + WitnessRowFor(r, c) {
    }
    assert Grants(r.Id(), GrantedBy(r)) == GrantsFor(r);
  }

  lemma ApplyAdds(byId: map<string, Record>, s: Folded, r: Record, u: Folded)
    requires (r.Payload().Round? || IsEventKind(r.Payload())) ==> r.content.body.round.Some?
    requires Apply(byId, s, r) == Ok(u)
    ensures Adds(s, r, u)
  {
    hide Adds, Shift, OpenFinding, AddRound, AddRow;
    if r.Payload().Finding? {
      OpenAdds(s, r);
    } else if Movement(r).Some? {
      ShiftAdds(byId, s, r, u);
    } else if r.Payload().Round? {
      RoundAdds(s, r);
    } else {
      RowAdds(s, r);
    }
  }

  lemma StepAdds(hash: Content -> string, s: State, r: Record, t: State)
    requires Step(hash, s, r) == Ok(t)
    ensures Adds(s.folded, r, t.folded)
  {
    hide Step, Adds;
    StepParts(hash, s, r, t);
    hide Admit, Apply;
    assert Admit(hash, s, r).Ok?;
    ApplyAdds(s.log.byId, s.folded, r, t.folded);
  }

  lemma RowsSnoc(rs: seq<Record>, s: Folded, r: Record, u: Folded)
    requires RowsTold(rs, s) && Adds(s, r, u)
    ensures RowsTold(rs + [r], u)
  {
    hide RoundRowOf, ProposalRowFor, DecisionRowFor, RecommendationRowFor, WitnessRowFor, GrantsFor, FindingIdOf,
         RowsOf;
    var all := rs + [r];
    assert all[..|all| - 1] == rs && all[|all| - 1] == r;
  }

  lemma NoRows()
    ensures RowsTold([], INIT.folded)
  {
  }

  /** Every folded list of an accepted chain is exactly its records' rows, in order. */
  lemma {:induction false} FoldIsRows(hash: Content -> string, rs: seq<Record>, s: State)
    requires Reaches(hash, rs, s)
    ensures RowsTold(rs, s.folded)
    decreases |rs|
  {
    hide Step, RowsTold, Adds;
    ReachesEmpty(hash);
    if rs == [] {
      NoRows();
    } else {
      hide Reaches;
      var front, r := rs[..|rs| - 1], rs[|rs| - 1];
      var p := ReachesUnsnoc(hash, rs, s);
      FoldIsRows(hash, front, p);
      StepAdds(hash, p, r, s);
      RowsSnoc(front, p.folded, r, s.folded);
      assert front + [r] == rs;
    }
  }

  // ---- findings as they were opened

  /** A folded finding repeats the record that opened it, but for its state and last transition. */
  ghost predicate OpenedBy(row: FindingRow, r: Record) {
    var b := r.content.body;
    && b.payload.Finding? && b.round.Some?
    && row.phase == b.phase && row.candidate == b.candidate && row.openedRound == b.round.value
    && row.blocking == b.payload.blocking && row.claimClass == b.payload.claimClass && row.session == b.session
  }

  ghost predicate FindingsTold(rs: seq<Record>, s: Folded) {
    && (forall f :: f in s.findings ==> OpenedAmong(rs, f, s.findings[f]))
    && (forall i :: 0 <= i < |rs| && rs[i].Payload().Finding? ==> rs[i].content.id in s.findings)
  }

  lemma StepChangesFindings(hash: Content -> string, s: State, r: Record, t: State)
    requires Step(hash, s, r) == Ok(t)
    ensures FindingsChange(s.folded, r, t.folded)
  {
    hide Step, FindingsChange;
    StepParts(hash, s, r, t);
    hide Admit, Apply;
    assert Admit(hash, s, r).Ok?;
    ApplyChangesFindings(s.log.byId, s.folded, r, t.folded);
  }

  /** One row takes another state and last transition. */
  predicate MovesRow(s: Folded, u: Folded, f: string, state: FindingState, last: string) {
    f in s.findings && u.findings == s.findings[f := s.findings[f].(state := state, lastTransition := last)]
  }

  /** A record opens its own finding, or moves one, or leaves them alone. */
  ghost predicate FindingsChange(s: Folded, r: Record, u: Folded) {
    if r.Payload().Finding? then
      r.Id() in u.findings && u.findings == s.findings[r.Id() := u.findings[r.Id()]] && OpenedBy(u.findings[r.Id()], r)
    else
      u.findings == s.findings || exists f, state, last :: MovesRow(s, u, f, state, last)
  }

  lemma ApplyChangesFindings(byId: map<string, Record>, s: Folded, r: Record, u: Folded)
    requires (r.Payload().Round? || IsEventKind(r.Payload())) ==> r.content.body.round.Some?
    requires Apply(byId, s, r) == Ok(u)
    ensures FindingsChange(s, r, u)
  {
    hide BasisCheck, Append, AppendAt, Grants;
    if r.Payload().Finding? {
      assert u.findings == s.findings[r.Id() := u.findings[r.Id()]];
    } else if Movement(r).Some? {
      var (f, kind) := Movement(r).value;
      assert u == Move(s, r, f, StateAfter(kind), kind);
      assert MovesRow(s, u, f, StateAfter(kind), r.Id());
    }
  }

  ghost predicate OpenedAmong(rs: seq<Record>, f: string, row: FindingRow) {
    exists i :: 0 <= i < |rs| && rs[i].content.id == f && OpenedBy(row, rs[i])
  }

  lemma OpenedSnoc(rs: seq<Record>, r: Record, f: string, row: FindingRow)
    ensures OpenedAmong(rs, f, row) ==> OpenedAmong(rs + [r], f, row)
    ensures r.content.id == f && OpenedBy(row, r) ==> OpenedAmong(rs + [r], f, row)
  {
    hide OpenedBy;
    var all := rs + [r];
    assert all[|rs|] == r && forall i :: 0 <= i < |rs| ==> all[i] == rs[i];
    if OpenedAmong(rs, f, row) {
      var i :| 0 <= i < |rs| && rs[i].content.id == f && OpenedBy(row, rs[i]);
      assert all[i].content.id == f && OpenedBy(row, all[i]);
    }
  }

  lemma MovedIsOpened(rs: seq<Record>, f: string, row: FindingRow, state: FindingState, last: string)
    requires OpenedAmong(rs, f, row)
    ensures OpenedAmong(rs, f, row.(state := state, lastTransition := last))
  {
    var i :| 0 <= i < |rs| && rs[i].content.id == f && OpenedBy(row, rs[i]);
    assert OpenedBy(row.(state := state, lastTransition := last), rs[i]);
  }

  lemma FindingsSnoc(rs: seq<Record>, s: Folded, r: Record, u: Folded)
    requires FindingsTold(rs, s) && FindingsChange(s, r, u)
    ensures FindingsTold(rs + [r], u)
  {
    hide OpenedAmong, OpenedBy;
    var all := rs + [r];
    assert all[|rs|] == r && forall i :: 0 <= i < |rs| ==> all[i] == rs[i];
    forall f | f in u.findings ensures OpenedAmong(all, f, u.findings[f]) {
      OpenedSnoc(rs, r, f, u.findings[f]);
      if g, state, last :| MovesRow(s, u, g, state, last) {
        if f == g { MovedIsOpened(rs, f, s.findings[f], state, last); }
      }
    }
  }

  /** Every folded finding stands for the record that opened it, and every finding is folded. */
  lemma {:induction false} FindingsAreOpened(hash: Content -> string, rs: seq<Record>, s: State)
    requires Reaches(hash, rs, s)
    ensures FindingsTold(rs, s.folded)
    decreases |rs|
  {
    hide Step, FindingsTold, FindingsChange;
    ReachesEmpty(hash);
    if rs == [] {
      NoFindings();
    } else {
      hide Reaches;
      var front, r := rs[..|rs| - 1], rs[|rs| - 1];
      var p := ReachesUnsnoc(hash, rs, s);
      FindingsAreOpened(hash, front, p);
      StepChangesFindings(hash, p, r, s);
      FindingsSnoc(front, p.folded, r, s.folded);
      assert front + [r] == rs;
    }
  }

  lemma NoFindings()
    ensures FindingsTold([], INIT.folded)
  {
  }

  // ---- rounds

  predicate IsRoundOf(r: Record, phase: string, seat: string) {
    r.content.body.payload.Round? && r.content.body.phase == phase && r.content.body.payload.seat == seat
  }

  /** Where the rounds of a seat in a phase stand. */
  function RoundsAt(rs: seq<Record>, phase: string, seat: string): set<nat> {
    set i: nat | i < |rs| && IsRoundOf(rs[i], phase, seat)
  }

  lemma RoundsAtSnoc(rs: seq<Record>, r: Record, phase: string, seat: string)
    ensures |RoundsAt(rs + [r], phase, seat)| ==
              |RoundsAt(rs, phase, seat)| + if IsRoundOf(r, phase, seat) then 1 else 0
  {
    hide IsRoundOf;
    var all, before := rs + [r], RoundsAt(rs, phase, seat);
    var after := RoundsAt(all, phase, seat);
    assert all[|rs|] == r && forall i: nat :: i < |rs| ==> all[i] == rs[i];
    forall i: nat ensures i in after <==> i in before || (i == |rs| && IsRoundOf(r, phase, seat)) {
    }
    assert |rs| !in before;
    hide RoundsAt;
    assert after == if IsRoundOf(r, phase, seat) then before + {|rs|} else before;
  }

  /** The walker's three tables of rounds, told on the records. */
  ghost predicate RoundsTold(rs: seq<Record>, s: Folded) {
    && (forall phase, seat :: RoundsMinted(s.roundCounts, phase, seat) == |RoundsAt(rs, phase, seat)|)
    && (forall phase, n :: (phase, n) in s.roundKeys <==> RoundHeld(rs, phase, n))
    && (forall id :: id in s.roundRows <==> exists i :: IdentifiedRound(rs, i, id))
    && (forall i: nat, id :: IdentifiedRound(rs, i, id) ==> RoundRowOf(rs[i]) == [s.roundRows[id]])
  }

  predicate NumberedRound(rs: seq<Record>, i: nat, phase: string, n: int) {
    i < |rs| && rs[i].Payload().Round? && rs[i].content.body.phase == phase && rs[i].content.body.round == Some(n)
  }

  /** A round of this number was held in the phase. */
  ghost predicate RoundHeld(rs: seq<Record>, phase: string, n: int) {
    exists i: nat :: NumberedRound(rs, i, phase, n)
  }

  predicate IdentifiedRound(rs: seq<Record>, i: nat, id: string) {
    i < |rs| && rs[i].Payload().Round? && rs[i].content.id == id
  }

  lemma NoRounds()
    ensures RoundsTold([], INIT.folded)
  {
    forall phase: string, seat: string ensures RoundsAt([], phase, seat) == {} {
    }
  }

  /** A record that is no round leaves the tables. */
  lemma ApplyKeepsRounds(byId: map<string, Record>, s: Folded, r: Record, u: Folded)
    requires (r.Payload().Round? || IsEventKind(r.Payload())) ==> r.content.body.round.Some?
    requires Apply(byId, s, r) == Ok(u)
    ensures !r.Payload().Round? ==>
              u.roundCounts == s.roundCounts && u.roundKeys == s.roundKeys && u.roundRows == s.roundRows
    ensures r.Payload().Round? ==> u == AddRound(s, r)
  {
    hide BasisCheck, Append, AppendAt, Grants, AddRound;
  }

  lemma OtherKeepsRounds(rs: seq<Record>, s: Folded, r: Record, u: Folded)
    requires RoundsTold(rs, s) && !r.Payload().Round?
    requires u.roundCounts == s.roundCounts && u.roundKeys == s.roundKeys && u.roundRows == s.roundRows
    ensures RoundsTold(rs + [r], u)
  {
    hide RoundRowOf;
    var all := rs + [r];
    forall phase, seat ensures RoundsMinted(u.roundCounts, phase, seat) == |RoundsAt(all, phase, seat)| {
      RoundsAtSnoc(rs, r, phase, seat);
    }
    hide RoundsAt, RoundsMinted;
    assert all[|rs|] == r && forall i: nat :: i < |rs| ==> all[i] == rs[i];
    forall i: nat, phase, n ensures NumberedRound(all, i, phase, n) <==> NumberedRound(rs, i, phase, n) {
    }
    forall i: nat, id ensures IdentifiedRound(all, i, id) <==> IdentifiedRound(rs, i, id) {
    }
  }

  lemma RoundExtendsTables(rs: seq<Record>, s: Folded, r: Record)
    requires RoundsTold(rs, s) && r.Payload().Round?
    requires r.content.body.round == Some(|RoundsAt(rs, r.content.body.phase, r.Payload().seat)| + 1)
    requires forall i :: 0 <= i < |rs| ==> rs[i].content.id != r.content.id
    ensures RoundsTold(rs + [r], AddRound(s, r))
  {
    hide RoundRowOf;
    var all, u, b := rs + [r], AddRound(s, r), r.content.body;
    forall phase, seat ensures RoundsMinted(u.roundCounts, phase, seat) == |RoundsAt(all, phase, seat)| {
      RoundsAtSnoc(rs, r, phase, seat);
      assert RoundsMinted(s.roundCounts, phase, seat) == |RoundsAt(rs, phase, seat)|;
    }
    hide RoundsAt, RoundsMinted;
    RoundPlaces(rs, r);
    forall phase, n ensures (phase, n) in u.roundKeys <==> exists i :: NumberedRound(all, i, phase, n) {
      assert (exists i :: NumberedRound(all, i, phase, n)) <==>
             (exists i :: NumberedRound(rs, i, phase, n)) || NumberedRound(all, |rs|, phase, n);
    }
    forall id ensures id in u.roundRows <==> exists i :: IdentifiedRound(all, i, id) {
      assert (exists i :: IdentifiedRound(all, i, id)) <==>
             (exists i :: IdentifiedRound(rs, i, id)) || IdentifiedRound(all, |rs|, id);
    }
    forall i: nat, id | IdentifiedRound(all, i, id) ensures RoundRowOf(all[i]) == [u.roundRows[id]] {
      NewRow(s, r);
      if i < |rs| { assert IdentifiedRound(rs, i, id) && id != r.content.id && all[i] == rs[i]; }
    }
  }

  lemma NewRow(s: Folded, r: Record)
    requires r.Payload().Round? && r.content.body.round.Some?
    ensures RoundRowOf(r) == [AddRound(s, r).roundRows[r.content.id]]
  {
  }

  /** A record at the end adds its own place and keeps the others. */
  lemma RoundPlaces(rs: seq<Record>, r: Record)
    ensures var all := rs + [r];
      && (forall i: nat, phase, n :: i < |rs| ==> (NumberedRound(all, i, phase, n) <==> NumberedRound(rs, i, phase, n)))
      && (forall i: nat, id :: i < |rs| ==> (IdentifiedRound(all, i, id) <==> IdentifiedRound(rs, i, id)))
      && (forall i: nat, phase, n :: NumberedRound(all, i, phase, n) ==> i <= |rs|)
      && (forall i: nat, id :: IdentifiedRound(all, i, id) ==> i <= |rs|)
      && (forall phase, n :: NumberedRound(all, |rs|, phase, n) <==>
            r.Payload().Round? && r.content.body.phase == phase && r.content.body.round == Some(n))
      && (forall id :: IdentifiedRound(all, |rs|, id) <==> r.Payload().Round? && r.content.id == id)
  {
    var all := rs + [r];
    assert all[|rs|] == r && forall i: nat :: i < |rs| ==> all[i] == rs[i];
  }

  lemma {:induction false} RoundsAreTold(hash: Content -> string, rs: seq<Record>, s: State)
    requires Reaches(hash, rs, s)
    ensures RoundsTold(rs, s.folded)
    decreases |rs|
  {
    hide Step, RoundsTold;
    ReachesEmpty(hash);
    if rs == [] {
      NoRounds();
    } else {
      hide Reaches;
      var front, r := rs[..|rs| - 1], rs[|rs| - 1];
      var p := ReachesUnsnoc(hash, rs, s);
      RoundsAreTold(hash, front, p);
      RoundStep(hash, front, p, r, s);
      assert front + [r] == rs;
    }
  }

  lemma RoundStep(hash: Content -> string, rs: seq<Record>, p: State, r: Record, s: State)
    requires Reaches(hash, rs, p) && RoundsTold(rs, p.folded) && Step(hash, p, r) == Ok(s)
    ensures RoundsTold(rs + [r], s.folded)
    ensures r.Payload().Round? ==>
              r.content.body.round == Some(|RoundsAt(rs, r.content.body.phase, r.Payload().seat)| + 1)
  {
    hide Reaches, Step;
    StepParts(hash, p, r, s);
    AdmitParts(hash, p, r);
    ReachesIndexed(hash, rs, p);
    assert (r.Payload().Round? || IsEventKind(r.Payload())) ==> r.content.body.round.Some? by {
      assert Admit(hash, p, r).Ok?;
    }
    hide Admit, Apply, AddRound, Numbered, Stamp;
    ApplyKeepsRounds(p.log.byId, p.folded, r, s.folded);
    if r.Payload().Round? {
      assert RoundsMinted(p.folded.roundCounts, r.content.body.phase, r.Payload().seat)
          == |RoundsAt(rs, r.content.body.phase, r.Payload().seat)|;
      forall i | 0 <= i < |rs| ensures rs[i].content.id != r.content.id { assert rs[i] in p.log.records; }
      RoundExtendsTables(rs, p.folded, r);
    } else {
      OtherKeepsRounds(rs, p.folded, r, s.folded);
    }
  }

  /** In every accepted chain a round's number is one more than how many rounds its seat had in its
      phase before. */
  lemma RoundsAreNumbered(hash: Content -> string, rs: seq<Record>, n: nat)
    requires Accepted(hash, rs) && n < |rs| && rs[n].Payload().Round?
    ensures rs[n].content.body.round == Some(|RoundsAt(rs[..n], rs[n].content.body.phase, rs[n].Payload().seat)| + 1)
  {
    hide Step, RoundsTold, RoundsAt;
    PrefixAccepted(hash, rs, n + 1);
    var s :| Reaches(hash, rs[..n + 1], s);
    var p := ReachesUnsnoc(hash, rs[..n + 1], s);
    assert rs[..n + 1][..n] == rs[..n];
    hide Reaches;
    RoundsAreTold(hash, rs[..n], p);
    RoundStep(hash, rs[..n], p, rs[n], s);
  }
}
