/**
 The one place record legality lives: the walker that append, read and fold all feed.
 `Step` says what one record does to the chain so far; `Walker` does it in place.
 The digest function is a parameter: SHA-256 of the canonical text of a record.
 */
module ChainWalker {
  import opened Text
  import opened Candidate
  import opened ChainRecord

  datatype FindingState = Open | Closed | Withdrawn | Duplicate

  datatype FindingRow = FindingRow(
    state: FindingState, phase: string, candidate: Json, openedRound: int,
    lastTransition: string, blocking: bool, claimClass: Option<string>, session: string)

  datatype EventKind = Opened | ClosedBy | Reopened | RetractedAs(final: FindingState)

  datatype Event = Event(number: int, round: int, findingId: string, kind: EventKind, id: string)

  datatype RoundRow = RoundRow(roundId: string, phase: string, seat: string, round: int, candidate: Json)

  datatype ProposalRow = ProposalRow(
    id: string, findingIds: seq<string>, candidate: Json, changedCandidate: Json,
    authorRole: string, needs: seq<string>)

  datatype RecommendationRow = RecommendationRow(
    id: string, recommend: string, roundId: string, reviewerSeat: string)

  datatype DecisionRow = DecisionRow(
    id: string, requestId: string, principal: string, answerSha256: string,
    adjudicates: seq<Ruling>, candidate: Json)

  datatype WitnessRow = WitnessRow(
    id: string, claimClass: Option<string>, candidate: Json, result: Option<WitnessResult>)

  datatype Grant = Grant(id: string, capability: string)

  /** The chain itself, indexed. */
  datatype Log = Log(
    head: Option<string>,
    session: Option<string>,
    records: seq<Record>,
    byId: map<string, Record>,
    opKeys: map<string, Record>)

  /** What the records mean. Python's insertion-ordered dictionaries that are iterated are
      sequences of rows here; the ones only looked up are maps. */
  datatype Folded = Folded(
    roundCounts: map<(string, string), int>,
    roundKeys: set<(string, int)>,
    roundRows: map<string, RoundRow>,
    rounds: seq<RoundRow>,
    findings: map<string, FindingRow>,
    findingOrder: seq<string>,
    events: seq<Event>,
    proposals: seq<ProposalRow>,
    recommendations: map<string, seq<RecommendationRow>>,
    decisions: seq<DecisionRow>,
    witnesses: map<string, seq<WitnessRow>>,
    grants: seq<Grant>)

  datatype State = State(log: Log, folded: Folded)

  const INIT := State(Log(None, None, [], map[], map[]),
                      Folded(map[], {}, map[], [], map[], [], [], [], map[], [], map[], []))

  function HeadOrEmpty(head: Option<string>): string {
    if head.Some? then head.value else ""
  }

  predicate IsEventKind(p: Payload) {
    p.Finding? || p.Recommendation? || p.Resolution? || p.Retraction? || p.Reopen?
  }

  function RoundsMinted(counts: map<(string, string), int>, phase: string, seat: string): int {
    if (phase, seat) in counts then counts[(phase, seat)] else 0
  }

  /** The round record a finding, recommendation or reopen names. */
  function NamedRound(p: Payload): Option<string> {
    match p
    case Finding(openedIn, _, _, _, _, _, _, _, _, _) => Some(openedIn)
    case Recommendation(_, _, _, madeIn) => Some(madeIn)
    case Reopen(_, reopenedIn, _) => Some(reopenedIn)
    case _ => None
  }

  /** `_check_round_refs`. */
  function RoundCheck(s: Folded, b: Body): Result<()> {
    if b.payload.Round? then
      Need(b.round == Some(RoundsMinted(s.roundCounts, b.phase, b.payload.seat) + 1), BadRound)
    else
      var _ :- Need(IsEventKind(b.payload) ==> b.round.Some?, BadRound);
      var _ :- Need(b.round.Some? ==> (b.phase, b.round.value) in s.roundKeys, BadRound);
      match NamedRound(b.payload)
      case None => Ok(())
      case Some(rid) =>
        var _ :- Need(rid in s.roundRows, UnknownReference);
        Need(s.roundRows[rid].phase == b.phase && b.round == Some(s.roundRows[rid].round), RoundMismatch)
  }

  // ---- the basis of a resolution

  function ProposalCited(byId: map<string, Record>, id: string, findingId: string, candidate: Json): Result<()> {
    var _ :- Need(id in byId && byId[id].Payload().Proposal?, UnknownReference);
    var p := byId[id].Payload();
    Need(findingId in p.findingIds && Same(p.changedCandidate, candidate), IllegalResolutionBasis)
  }

  function RecommendationCited(byId: map<string, Record>, id: string, findingId: string): Result<()> {
    var _ :- Need(id in byId && byId[id].Payload().Recommendation?, UnknownReference);
    var p := byId[id].Payload();
    Need(p.about == findingId && p.recommend == "closed", IllegalResolutionBasis)
  }

  function DecisionCited(byId: map<string, Record>, id: string, findingId: string): Result<()> {
    var _ :- Need(id in byId && byId[id].Payload().Decision?, UnknownReference);
    var _ :- Need(!byId[id].content.body.candidate.Null?, NullCandidateDecisionBasis);
    Need(Ruling(findingId, "close") in byId[id].Payload().adjudicates, IllegalResolutionBasis)
  }

  /** `_check_basis`: each cited record is checked, and together they must suffice. */
  function BasisCheck(byId: map<string, Record>, findingId: string, basis: Basis, candidate: Json): Result<()> {
    var _ :- if basis.proposalId.Some? then ProposalCited(byId, basis.proposalId.value, findingId, candidate)
             else Ok(());
    var _ :- if basis.recommendationId.Some? then RecommendationCited(byId, basis.recommendationId.value, findingId)
             else Ok(());
    var _ :- if basis.decisionId.Some? then DecisionCited(byId, basis.decisionId.value, findingId) else Ok(());
    var _ :- Need(forall i :: 0 <= i < |basis.witnessIds| ==>
                    basis.witnessIds[i] in byId && byId[basis.witnessIds[i]].Payload().Witness?,
                  UnknownReference);
    Need(basis.decisionId.Some? || (basis.proposalId.Some? && basis.recommendationId.Some?),
         IllegalResolutionBasis)
  }

  // ---- per-kind legality and folding

  function RetractedState(reason: string): FindingState {
    if reason == "withdrawn" then Withdrawn else Duplicate
  }

  /** A legal transition of one finding: its row moves, and the move is an event. */
  function Move(s: Folded, r: Record, findingId: string, to: FindingState, kind: EventKind): Folded
    requires findingId in s.findings && r.content.body.round.Some?
  {
    s.(findings := s.findings[findingId := s.findings[findingId].(state := to, lastTransition := r.Id())],
       events := s.events + [Event(r.content.number, r.content.body.round.value, findingId, kind, r.Id())])
  }

  function Grants(id: string, tokens: seq<string>): seq<Grant> {
    seq(|tokens|, i requires 0 <= i < |tokens| => Grant(id, tokens[i]))
  }

  function RowsOf<T>(m: map<string, seq<T>>, key: string): seq<T> {
    if key in m then m[key] else []
  }

  /** The finding a record moves and how, read off the record alone. */
  function Movement(r: Record): Option<(string, EventKind)> {
    match r.Payload()
    case Finding(_, _, _, _, _, _, _, _, _, _) => Some((r.Id(), Opened))
    case Resolution(resolves, _, _, _) => Some((resolves, ClosedBy))
    case Retraction(retracts, reason, _, _) => Some((retracts, RetractedAs(RetractedState(reason))))
    case Reopen(reopens, _, _) => Some((reopens, Reopened))
    case _ => None
  }

  function StateAfter(k: EventKind): FindingState {
    match k
    case Opened => Open
    case Reopened => Open
    case ClosedBy => Closed
    case RetractedAs(final) => final
  }

  /** `_do_finding`. */
  function OpenFinding(s: Folded, r: Record): Folded
    requires r.Payload().Finding? && r.content.body.round.Some?
  {
    var b := r.content.body;
    var row := FindingRow(Open, b.phase, b.candidate, b.round.value, r.Id(), b.payload.blocking,
                          b.payload.claimClass, b.session);
    s.(findings := s.findings[r.Id() := row],
       findingOrder := s.findingOrder + [r.Id()],
       events := s.events + [Event(r.content.number, b.round.value, r.Id(), Opened, r.Id())])
  }

  /** `_do_resolution`, `_do_retraction` and `_do_reopen`: the finding must exist and stand
      in the state the move starts from, and a resolution must show its basis. */
  function Shift(byId: map<string, Record>, s: Folded, r: Record): Result<Folded>
    requires Movement(r).Some? && r.content.body.round.Some?
  {
    var (f, kind) := Movement(r).value;
    var _ :- Need(f in s.findings, UnknownReference);
    var _ :- Need(s.findings[f].state == (if kind == Reopened then Closed else Open), IllegalTransition);
    var _ :- if r.Payload().Resolution? then BasisCheck(byId, f, r.Payload().basis, r.content.body.candidate)
             else Ok(());
    Ok(Move(s, r, f, StateAfter(kind), kind))
  }

  /** `_do_round`. */
  function AddRound(s: Folded, r: Record): Folded
    requires r.Payload().Round? && r.content.body.round.Some?
  {
    var b := r.content.body;
    var row := RoundRow(r.Id(), b.phase, b.payload.seat, b.round.value, b.candidate);
    s.(roundCounts := s.roundCounts[(b.phase, b.payload.seat) := b.round.value],
       roundKeys := s.roundKeys + {(b.phase, b.round.value)},
       roundRows := s.roundRows[r.Id() := row],
       rounds := s.rounds + [row])
  }

  function ProposalRowOf(r: Record): Option<ProposalRow> {
    match r.Payload()
    case Proposal(ids, _, _, changed, role, needs) =>
      Some(ProposalRow(r.Id(), ids, r.content.body.candidate, changed, role, needs))
    case _ => None
  }

  function DecisionRowOf(r: Record): Option<DecisionRow> {
    match r.Payload()
    case Decision(requestId, _, _, principal, answer, adjudicates, _) =>
      Some(DecisionRow(r.Id(), requestId, principal, answer, adjudicates, r.content.body.candidate))
    case _ => None
  }

  /** A recommendation row, under the finding it is about. */
  function RecommendationOf(r: Record): Option<(string, RecommendationRow)> {
    match r.Payload()
    case Recommendation(about, recommend, seat, madeIn) =>
      Some((about, RecommendationRow(r.Id(), recommend, madeIn, seat)))
    case _ => None
  }

  /** A witness row, under the claim it is about. */
  function WitnessOf(r: Record): Option<(string, WitnessRow)> {
    match r.Payload()
    case Witness(claimId, claimClass, _, _, _, _, result, _) =>
      Some((claimId, WitnessRow(r.Id(), claimClass, r.content.body.candidate, result)))
    case _ => None
  }

  /** The capabilities a record grants: an amendment's, or those of a granted escalation. */
  function GrantedBy(r: Record): seq<string> {
    match r.Payload()
    case Amendment(_, _, _, _, _, grants) => if grants.Some? then grants.value else []
    case EscalationResume(_, _, _, _, outcome, grants) => if outcome == "grant" then grants else []
    case _ => []
  }

  function Append<T>(rows: seq<T>, row: Option<T>): seq<T> {
    if row.Some? then rows + [row.value] else rows
  }

  function AppendAt<T>(rows: map<string, seq<T>>, row: Option<(string, T)>): map<string, seq<T>> {
    if row.Some? then rows[row.value.0 := RowsOf(rows, row.value.0) + [row.value.1]] else rows
  }

  /** The `_do_<kind>` methods of the kinds that only add rows. */
  function AddRow(s: Folded, r: Record): Folded {
    s.(proposals := Append(s.proposals, ProposalRowOf(r)),
       decisions := Append(s.decisions, DecisionRowOf(r)),
       recommendations := AppendAt(s.recommendations, RecommendationOf(r)),
       witnesses := AppendAt(s.witnesses, WitnessOf(r)),
       grants := s.grants + Grants(r.Id(), GrantedBy(r)))
  }

  /** The per-kind part of `feed`. */
  function Apply(byId: map<string, Record>, s: Folded, r: Record): Result<Folded>
    requires (r.Payload().Round? || IsEventKind(r.Payload())) ==> r.content.body.round.Some?
  {
    if r.Payload().Finding? then Ok(OpenFinding(s, r))
    else if Movement(r).Some? then Shift(byId, s, r)
    else if r.Payload().Round? then Ok(AddRound(s, r))
    else Ok(AddRow(s, r))
  }

  function Keyed(opKeys: map<string, Record>, r: Record): map<string, Record> {
    var key := r.content.body.opKey;
    if key.Some? then opKeys[key.value := r] else opKeys
  }

  /** The bookkeeping `feed` does once a record is legal. */
  function Stamp(log: Log, r: Record): Log {
    Log(Some(r.digest), Some(r.content.body.session), log.records + [r],
        log.byId[r.Id() := r], Keyed(log.opKeys, r))
  }

  /** Everything `feed` checks before the per-kind step. */
  function Admit(hash: Content -> string, s: State, r: Record): (a: Result<()>)
    ensures a.Ok? && (r.Payload().Round? || IsEventKind(r.Payload())) ==> r.content.body.round.Some?
  {
    var c := r.content;
    var _ :- Need(c.schema == SCHEMA, WrongSchema);
    var _ :- Need(c.number == |s.log.records| + 1, SeqGap);
    var _ :- Need(c.id !in s.log.byId, DuplicateId);
    var _ :- Need(c.id == RecordId(c.body.payload, c.number), BadId);
    var _ :- Need(s.log.session.None? || s.log.session == Some(c.body.session), WrongSession);
    var _ :- Need(c.prevDigest == HeadOrEmpty(s.log.head), DigestBreak);
    var _ :- Need(r.digest == hash(c), DigestBreak);
    var _ :- StoredCheck(r);
    var _ :- RoundCheck(s.folded, c.body);
    Need(c.body.opKey.Some? ==> c.body.opKey.value !in s.log.opKeys, DuplicateOpKey)
  }

  /** `_Walker.feed`: one record, accepted with its effect or refused with a reason. */
  function Step(hash: Content -> string, s: State, r: Record): Result<State> {
    var _ :- Admit(hash, s, r);
    var folded :- Apply(s.log.byId, s.folded, r);
    Ok(State(Stamp(s.log, r), folded))
  }

  /** The state after a whole chain, or the first refusal. */
  function Walk(hash: Content -> string, rs: seq<Record>): Result<State> {
    if rs == [] then Ok(INIT)
    else
      var s :- Walk(hash, rs[..|rs| - 1]);
      Step(hash, s, rs[|rs| - 1])
  }

  lemma WalkSnoc(hash: Content -> string, rs: seq<Record>, r: Record)
    ensures Walk(hash, rs).Ok? ==> Walk(hash, rs + [r]) == Step(hash, Walk(hash, rs).value, r)
    ensures Walk(hash, rs).Bad? ==> Walk(hash, rs + [r]) == Walk(hash, rs)
  {
    hide Step;
    assert (rs + [r])[..|rs + [r]| - 1] == rs;
  }

  /** The states a chain passes through, one before each record and one at the end. */
  ghost predicate Trace(hash: Content -> string, rs: seq<Record>, ss: seq<State>) {
    |ss| == |rs| + 1 && ss[0] == INIT
    && forall i :: 0 <= i < |rs| ==> Step(hash, ss[i], rs[i]) == Ok(ss[i + 1])
  }

  /** The walker accepts the chain `rs` and ends in `s`. */
  ghost predicate Reaches(hash: Content -> string, rs: seq<Record>, s: State) {
    exists ss :: Trace(hash, rs, ss) && ss[|rs|] == s
  }

  ghost predicate Accepted(hash: Content -> string, rs: seq<Record>) {
    exists s :: Reaches(hash, rs, s)
  }

  lemma ReachesEmpty(hash: Content -> string)
    ensures Reaches(hash, [], INIT)
    ensures forall s :: Reaches(hash, [], s) ==> s == INIT
  {
    hide Step;
    assert Trace(hash, [], [INIT]);
  }

  lemma ReachesSnoc(hash: Content -> string, rs: seq<Record>, s: State, r: Record, t: State)
    requires Reaches(hash, rs, s)
    requires Step(hash, s, r) == Ok(t)
    ensures Reaches(hash, rs + [r], t)
  {
    hide Step;
    var ss :| Trace(hash, rs, ss) && ss[|rs|] == s;
    assert Trace(hash, rs + [r], ss + [t]);
  }

  lemma ReachesUnsnoc(hash: Content -> string, rs: seq<Record>, t: State) returns (s: State)
    requires Reaches(hash, rs, t) && rs != []
    ensures Reaches(hash, rs[..|rs| - 1], s)
    ensures Step(hash, s, rs[|rs| - 1]) == Ok(t)
  {
    hide Step;
    var ss :| Trace(hash, rs, ss) && ss[|rs|] == t;
    s := ss[|rs| - 1];
    assert Trace(hash, rs[..|rs| - 1], ss[..|rs|]);
  }

  /** Walking decides acceptance: it returns the state exactly when some trace ends there. */
  lemma {:induction false} WalkIsReaches(hash: Content -> string, rs: seq<Record>, s: State)
    ensures Walk(hash, rs) == Ok(s) <==> Reaches(hash, rs, s)
  {
    hide Step;
    if rs == [] {
      ReachesEmpty(hash);
    } else {
      var front, r := rs[..|rs| - 1], rs[|rs| - 1];
      assert front + [r] == rs;
      if Walk(hash, rs) == Ok(s) {
        var p := Walk(hash, front).value;
        WalkIsReaches(hash, front, p);
        ReachesSnoc(hash, front, p, r, s);
      }
      if Reaches(hash, rs, s) {
        var p := ReachesUnsnoc(hash, rs, s);
        WalkIsReaches(hash, front, p);
      }
    }
  }

  // ---- the walker in place

  class Walker {
    const hash: Content -> string
    var head: Option<string>
    var session: Option<string>
    var records: seq<Record>
    var byId: map<string, Record>
    var opKeys: map<string, Record>
    var roundCounts: map<(string, string), int>
    var roundKeys: set<(string, int)>
    var roundRows: map<string, RoundRow>
    var rounds: seq<RoundRow>
    var findings: map<string, FindingRow>
    var findingOrder: seq<string>
    var events: seq<Event>
    var proposals: seq<ProposalRow>
    var recommendations: map<string, seq<RecommendationRow>>
    var decisions: seq<DecisionRow>
    var witnesses: map<string, seq<WitnessRow>>
    var grants: seq<Grant>

    function ViewLog(): Log
      reads this`head, this`session, this`records, this`byId, this`opKeys
    {
      Log(head, session, records, byId, opKeys)
    }

    function ViewFolded(): Folded
      reads this`roundCounts, this`roundKeys, this`roundRows, this`rounds, this`findings, this`findingOrder,
            this`events, this`proposals, this`recommendations, this`decisions, this`witnesses, this`grants
    {
      Folded(roundCounts, roundKeys, roundRows, rounds, findings, findingOrder, events,
             proposals, recommendations, decisions, witnesses, grants)
    }

    function View(): State
      reads this
    {
      State(ViewLog(), ViewFolded())
    }

    constructor (hash: Content -> string)
      ensures this.hash == hash && View() == INIT
    {
      this.hash := hash;
      head, session, records, byId, opKeys := None, None, [], map[], map[];
      roundCounts, roundKeys, roundRows, rounds := map[], {}, map[], [];
      findings, findingOrder, events, proposals := map[], [], [], [];
      recommendations, decisions, witnesses, grants := map[], [], map[], [];
    }

    /** A refused record changes nothing; an accepted one moves the fields as `Step` says. */
    method Feed(r: Record) returns (res: Result<()>)
      modifies this
      ensures match Step(hash, old(View()), r)
              case Ok(state) => res.Ok? && View() == state
              case Bad(reason) => res == Bad(reason) && View() == old(View())
    {
      hide Admit, Apply, Stamp, ViewFolded;
      ghost var folded := ViewFolded();
      assert View() == State(ViewLog(), folded);
      res := Admit(hash, View(), r);
      if res.Bad? { return; }
      res := Do(r);
      if res.Bad? { return; }
      Note(r);
    }

    /** The bookkeeping after a legal record. */
    method Note(r: Record)
      modifies this`head, this`session, this`records, this`byId, this`opKeys
      ensures ViewLog() == Stamp(old(ViewLog()), r)
    {
      hide Keyed;
      head, session, records := Some(r.digest), Some(r.content.body.session), records + [r];
      byId, opKeys := byId[r.Id() := r], Keyed(opKeys, r);
    }

    /** Dispatch to the per-kind methods. */
    method Do(r: Record) returns (res: Result<()>)
      requires (r.Payload().Round? || IsEventKind(r.Payload())) ==> r.content.body.round.Some?
      modifies this`roundCounts, this`roundKeys, this`roundRows, this`rounds, this`findings, this`findingOrder,
               this`events, this`proposals, this`recommendations, this`decisions, this`witnesses, this`grants
      ensures match Apply(old(byId), old(ViewFolded()), r)
              case Ok(folded) => res.Ok? && ViewFolded() == folded
              case Bad(reason) => res == Bad(reason) && ViewFolded() == old(ViewFolded())
    {
      hide ViewFolded, OpenFinding, Shift, AddRound, AddRow;
      res := Ok(());
      if r.Payload().Finding? {
        DoFinding(r);
      } else if Movement(r).Some? {
        res := DoShift(r);
      } else if r.Payload().Round? {
        DoRound(r);
      } else {
        DoRow(r);
      }
    }

    method DoFinding(r: Record)
      requires r.Payload().Finding? && r.content.body.round.Some?
      modifies this`findings, this`findingOrder, this`events
      ensures ViewFolded() == OpenFinding(old(ViewFolded()), r)
    {
      var b := r.content.body;
      findings := findings[r.Id() :=
        FindingRow(Open, b.phase, b.candidate, b.round.value, r.Id(), b.payload.blocking,
                   b.payload.claimClass, b.session)];
      findingOrder := findingOrder + [r.Id()];
      events := events + [Event(r.content.number, b.round.value, r.Id(), Opened, r.Id())];
    }

    method DoShift(r: Record) returns (res: Result<()>)
      requires Movement(r).Some? && r.content.body.round.Some?
      modifies this`findings, this`events
      ensures match Shift(old(byId), old(ViewFolded()), r)
              case Ok(folded) => res.Ok? && ViewFolded() == folded
              case Bad(reason) => res == Bad(reason) && ViewFolded() == old(ViewFolded())
    {
      hide BasisCheck, Movement, StateAfter;
      var (f, kind) := Movement(r).value;
      if f !in findings { return Bad(UnknownReference); }
      if findings[f].state != (if kind == Reopened then Closed else Open) { return Bad(IllegalTransition); }
      if r.Payload().Resolution? {
        res := BasisCheck(byId, f, r.Payload().basis, r.content.body.candidate);
        if res.Bad? { return; }
      }
      findings := findings[f := findings[f].(state := StateAfter(kind), lastTransition := r.Id())];
      events := events + [Event(r.content.number, r.content.body.round.value, f, kind, r.Id())];
      return Ok(());
    }

    method DoRound(r: Record)
      requires r.Payload().Round? && r.content.body.round.Some?
      modifies this`roundCounts, this`roundKeys, this`roundRows, this`rounds
      ensures ViewFolded() == AddRound(old(ViewFolded()), r)
    {
      var b := r.content.body;
      var row := RoundRow(r.Id(), b.phase, b.payload.seat, b.round.value, b.candidate);
      roundCounts, roundKeys := roundCounts[(b.phase, b.payload.seat) := b.round.value],
                                roundKeys + {(b.phase, b.round.value)};
      roundRows, rounds := roundRows[r.Id() := row], rounds + [row];
    }

    /** The kinds that only add rows, and the two that fold nothing. */
    method DoRow(r: Record)
      modifies this`proposals, this`recommendations, this`decisions, this`witnesses, this`grants
      ensures ViewFolded() == AddRow(old(ViewFolded()), r)
    {
      hide ProposalRowOf, DecisionRowOf, RecommendationOf, WitnessOf, GrantedBy, Grants;
      proposals := Append(proposals, ProposalRowOf(r));
      decisions := Append(decisions, DecisionRowOf(r));
      recommendations := AppendAt(recommendations, RecommendationOf(r));
      witnesses := AppendAt(witnesses, WitnessOf(r));
      grants := grants + Grants(r.Id(), GrantedBy(r));
    }
  }

  /** `fold`: a fresh walker fed every record, stopping at the first refusal. */
  method Fold(hash: Content -> string, rs: seq<Record>) returns (res: Result<State>)
    ensures res == Walk(hash, rs)
  {
    hide Step;
    var walker := new Walker(hash);
    for i := 0 to |rs|
      invariant walker.hash == hash && fresh(walker)
      invariant Walk(hash, rs[..i]) == Ok(walker.View())
    {
      WalkSnoc(hash, rs[..i], rs[i]);
      assert rs[..i] + [rs[i]] == rs[..i + 1];
      var fed := walker.Feed(rs[i]);
      if fed.Bad? {
        RefusalIsFinal(hash, rs, i + 1);
        return Bad(fed.reason);
      }
    }
    assert rs[..|rs|] == rs;
    return Ok(walker.View());
  }

  /** Once a prefix is refused no continuation is accepted, and the reason stands. */
  lemma {:induction false} RefusalIsFinal(hash: Content -> string, rs: seq<Record>, n: nat)
    requires n <= |rs|
    ensures Walk(hash, rs[..n]).Bad? ==> Walk(hash, rs) == Walk(hash, rs[..n])
  {
    hide Step;
    if n == |rs| {
      assert rs[..n] == rs;
    } else {
      assert rs[..|rs| - 1][..n] == rs[..n];
      RefusalIsFinal(hash, rs[..|rs| - 1], n);
    }
  }
}
