/**
 What every accepted chain guarantees, for every chain: the head pins the whole history,
 prefixes are chains, and each finding lives a legal life told by the records themselves.
 */
module ChainHistory {
  import opened Text
  import opened Candidate
  import opened ChainRecord
  import opened ChainWalker

  // ---- taking one accepted step apart

  lemma StepParts(hash: Content -> string, s: State, r: Record, t: State)
    requires Step(hash, s, r) == Ok(t)
    ensures Admit(hash, s, r).Ok?
    ensures Apply(s.log.byId, s.folded, r) == Ok(t.folded) && t.log == Stamp(s.log, r)
  {
    hide Admit, Apply, Stamp;
  }

  /** What admission establishes about the record and its link to the chain. */
  lemma AdmitParts(hash: Content -> string, s: State, r: Record)
    requires Admit(hash, s, r).Ok?
    ensures r.content.number == |s.log.records| + 1
    ensures r.Id() !in s.log.byId && r.Id() == RecordId(r.Payload(), |s.log.records| + 1)
    ensures r.content.prevDigest == HeadOrEmpty(s.log.head) && r.digest == hash(r.content)
    ensures r.digest != ""
    ensures s.log.session.None? || s.log.session == Some(r.content.body.session)
    ensures BodyCheck(r.content.body, true).Ok? && RoundCheck(s.folded, r.content.body).Ok?
    ensures r.content.body.opKey.Some? ==> r.content.body.opKey.value !in s.log.opKeys
  {
    hide BodyCheck, RoundCheck, RecordId;
  }

  // ---- the index of records

  /** `by_id` holds exactly the records of the chain, each under its own identifier. */
  ghost predicate Indexed(log: Log) {
    && (forall r :: r in log.records ==> r.Id() in log.byId && log.byId[r.Id()] == r)
    && (forall id :: id in log.byId ==> log.byId[id] in log.records && log.byId[id].Id() == id)
  }

  /** Records are numbered from one, named after their number, and the head is the last digest. */
  ghost predicate Numbered(log: Log) {
    && (forall i :: 0 <= i < |log.records| ==>
          log.records[i].Id() == RecordId(log.records[i].Payload(), i + 1) && log.records[i].digest != "")
    && (log.head == if log.records == [] then None else Some(log.records[|log.records| - 1].digest))
  }

  lemma StepKeepsIndex(hash: Content -> string, s: State, r: Record, t: State)
    requires Step(hash, s, r) == Ok(t)
    ensures t.log.records == s.log.records + [r]
    ensures Indexed(s.log) ==> Indexed(t.log)
    ensures Numbered(s.log) ==> Numbered(t.log)
  {
    hide Step, IsHex64, RecordId;
    StepParts(hash, s, r, t);
    AdmitParts(hash, s, r);
    hide Admit, Apply, IsHex64, RecordId;
    assert t.log.records == s.log.records + [r] && t.log.byId == s.log.byId[r.Id() := r];
    assert t.log.head == Some(r.digest);
    hide Indexed, Numbered;
    if Indexed(s.log) { AddKeepsIndex(s.log, t.log, r); }
    if Numbered(s.log) { AddKeepsNumbers(s.log, t.log, r); }
  }

  lemma AddKeepsIndex(before: Log, after: Log, r: Record)
    requires Indexed(before) && r.Id() !in before.byId
    requires after.records == before.records + [r] && after.byId == before.byId[r.Id() := r]
    ensures Indexed(after)
  {
  }

  lemma AddKeepsNumbers(before: Log, after: Log, r: Record)
    requires Numbered(before) && r.Id() == RecordId(r.Payload(), |before.records| + 1) && r.digest != ""
    requires after.records == before.records + [r] && after.head == Some(r.digest)
    ensures Numbered(after)
  {
    hide RecordId;
  }

  lemma {:induction false} ReachesIndexed(hash: Content -> string, rs: seq<Record>, s: State)
    requires Reaches(hash, rs, s)
    ensures s.log.records == rs
    ensures Indexed(s.log) && Numbered(s.log)
    decreases |rs|
  {
    hide Step, IsHex64, RecordId;
    ReachesEmpty(hash);
    if rs != [] {
      hide Reaches;
      var p := ReachesUnsnoc(hash, rs, s);
      ReachesIndexed(hash, rs[..|rs| - 1], p);
      StepKeepsIndex(hash, p, rs[|rs| - 1], s);
    }
  }

  // ---- the head fixes the history

  /** A record of `rs` and a record of `qs` that differ in content and agree in digest. */
  ghost predicate Collision(hash: Content -> string, rs: seq<Record>, qs: seq<Record>) {
    exists i, j :: 0 <= i < |rs| && 0 <= j < |qs|
                   && rs[i].content != qs[j].content && hash(rs[i].content) == hash(qs[j].content)
  }

  /** Two accepted chains that end in the same head are the same chain, record for record,
      unless a record of one and a record of the other collide. */
  lemma {:induction false} HeadFixesHistory(
    hash: Content -> string, rs: seq<Record>, s: State, qs: seq<Record>, t: State)
    requires Reaches(hash, rs, s) && Reaches(hash, qs, t)
    requires s.log.head == t.log.head
    ensures rs == qs || Collision(hash, rs, qs)
    decreases |rs|
  {
    hide Step, RecordId, Reaches, Indexed, Numbered, HeadOrEmpty, Collision;
    EmptyTogether(hash, rs, s, qs, t);
    if rs != [] {
      var r, q, before, other := rs[|rs| - 1], qs[|qs| - 1], rs[..|rs| - 1], qs[..|qs| - 1];
      var p := ReachesUnsnoc(hash, rs, s);
      var o := ReachesUnsnoc(hash, qs, t);
      LastLink(hash, p, r, s);
      LastLink(hash, o, q, t);
      if r.content == q.content {
        ReachesIndexed(hash, before, p);
        ReachesIndexed(hash, other, o);
        HeadsAgree(p.log, o.log);
        HeadFixesHistory(hash, before, p, other, o);
        assert rs == before + [r] && qs == other + [q];
        if Collision(hash, before, other) { CollisionStays(hash, before, r, other, q); }
      } else {
        LastCollide(hash, rs, qs);
      }
    }
  }

  lemma EmptyTogether(hash: Content -> string, rs: seq<Record>, s: State, qs: seq<Record>, t: State)
    requires Reaches(hash, rs, s) && Reaches(hash, qs, t) && s.log.head == t.log.head
    ensures rs == [] <==> qs == []
  {
    hide Reaches, Indexed, RecordId;
    ReachesIndexed(hash, rs, s);
    ReachesIndexed(hash, qs, t);
  }

  lemma LastCollide(hash: Content -> string, rs: seq<Record>, qs: seq<Record>)
    requires rs != [] && qs != []
    requires rs[|rs| - 1].content != qs[|qs| - 1].content
    requires hash(rs[|rs| - 1].content) == hash(qs[|qs| - 1].content)
    ensures Collision(hash, rs, qs)
  {
  }

  lemma CollisionStays(hash: Content -> string, rs: seq<Record>, r: Record, qs: seq<Record>, q: Record)
    requires Collision(hash, rs, qs)
    ensures Collision(hash, rs + [r], qs + [q])
  {
    var i, j :| 0 <= i < |rs| && 0 <= j < |qs|
      && rs[i].content != qs[j].content && hash(rs[i].content) == hash(qs[j].content);
    assert (rs + [r])[i] == rs[i] && (qs + [q])[j] == qs[j];
  }

  lemma LastLink(hash: Content -> string, s: State, r: Record, t: State)
    requires Step(hash, s, r) == Ok(t)
    ensures r.digest == hash(r.content) && r.content.prevDigest == HeadOrEmpty(s.log.head)
    ensures t.log.head == Some(r.digest)
  {
    hide Step;
    StepParts(hash, s, r, t);
    AdmitParts(hash, s, r);
    hide Admit, Apply;
  }

  lemma HeadsAgree(p: Log, o: Log)
    requires Numbered(p) && Numbered(o)
    requires HeadOrEmpty(p.head) == HeadOrEmpty(o.head)
    ensures p.head == o.head
  {
    hide RecordId;
    if p.records != [] { assert p.records[|p.records| - 1].digest != ""; }
    if o.records != [] { assert o.records[|o.records| - 1].digest != ""; }
  }

  /** Cutting a chain at any record boundary leaves an accepted chain: `read_chain` alone
      cannot notice the cut. */
  lemma PrefixAccepted(hash: Content -> string, rs: seq<Record>, n: nat)
    requires Accepted(hash, rs) && n <= |rs|
    ensures Accepted(hash, rs[..n])
  {
    hide Step;
    var s :| Reaches(hash, rs, s);
    var ss :| Trace(hash, rs, ss) && ss[|rs|] == s;
    assert Trace(hash, rs[..n], ss[..n + 1]);
    assert Reaches(hash, rs[..n], ss[n]);
  }

  /** The cut is visible in the head: a proper prefix never shows the head of the whole,
      unless two records of the chain collide. */
  lemma ShorterChainHasAnotherHead(hash: Content -> string, rs: seq<Record>, s: State, n: nat, p: State)
    requires Reaches(hash, rs, s) && n < |rs| && Reaches(hash, rs[..n], p)
    ensures p.log.head != s.log.head || Collision(hash, rs[..n], rs)
  {
    hide Step, Reaches;
    if p.log.head == s.log.head {
      HeadFixesHistory(hash, rs[..n], p, rs, s);
    }
  }

  // ---- the life of a finding

  /** The records of a chain that move the finding `f`, oldest first. */
  function MovesOf(rs: seq<Record>, f: string): seq<Record> {
    if rs == [] then []
    else
      var r := rs[|rs| - 1];
      var front := MovesOf(rs[..|rs| - 1], f);
      if Movement(r).Some? && Movement(r).value.0 == f then front + [r] else front
  }

  function KindAt(ms: seq<Record>, i: nat): EventKind
    requires i < |ms| && Movement(ms[i]).Some?
  {
    Movement(ms[i]).value.1
  }

  /** Opened once, then strictly alternating closed and reopened; withdrawn or duplicate
      only in place of a close, and only last. */
  ghost predicate LegalLife(ms: seq<Record>) {
    && (forall i :: 0 <= i < |ms| ==> Movement(ms[i]).Some?)
    && ms != []
    && KindAt(ms, 0) == Opened
    && forall i :: 0 < i < |ms| ==>
         if i % 2 == 0 then KindAt(ms, i) == Reopened
         else KindAt(ms, i) == ClosedBy
              || (i == |ms| - 1 && KindAt(ms, i) in {RetractedAs(Withdrawn), RetractedAs(Duplicate)})
  }

  /** The folded row of `f` is what its last move made of it. */
  ghost predicate RowTold(s: State, f: string) {
    var ms := MovesOf(s.log.records, f);
    if f in s.folded.findings then
      && LegalLife(ms)
      && s.folded.findings[f].state == StateAfter(KindAt(ms, |ms| - 1))
      && s.folded.findings[f].lastTransition == ms[|ms| - 1].Id()
    else ms == []
  }

  /** What a move does to the findings: one row takes the new state, named after the record. */
  ghost predicate Moved(s: Folded, r: Record, f: string, k: EventKind, u: Folded) {
    && u.findings.Keys == s.findings.Keys + {f}
    && (forall g :: g in s.findings && g != f ==> u.findings[g] == s.findings[g])
    && u.findings[f].state == StateAfter(k) && u.findings[f].lastTransition == r.Id()
    && (if k == Opened then f == r.Id()
        else f in s.findings && s.findings[f].state == (if k == Reopened then Closed else Open))
    && (k.RetractedAs? ==> k.final in {Withdrawn, Duplicate})
  }

  lemma OpenMoves(s: Folded, r: Record)
    requires r.Payload().Finding? && r.content.body.round.Some?
    ensures Moved(s, r, r.Id(), Opened, OpenFinding(s, r))
  {
  }

  lemma ShiftMoves(byId: map<string, Record>, s: Folded, r: Record, u: Folded)
    requires Movement(r).Some? && !r.Payload().Finding? && r.content.body.round.Some?
    requires Shift(byId, s, r) == Ok(u)
    ensures Moved(s, r, Movement(r).value.0, Movement(r).value.1, u)
  {
    hide BasisCheck;
  }

  /** How one accepted record changes the findings. */
  lemma ApplyMoves(byId: map<string, Record>, s: Folded, r: Record, u: Folded)
    requires (r.Payload().Round? || IsEventKind(r.Payload())) ==> r.content.body.round.Some?
    requires Apply(byId, s, r) == Ok(u)
    ensures if Movement(r).None? then u.findings == s.findings
            else Moved(s, r, Movement(r).value.0, Movement(r).value.1, u)
  {
    hide OpenFinding, Shift, Moved, Append, AppendAt, Grants;
    if r.Payload().Finding? {
      OpenMoves(s, r);
    } else if Movement(r).Some? {
      ShiftMoves(byId, s, r, u);
    }
  }

  /** What one accepted step does to the findings and the chain. */
  lemma StepMoves(hash: Content -> string, s: State, r: Record, t: State)
    requires Step(hash, s, r) == Ok(t)
    ensures if Movement(r).None? then t.folded.findings == s.folded.findings
            else Moved(s.folded, r, Movement(r).value.0, Movement(r).value.1, t.folded)
    ensures r.Id() !in s.log.byId && t.log.byId.Keys == s.log.byId.Keys + {r.Id()}
    ensures t.log.records == s.log.records + [r]
  {
    hide Step, Moved;
    StepParts(hash, s, r, t);
    AdmitParts(hash, s, r);
    hide Admit, Apply;
    ApplyMoves(s.log.byId, s.folded, r, t.folded);
  }

  lemma StepKeepsRow(s: State, r: Record, t: State, f: string)
    requires if Movement(r).None? then t.folded.findings == s.folded.findings
             else Moved(s.folded, r, Movement(r).value.0, Movement(r).value.1, t.folded)
    requires t.log.records == s.log.records + [r]
    requires r.Id() !in s.folded.findings
    requires RowTold(s, f)
    ensures RowTold(t, f)
  {
    hide Movement, StateAfter, LegalLife, Moved;
    MovesSnoc(s.log.records, r, f);
    if Movement(r).Some? && Movement(r).value.0 == f {
      MoveKeepsRow(s, r, t, f);
    } else {
      RowUntouched(s, r, t, f);
    }
  }

  lemma MovesSnoc(rs: seq<Record>, r: Record, f: string)
    ensures MovesOf(rs + [r], f) ==
            if Movement(r).Some? && Movement(r).value.0 == f then MovesOf(rs, f) + [r] else MovesOf(rs, f)
  {
    hide Movement;
    assert (rs + [r])[..|rs|] == rs;
  }

  lemma RowUntouched(s: State, r: Record, t: State, f: string)
    requires if Movement(r).None? then t.folded.findings == s.folded.findings
             else Movement(r).value.0 != f && Moved(s.folded, r, Movement(r).value.0, Movement(r).value.1, t.folded)
    requires MovesOf(t.log.records, f) == MovesOf(s.log.records, f) && RowTold(s, f)
    ensures RowTold(t, f)
  {
    hide Movement, StateAfter, LegalLife, MovesOf;
  }

  lemma MoveKeepsRow(s: State, r: Record, t: State, f: string)
    requires Movement(r).Some? && Movement(r).value.0 == f
    requires Moved(s.folded, r, f, Movement(r).value.1, t.folded)
    requires MovesOf(t.log.records, f) == MovesOf(s.log.records, f) + [r]
    requires r.Id() !in s.folded.findings && RowTold(s, f)
    ensures RowTold(t, f)
  {
    hide Movement, StateAfter, LegalLife, MovesOf;
    LifeGoesOn(MovesOf(s.log.records, f), r, if f in s.folded.findings then Some(s.folded.findings[f].state) else None);
  }

  /** One more legal move keeps a life legal. */
  lemma LifeGoesOn(ms: seq<Record>, r: Record, at: Option<FindingState>)
    requires Movement(r).Some?
    requires if at.Some? then LegalLife(ms) && at.value == StateAfter(KindAt(ms, |ms| - 1)) else ms == []
    requires var k := Movement(r).value.1;
      if k == Opened then at.None? else at == Some(if k == Reopened then Closed else Open)
    requires Movement(r).value.1.RetractedAs? ==> Movement(r).value.1.final in {Withdrawn, Duplicate}
    ensures LegalLife(ms + [r])
  {
    hide Movement;
    var ns := ms + [r];
    var k := Movement(r).value.1;
    if ms != [] {
      var last := |ms| - 1;
      assert KindAt(ns, |ms|) == k;
      assert forall i :: 0 <= i < |ms| ==> KindAt(ns, i) == KindAt(ms, i);
      assert last > 0 && last % 2 == 0 ==> KindAt(ms, last) == Reopened;
      assert last % 2 == 1 ==> KindAt(ms, last) != Reopened;
    }
  }

  lemma {:induction false} FindingsAreRecords(hash: Content -> string, rs: seq<Record>, s: State)
    requires Reaches(hash, rs, s)
    ensures s.folded.findings.Keys <= s.log.byId.Keys
    decreases |rs|
  {
    hide Step, Movement, StateAfter;
    ReachesEmpty(hash);
    if rs != [] {
      hide Reaches;
      var p := ReachesUnsnoc(hash, rs, s);
      FindingsAreRecords(hash, rs[..|rs| - 1], p);
      StepMoves(hash, p, rs[|rs| - 1], s);
    }
  }

  /** Every finding of an accepted chain has lived legally, its folded state and last
      transition are those of its last move, and its folded events are its moves in order. */
  lemma FindingLifecycle(hash: Content -> string, rs: seq<Record>, s: State, f: string)
    requires Reaches(hash, rs, s)
    ensures s.log.records == rs && RowTold(s, f)
    ensures EventsAbout(s.folded.events, f) == EventsOf(MovesOf(rs, f))
  {
    hide Reaches, RowTold;
    ReachesIndexed(hash, rs, s);
    RowIsTold(hash, rs, s, f);
    EventsAreMoves(hash, rs, s);
    EventsOfMoves(rs, f);
  }

  lemma {:induction false} RowIsTold(hash: Content -> string, rs: seq<Record>, s: State, f: string)
    requires Reaches(hash, rs, s)
    ensures RowTold(s, f)
    decreases |rs|
  {
    hide Step, RowTold, Moved, Movement;
    ReachesEmpty(hash);
    if rs == [] {
      RowAtStart(f);
    } else {
      hide Reaches;
      var p := ReachesUnsnoc(hash, rs, s);
      RowIsTold(hash, rs[..|rs| - 1], p, f);
      FindingsAreRecords(hash, rs[..|rs| - 1], p);
      StepMoves(hash, p, rs[|rs| - 1], s);
      StepKeepsRow(p, rs[|rs| - 1], s, f);
    }
  }

  lemma RowAtStart(f: string)
    ensures RowTold(INIT, f)
  {
  }

  // ---- the events the fold exports

  /** The events of a sequence of records: one for each that moves a finding, in order. */
  function EventsOf(rs: seq<Record>): seq<Event> {
    if rs == [] then [] else EventsOf(rs[..|rs| - 1]) + EventOf(rs[|rs| - 1])
  }

  function EventOf(r: Record): seq<Event> {
    match Movement(r)
    case None => []
    case Some((f, kind)) =>
      var round := r.content.body.round;
      [Event(r.content.number, if round.Some? then round.value else 0, f, kind, r.Id())]
  }

  function EventsAbout(events: seq<Event>, f: string): seq<Event> {
    if events == [] then []
    else
      var before, last := EventsAbout(events[..|events| - 1], f), events[|events| - 1];
      if last.findingId == f then before + [last] else before
  }

  lemma ApplyEvents(byId: map<string, Record>, s: Folded, r: Record, u: Folded)
    requires (r.Payload().Round? || IsEventKind(r.Payload())) ==> r.content.body.round.Some?
    requires Apply(byId, s, r) == Ok(u)
    ensures u.events == s.events + EventOf(r)
  {
    hide BasisCheck, Grants, Append, AppendAt;
  }

  /** The folded events of an accepted chain are those of its records, one for each move. */
  lemma {:induction false} EventsAreMoves(hash: Content -> string, rs: seq<Record>, s: State)
    requires Reaches(hash, rs, s)
    ensures s.folded.events == EventsOf(rs)
    decreases |rs|
  {
    hide Step, EventOf;
    ReachesEmpty(hash);
    if rs != [] {
      hide Reaches;
      var p := ReachesUnsnoc(hash, rs, s);
      var r := rs[|rs| - 1];
      EventsAreMoves(hash, rs[..|rs| - 1], p);
      StepParts(hash, p, r, s);
      hide Admit, Apply;
      assert Admit(hash, p, r).Ok?;
      ApplyEvents(p.log.byId, p.folded, r, s.folded);
    }
  }

  lemma EventsSnoc(rs: seq<Record>, r: Record)
    ensures EventsOf(rs + [r]) == EventsOf(rs) + EventOf(r)
  {
    hide EventOf;
    assert (rs + [r])[..|rs|] == rs;
  }

  lemma AboutSnoc(events: seq<Event>, r: Record, f: string)
    ensures EventsAbout(events + EventOf(r), f) ==
            EventsAbout(events, f) + if Movement(r).Some? && Movement(r).value.0 == f then EventOf(r) else []
  {
    hide Movement;
    if Movement(r).Some? {
      assert (events + EventOf(r))[..|events|] == events;
    } else {
      assert events + EventOf(r) == events;
    }
  }

  /** And those about one finding are, in order, the events of the records that move it. */
  lemma {:induction false} EventsOfMoves(rs: seq<Record>, f: string)
    ensures EventsAbout(EventsOf(rs), f) == EventsOf(MovesOf(rs, f))
  {
    hide Movement, EventOf;
    if rs != [] {
      var front, r := rs[..|rs| - 1], rs[|rs| - 1];
      EventsOfMoves(front, f);
      assert rs == front + [r];
      hide EventsOf, EventsAbout, MovesOf;
      EventsSnoc(front, r);
      AboutSnoc(EventsOf(front), r, f);
      MovesSnoc(front, r, f);
      EventsSnoc(MovesOf(front, f), r);
    }
  }

  // ---- what a close rests on

  /** A decision in `rs` with a candidate of its own that closes `f`. */
  ghost predicate ClosingDecision(rs: seq<Record>, i: nat, id: string, f: string) {
    i < |rs| && rs[i].Id() == id && rs[i].Payload().Decision?
    && !rs[i].content.body.candidate.Null?
    && Ruling(f, "close") in rs[i].Payload().adjudicates
  }

  ghost predicate ClosingProposal(rs: seq<Record>, i: nat, id: string, f: string, candidate: Json) {
    i < |rs| && rs[i].Id() == id && rs[i].Payload().Proposal?
    && f in rs[i].Payload().findingIds && Same(rs[i].Payload().changedCandidate, candidate)
  }

  ghost predicate ClosingRecommendation(rs: seq<Record>, i: nat, id: string, f: string) {
    i < |rs| && rs[i].Id() == id && rs[i].Payload().Recommendation?
    && rs[i].Payload().about == f && rs[i].Payload().recommend == "closed"
  }

  /** Every close in an accepted chain rests on records that stand before it: a closing
      decision with a candidate, or a proposal on the resolution's own candidate together
      with a closed recommendation. */
  lemma CloseCitesEarlierRecords(hash: Content -> string, rs: seq<Record>, n: nat)
    requires Accepted(hash, rs) && n < |rs| && rs[n].Payload().Resolution?
    ensures var f, basis := rs[n].Payload().resolves, rs[n].Payload().basis;
      || (basis.decisionId.Some? && exists i :: ClosingDecision(rs[..n], i, basis.decisionId.value, f))
      || (basis.proposalId.Some? && basis.recommendationId.Some?
          && (exists i :: ClosingProposal(rs[..n], i, basis.proposalId.value, f, rs[n].content.body.candidate))
          && (exists i :: ClosingRecommendation(rs[..n], i, basis.recommendationId.value, f)))
  {
    hide Step;
    var end :| Reaches(hash, rs, end);
    var ss :| Trace(hash, rs, ss) && ss[|rs|] == end;
    assert Trace(hash, rs[..n], ss[..n + 1]);
    var s, r := ss[n], rs[n];
    assert Reaches(hash, rs[..n], s);
    ReachesIndexed(hash, rs[..n], s);
    StepParts(hash, s, r, ss[n + 1]);
    AdmitParts(hash, s, r);
    hide Admit, Trace, Reaches;
    BasisHolds(s.log, s.folded, r);
  }

  lemma BasisHolds(s: Log, folded: Folded, r: Record)
    requires Indexed(s) && r.Payload().Resolution? && r.content.body.round.Some?
    requires Apply(s.byId, folded, r).Ok?
    ensures var f, basis := r.Payload().resolves, r.Payload().basis;
      || (basis.decisionId.Some? && exists i :: ClosingDecision(s.records, i, basis.decisionId.value, f))
      || (basis.proposalId.Some? && basis.recommendationId.Some?
          && (exists i :: ClosingProposal(s.records, i, basis.proposalId.value, f, r.content.body.candidate))
          && (exists i :: ClosingRecommendation(s.records, i, basis.recommendationId.value, f)))
  {
    hide Same, RecordId, IsHex64;
    var f, basis, c := r.Payload().resolves, r.Payload().basis, r.content.body.candidate;
    assert BasisCheck(s.byId, f, basis, c).Ok?;
    if basis.decisionId.Some? {
      var id := basis.decisionId.value;
      assert DecisionCited(s.byId, id, f).Ok?;
      var i :| 0 <= i < |s.records| && s.records[i].Id() == id;
      assert ClosingDecision(s.records, i, id, f);
    } else {
      var p, q := basis.proposalId.value, basis.recommendationId.value;
      assert ProposalCited(s.byId, p, f, c).Ok? && RecommendationCited(s.byId, q, f).Ok?;
      var i :| 0 <= i < |s.records| && s.records[i].Id() == p;
      var j :| 0 <= j < |s.records| && s.records[j].Id() == q;
      assert ClosingProposal(s.records, i, p, f, c);
      assert ClosingRecommendation(s.records, j, q, f);
    }
  }
}
