/**
 What an append comes to when nothing fails, told on the records of the file: which batches are
 refused, which are answered from the chain, and which records a committed batch adds.
 */
module CommitExact {
  import opened Text
  import opened Candidate
  import opened ChainRecord
  import opened ChainWalker
  import opened ChainHistory
  import opened ChainBytes
  import opened ChainCommit
  import opened ChainRuns
  import opened RecordExact
  import opened FoldExact
  import opened ChainLegal

  // ---- one candidate a batch

  /** A round, a finding and a recommendation name the candidate they are about. */
  predicate NamesCandidate(b: Body) {
    b.payload.Round? || b.payload.Finding? || b.payload.Recommendation?
  }

  /** All of a batch that name a candidate name one. */
  predicate OneCandidate(bodies: seq<Body>) {
    forall i, j :: 0 <= i < j < |bodies| && NamesCandidate(bodies[i]) && NamesCandidate(bodies[j]) ==>
      Valid(bodies[i].candidate) && bodies[i].candidate == bodies[j].candidate
  }

  lemma {:induction false} CandidatesExactly(bodies: seq<Body>, reference: Option<Json>)
    ensures BatchCandidates(bodies, reference).Ok? <==>
            && OneCandidate(bodies)
            && (reference.Some? ==> forall i :: 0 <= i < |bodies| && NamesCandidate(bodies[i]) ==>
                  Valid(reference.value) && bodies[i].candidate == reference.value)
  {
    hide Valid, Same;
    if bodies != [] {
      var first, rest := bodies[0], bodies[1..];
      assert forall i :: 0 <= i < |rest| ==> rest[i] == bodies[i + 1];
      if !NamesCandidate(first) {
        CandidatesExactly(rest, reference);
        assert OneCandidate(bodies) <==> OneCandidate(rest);
      } else if reference.None? {
        CandidatesExactly(rest, Some(first.candidate));
      } else {
        SameIsValidIdentity(reference.value, first.candidate);
        CandidatesExactly(rest, reference);
      }
    }
  }

  // ---- what is already there

  /** The record holds the body as it was handed in; a round gets its number from the store. */
  predicate StoredAs(r: Record, b: Body) {
    if b.payload.Round? then b.round.None? && r.content.body.(round := None) == b else r.content.body == b
  }

  /** A record of the chain carries the body's key. */
  ghost predicate KeyThere(rs: seq<Record>, b: Body) {
    b.opKey.Some? && exists i :: 0 <= i < |rs| && rs[i].content.body.opKey == b.opKey
  }

  ghost predicate BodyThere(rs: seq<Record>, b: Body) {
    b.opKey.Some? && exists i :: 0 <= i < |rs| && rs[i].content.body.opKey == b.opKey && StoredAs(rs[i], b)
  }

  predicate IsSameReplay(opKeys: map<string, Record>, b: Body) {
    IsReplay(opKeys, b) && BodyView(opKeys[b.opKey.value]) == b
  }

  lemma ThereExactly(log: Log, b: Body)
    requires KeysIndexed(log) && KeysUnique(log.records)
    ensures IsReplay(log.opKeys, b) <==> KeyThere(log.records, b)
    ensures IsSameReplay(log.opKeys, b) <==> BodyThere(log.records, b)
  {
    var rs := log.records;
    if IsReplay(log.opKeys, b) {
      var r := log.opKeys[b.opKey.value];
      assert r in rs && r.content.body.opKey == b.opKey;
      var i :| 0 <= i < |rs| && rs[i] == r;
      ViewExactly(r, b);
      forall j | 0 <= j < |rs| && rs[j].content.body.opKey == b.opKey ensures j == i {
        assert !(j < i) && !(i < j);
      }
    }
    if i :| 0 <= i < |rs| && b.opKey.Some? && rs[i].content.body.opKey == b.opKey {
      assert rs[i] in rs;
    }
  }

  lemma ViewExactly(r: Record, b: Body)
    ensures BodyView(r) == b <==> StoredAs(r, b)
  {
  }

  // ---- what a commit adds

  /** The records the batch becomes: each minted from its body after those before it, and legal. */
  ghost predicate Extends(hash: Content -> string, rs: seq<Record>, bodies: seq<Body>, added: seq<Record>) {
    |added| == |bodies| && forall k :: 0 <= k < |bodies| ==> Extended(hash, rs, bodies, added, k)
  }

  ghost predicate Extended(hash: Content -> string, rs: seq<Record>, bodies: seq<Body>, added: seq<Record>, k: nat) {
    k < |bodies| && k < |added| && MintedFrom(hash, rs + added[..k], bodies[k], added[k])
    && Follows(hash, rs + added[..k], added[k])
  }

  /** There is one such sequence at most. */
  lemma {:induction false} ExtendsOnce(
    hash: Content -> string, rs: seq<Record>, bodies: seq<Body>, a: seq<Record>, b: seq<Record>, n: nat)
    requires Extends(hash, rs, bodies, a) && Extends(hash, rs, bodies, b) && n <= |bodies|
    ensures a[..n] == b[..n]
  {
    hide Follows, MintedFrom;
    if n > 0 {
      ExtendsOnce(hash, rs, bodies, a, b, n - 1);
      assert Extended(hash, rs, bodies, a, n - 1) && Extended(hash, rs, bodies, b, n - 1);
      SameMint(hash, rs + a[..n - 1], bodies[n - 1], a[n - 1], b[n - 1]);
      assert a[..n] == a[..n - 1] + [a[n - 1]] && b[..n] == b[..n - 1] + [b[n - 1]];
    }
  }

  lemma SameMint(hash: Content -> string, rs: seq<Record>, b: Body, r: Record, q: Record)
    requires MintedFrom(hash, rs, b, r) && MintedFrom(hash, rs, b, q)
    ensures r == q
  {
    hide RecordId, RoundsAt;
    assert r.content == q.content;
  }

  lemma ExtendsSnoc(
    hash: Content -> string, rs: seq<Record>, bodies: seq<Body>, b: Body, added: seq<Record>, r: Record)
    requires |added| == |bodies|
    ensures Extends(hash, rs, bodies + [b], added + [r]) <==>
            Extends(hash, rs, bodies, added) && MintedFrom(hash, rs + added, b, r) && Follows(hash, rs + added, r)
  {
    hide MintedFrom, Follows;
    var all, more, n := bodies + [b], added + [r], |bodies|;
    assert more[..n] == added && more[n] == r && all[n] == b;
    forall k | 0 <= k < n ensures Extended(hash, rs, all, more, k) <==> Extended(hash, rs, bodies, added, k) {
      assert more[..k] == added[..k];
    }
    assert Extended(hash, rs, all, more, n) <==> MintedFrom(hash, rs + added, b, r) && Follows(hash, rs + added, r);
  }

  /** Minting succeeds exactly when the batch extends the chain, and adds just those records. */
  lemma {:induction false} MintAllExactly(hash: Content -> string, rs: seq<Record>, s: State, bodies: seq<Body>)
    requires Reaches(hash, rs, s)
    ensures MintAll(hash, s, bodies).Ok? <==> exists added :: Extends(hash, rs, bodies, added)
    ensures MintAll(hash, s, bodies).Ok? ==>
              exists added ::
                Extends(hash, rs, bodies, added) && Reaches(hash, rs + added, MintAll(hash, s, bodies).value)
    decreases |bodies|
  {
    hide Reaches, Step, Minted, MintedFrom, Follows, Extends;
    if bodies == [] {
      assert Extends(hash, rs, [], []) by { ExtendsNothing(hash, rs); }
      assert rs + [] == rs;
    } else {
      var front, b := bodies[..|bodies| - 1], bodies[|bodies| - 1];
      assert bodies == front + [b];
      MintAllExactly(hash, rs, s, front);
      if MintAll(hash, s, front).Ok? {
        var t := MintAll(hash, s, front).value;
        var before :| Extends(hash, rs, front, before) && Reaches(hash, rs + before, t);
        LengthOf(hash, rs, front, before);
        MintOneMore(hash, rs, front, before, t, b);
      }
      if added :| Extends(hash, rs, bodies, added) {
        LengthOf(hash, rs, bodies, added);
        var most, r := added[..|added| - 1], added[|added| - 1];
        assert added == most + [r];
        ExtendsSnoc(hash, rs, front, b, most, r);
      }
    }
  }

  lemma ExtendsNothing(hash: Content -> string, rs: seq<Record>)
    ensures Extends(hash, rs, [], [])
  {
  }

  lemma LengthOf(hash: Content -> string, rs: seq<Record>, bodies: seq<Body>, added: seq<Record>)
    requires Extends(hash, rs, bodies, added)
    ensures |added| == |bodies|
  {
  }

  lemma MintOneMore(
    hash: Content -> string, rs: seq<Record>, front: seq<Body>, before: seq<Record>, t: State, b: Body)
    requires Extends(hash, rs, front, before) && |before| == |front| && Reaches(hash, rs + before, t)
    ensures var r := Minted(hash, t, b);
      && (Step(hash, t, r).Ok? <==> exists added :: Extends(hash, rs, front + [b], added))
      && (Step(hash, t, r).Ok? ==>
            Extends(hash, rs, front + [b], before + [r])
            && Reaches(hash, rs + (before + [r]), Step(hash, t, r).value))
  {
    hide Reaches, Step, Minted, Follows, Extends, MintedFrom;
    var r := Minted(hash, t, b);
    MintedExactly(hash, rs + before, t, b);
    StepExactly(hash, rs + before, t, r);
    ExtendsSnoc(hash, rs, front, b, before, r);
    assert rs + before + [r] == rs + (before + [r]);
    if Step(hash, t, r).Ok? { ReachesSnoc(hash, rs + before, t, r, Step(hash, t, r).value); }
    if added :| Extends(hash, rs, front + [b], added) {
      LengthOf(hash, rs, front + [b], added);
      var most, q := added[..|added| - 1], added[|added| - 1];
      assert added == most + [q];
      ExtendsSnoc(hash, rs, front, b, most, q);
      ExtendsOnce(hash, rs, front, most, before, |front|);
      assert most == before;
      SameMint(hash, rs + before, b, q, r);
    }
  }

  // ---- the whole append

  predicate NothingFails(f: Faults) {
    !f.lockFails && !f.readFails && f.swap.Exact? && !f.syncFails && !f.readbackFails
  }

  ghost predicate Preparable(bodies: seq<Body>) {
    && (forall i :: 0 <= i < |bodies| ==> WellFormed(bodies[i], false))
    && forall i, j :: 0 <= i < j < |bodies| && bodies[i].opKey.Some? ==> bodies[i].opKey != bodies[j].opKey
  }

  /** The caller named no head, or the empty one of an empty chain, or the chain's last digest. */
  predicate HeadNamed(rs: seq<Record>, expected: Option<string>) {
    expected.None? || (if expected.value == "" then rs == [] else rs != [] && rs[|rs| - 1].digest == expected.value)
  }

  lemma HeadExactly(s: State, expected: Option<string>)
    requires Numbered(s.log)
    ensures HeadMatches(s.log.head, expected) <==> HeadNamed(s.log.records, expected)
  {
    hide RecordId;
  }

  lemma PreparableExactly(bodies: seq<Body>)
    ensures WellPrepared(bodies) <==> Preparable(bodies)
  {
    hide BodyCheck, WellFormed;
    forall i | 0 <= i < |bodies| ensures BodyCheck(bodies[i], false).Ok? <==> WellFormed(bodies[i], false) {
      WellFormedExactly(bodies[i], false);
    }
  }

  ghost predicate AllBodiesThere(rs: seq<Record>, bodies: seq<Body>) {
    forall k :: 0 <= k < |bodies| ==> BodyThere(rs, bodies[k])
  }

  ghost predicate SomeKeyThere(rs: seq<Record>, bodies: seq<Body>) {
    exists k :: 0 <= k < |bodies| && KeyThere(rs, bodies[k])
  }

  lemma BatchThereExactly(log: Log, bodies: seq<Body>)
    requires KeysIndexed(log) && KeysUnique(log.records)
    ensures AllThere(log.opKeys, bodies) <==> AllBodiesThere(log.records, bodies)
    ensures NoneThere(log.opKeys, bodies) <==> !SomeKeyThere(log.records, bodies)
  {
    hide KeysIndexed, KeysUnique, IsReplay, IsSameReplay, BodyThere, KeyThere;
    AllThereIsSame(log.opKeys, bodies);
    forall k | 0 <= k < |bodies|
      ensures IsReplay(log.opKeys, bodies[k]) <==> KeyThere(log.records, bodies[k])
      ensures IsSameReplay(log.opKeys, bodies[k]) <==> BodyThere(log.records, bodies[k])
    {
      ThereExactly(log, bodies[k]);
    }
  }

  lemma AllThereIsSame(opKeys: map<string, Record>, bodies: seq<Body>)
    ensures AllThere(opKeys, bodies) <==> forall k :: 0 <= k < |bodies| ==> IsSameReplay(opKeys, bodies[k])
  {
    hide BodyView;
  }

  /** What the commit decides under its lock, before it writes. */
  ghost predicate Decides(codec: Codec, s: State, bodies: seq<Body>, expected: Option<string>, p: Plan) {
    var rs := s.log.records;
    if AllBodiesThere(rs, bodies) then p.Answer? && p.out.Replayed?
    else if SomeKeyThere(rs, bodies) then p.Answer? && p.out.Refused? && ReplayRefusal(p.out.reason)
    else if !HeadNamed(rs, expected) then p.Answer? && p.out.HeadConflict?
    else if !OneCandidate(bodies) then p.Answer? && p.out.Refused?
    else if exists added :: Extends(codec.digest, rs, bodies, added) then
      p.Write? && exists added :: Extends(codec.digest, rs, bodies, added)
                    && p.lines == Render(codec, added) && Reaches(codec.digest, rs + added, p.after)
    else p.Answer? && p.out.Refused?
  }

  lemma DecidesExactly(codec: Codec, file: Option<string>, s: State, bodies: seq<Body>, expected: Option<string>)
    requires Faithful(codec) && Holds(codec, file, s) && bodies != []
    ensures Decides(codec, s, bodies, expected, Decide(codec, file, bodies, expected))
  {
    hide Faithful, Load, Replay, HeadMatches, BatchCandidates, MintAll, Extends, Render, AllThere, NoneThere, Reaches,
         AllBodiesThere, SomeKeyThere, HeadNamed, OneCandidate, NewRecords;
    var rs := s.log.records;
    LoadIsHolds(codec, file, s);
    assert Reaches(codec.digest, rs, s) by { HoldsReaches(codec, file, s); }
    hide Holds;
    KeysCommittedOnce(codec.digest, rs, s);
    ReachesIndexed(codec.digest, rs, s);
    BatchThereExactly(s.log, bodies);
    NotBoth(s.log.opKeys, bodies);
    ReplayExact(s.log.opKeys, bodies);
    ReplayReason(s.log.opKeys, bodies);
    HeadExactly(s, expected);
    CandidatesExactly(bodies, None);
    MintAllExactly(codec.digest, rs, s, bodies);
    if MintAll(codec.digest, s, bodies).Ok? {
      var t := MintAll(codec.digest, s, bodies).value;
      var added :| Extends(codec.digest, rs, bodies, added) && Reaches(codec.digest, rs + added, t);
      assert NewRecords(s, t) == added by { AddedRecords(codec.digest, rs, added, s, t); }
    }
  }

  lemma HoldsReaches(codec: Codec, file: Option<string>, s: State)
    requires Holds(codec, file, s)
    ensures Reaches(codec.digest, s.log.records, s)
  {
    hide Reaches;
  }

  lemma AddedRecords(hash: Content -> string, rs: seq<Record>, added: seq<Record>, s: State, t: State)
    requires s.log.records == rs && Reaches(hash, rs + added, t)
    ensures NewRecords(s, t) == added
  {
    hide Reaches;
    ReachesRecords(hash, rs + added, t);
  }

  lemma NotBoth(opKeys: map<string, Record>, bodies: seq<Body>)
    requires bodies != []
    ensures !(AllThere(opKeys, bodies) && NoneThere(opKeys, bodies))
  {
    if AllThere(opKeys, bodies) { assert IsReplay(opKeys, bodies[0]); }
  }

  lemma {:induction false} ReplaysReason(opKeys: map<string, Record>, bodies: seq<Body>)
    ensures Replays(opKeys, bodies).Bad? ==> Replays(opKeys, bodies).reason == OpKeyConflict
  {
    hide BodyView;
    if bodies != [] { ReplaysReason(opKeys, bodies[..|bodies| - 1]); }
  }

  lemma ReplayReason(opKeys: map<string, Record>, bodies: seq<Body>)
    ensures Replay(opKeys, bodies).Bad? ==> ReplayRefusal(Replay(opKeys, bodies).reason)
  {
    ReplaysReason(opKeys, bodies);
    hide Replays;
  }

  /** What an append answers when nothing fails: a batch that cannot be prepared is refused; one that
      is there is answered from the chain, and one that is partly there or under taken keys refused
      as such; then the head, the candidate and the legality of its records decide; and what is
      committed is what the batch becomes, appended to the old bytes. */
  lemma AppendExactly(
    codec: Codec, file: Option<string>, s: State, bodies: seq<Body>, expected: Option<string>, f: Faults)
    requires Faithful(codec) && Holds(codec, file, s) && NothingFails(f)
    ensures var rs, e := s.log.records, Attempt(codec, file, bodies, expected, f);
      if bodies == [] || !Preparable(bodies) then e.out.Refused? && e.contents == []
      else if AllBodiesThere(rs, bodies) then e.out.Replayed? && e.contents == []
      else if SomeKeyThere(rs, bodies) then e.out.Refused? && ReplayRefusal(e.out.reason) && e.contents == []
      else if !HeadNamed(rs, expected) then e.out.HeadConflict? && e.contents == []
      else if OneCandidate(bodies) && exists added :: Extends(codec.digest, rs, bodies, added) then
        && e.out.Committed? && Extends(codec.digest, rs, bodies, e.out.records)
        && e.contents == [Some(Bytes(file) + Render(codec, e.out.records))]
      else e.out.Refused? && e.contents == []
  {
    hide Faithful, Holds, Load, Decide, WriteAtomically, Prepare, Extends, Render, AllBodiesThere, SomeKeyThere,
         HeadNamed, OneCandidate, Preparable, Reaches;
    PrepareMeans(bodies);
    PreparableExactly(bodies);
    if bodies != [] {
      DecidesExactly(codec, file, s, bodies, expected);
      var p := Decide(codec, file, bodies, expected);
      if p.Write? && Preparable(bodies) {
        var added :| Extends(codec.digest, s.log.records, bodies, added)
          && p.lines == Render(codec, added) && Reaches(codec.digest, s.log.records + added, p.after);
        WrittenExactly(codec, file, s, added, p.after, bodies, f);
      }
    }
  }

  lemma WrittenExactly(
    codec: Codec, file: Option<string>, s: State, added: seq<Record>, t: State, bodies: seq<Body>, f: Faults)
    requires Faithful(codec) && Holds(codec, file, s) && NothingFails(f)
    requires Extends(codec.digest, s.log.records, bodies, added) && Reaches(codec.digest, s.log.records + added, t)
    ensures var asked := Bytes(file) + Render(codec, added);
      WriteAtomically(codec, file, asked, t, |bodies|, f) == Effect(Committed(added), [Some(asked)])
  {
    hide Faithful, Load, Extends, Render, Reaches, Rollback;
    LengthOf(codec.digest, s.log.records, bodies, added);
    ReachesRecords(codec.digest, s.log.records + added, t);
    RenderConcat(codec, s.log.records, added);
    LoadIsHolds(codec, Some(Bytes(file) + Render(codec, added)), t);
    WriteEffect(codec, file, Bytes(file) + Render(codec, added), t, |bodies|, f);
  }
}
