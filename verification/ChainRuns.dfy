/**
 Commits over whole runs: what each outcome guarantees about the file, what a reader without
 the lock can see at any moment, and why a retried batch is committed exactly once.
 */
module ChainRuns {
  import opened Text
  import opened ChainRecord
  import opened ChainWalker
  import opened ChainHistory
  import opened ChainBytes
  import opened ChainCommit

  // ---- operation keys in a chain

  /** `op_keys` indexes exactly the records that carry a key. */
  ghost predicate KeysIndexed(log: Log) {
    && (forall r :: r in log.records && r.content.body.opKey.Some? ==>
          r.content.body.opKey.value in log.opKeys && log.opKeys[r.content.body.opKey.value] == r)
    && (forall k :: k in log.opKeys ==> log.opKeys[k] in log.records && log.opKeys[k].content.body.opKey == Some(k))
  }

  ghost predicate KeysUnique(rs: seq<Record>) {
    forall i, j :: 0 <= i < j < |rs| && rs[i].content.body.opKey.Some? ==>
      rs[i].content.body.opKey != rs[j].content.body.opKey
  }

  /** The log after one accepted record. */
  lemma StepLog(digest: Content -> string, s: State, r: Record, t: State)
    requires Step(digest, s, r) == Ok(t)
    ensures t.log == Stamp(s.log, r)
    ensures r.content.body.opKey.Some? ==> r.content.body.opKey.value !in s.log.opKeys
  {
    hide Step;
    StepParts(digest, s, r, t);
    AdmitParts(digest, s, r);
    hide Admit, Apply;
  }

  lemma StampKeepsKeys(log: Log, r: Record)
    requires r.content.body.opKey.Some? ==> r.content.body.opKey.value !in log.opKeys
    requires KeysIndexed(log) && KeysUnique(log.records)
    ensures KeysIndexed(Stamp(log, r)) && KeysUnique(Stamp(log, r).records)
  {
    var t := Stamp(log, r);
    forall i, j | 0 <= i < j < |t.records| && t.records[i].content.body.opKey.Some?
      ensures t.records[i].content.body.opKey != t.records[j].content.body.opKey
    {
      if j == |log.records| {
        assert t.records[i] in log.records;
      } else {
        assert t.records[j] == log.records[j] && t.records[i] == log.records[i];
      }
    }
  }

  /** No operation key is committed twice in an accepted chain. */
  lemma {:induction false} KeysCommittedOnce(digest: Content -> string, rs: seq<Record>, s: State)
    requires Reaches(digest, rs, s)
    ensures KeysIndexed(s.log) && KeysUnique(rs)
    decreases |rs|
  {
    hide Step;
    ReachesEmpty(digest);
    if rs != [] {
      hide Reaches, KeysIndexed, Stamp;
      var p := ReachesUnsnoc(digest, rs, s);
      var front, r := rs[..|rs| - 1], rs[|rs| - 1];
      KeysCommittedOnce(digest, front, p);
      ReachesRecords(digest, front, p);
      ReachesRecords(digest, rs, s);
      StepLog(digest, p, r, s);
      StampKeepsKeys(p.log, r);
    }
  }

  lemma ReachesRecords(digest: Content -> string, rs: seq<Record>, s: State)
    requires Reaches(digest, rs, s)
    ensures s.log.records == rs
  {
    hide Reaches, Step, Indexed, Numbered;
    ReachesIndexed(digest, rs, s);
  }

  // ---- what minting a batch adds

  /** The chain of `t` is the chain of `s` with one record for each body, in order, each body
      stored as it stands, and its keys indexed. */
  ghost predicate Adds(s: State, t: State, bodies: seq<Body>) {
    && |t.log.records| == |s.log.records| + |bodies|
    && s.log.records <= t.log.records
    && (forall i :: 0 <= i < |bodies| ==> BodyView(t.log.records[|s.log.records| + i]) == bodies[i])
    && (forall k :: k in s.log.opKeys ==> k in t.log.opKeys && t.log.opKeys[k] == s.log.opKeys[k])
    && (forall i :: 0 <= i < |bodies| && bodies[i].opKey.Some? ==>
          bodies[i].opKey.value in t.log.opKeys
          && t.log.opKeys[bodies[i].opKey.value] == t.log.records[|s.log.records| + i])
    && (forall k :: k in t.log.opKeys && k !in s.log.opKeys ==>
          exists i :: 0 <= i < |bodies| && bodies[i].opKey == Some(k))
  }

  lemma MintedView(digest: Content -> string, s: State, b: Body)
    requires BodyCheck(b, false).Ok?
    ensures BodyView(Minted(digest, s, b)) == b
    ensures Minted(digest, s, b).content.body.opKey == b.opKey
  {
    assert b.payload.Round? ==> b.round.None? by { hide FieldCheck, KindRules, CandidateRule; }
    hide BodyCheck;
  }

  lemma AddsOne(digest: Content -> string, s: State, t: State, bodies: seq<Body>, b: Body, u: State)
    requires Adds(s, t, bodies) && BodyCheck(b, false).Ok?
    requires Step(digest, t, Minted(digest, t, b)) == Ok(u)
    ensures Adds(s, u, bodies + [b])
  {
    hide Step, Minted, BodyCheck, BodyView;
    var r := Minted(digest, t, b);
    MintedView(digest, t, b);
    StepLog(digest, t, r, u);
    var all := bodies + [b];
    forall k | k in u.log.opKeys && k !in s.log.opKeys
      ensures exists i :: 0 <= i < |all| && all[i].opKey == Some(k)
    {
      if k in t.log.opKeys {
        var i :| 0 <= i < |bodies| && bodies[i].opKey == Some(k);
        assert all[i].opKey == Some(k);
      } else {
        assert all[|bodies|].opKey == Some(k);
      }
    }
  }

  lemma {:induction false} MintAllAdds(digest: Content -> string, s: State, bodies: seq<Body>, t: State)
    requires Reaches(digest, s.log.records, s)
    requires WellPrepared(bodies)
    requires MintAll(digest, s, bodies) == Ok(t)
    ensures Reaches(digest, t.log.records, t)
    ensures Adds(s, t, bodies)
  {
    hide Step, Reaches, BodyCheck, Minted;
    if bodies != [] {
      var front, b := bodies[..|bodies| - 1], bodies[|bodies| - 1];
      var p := MintAll(digest, s, front).value;
      MintAllAdds(digest, s, front, p);
      AddsOne(digest, s, p, front, b, t);
      assert bodies == front + [b];
      ReachesSnoc(digest, p.log.records, p, Minted(digest, p, b), t);
      StepLog(digest, p, Minted(digest, p, b), t);
    }
  }

  // ---- one commit

  /** The bytes the commit writes hold the grown chain. */
  lemma NewBytesHold(codec: Codec, file: Option<string>, s: State, bodies: seq<Body>, t: State)
    requires Faithful(codec) && Holds(codec, file, s)
    requires Reaches(codec.digest, t.log.records, t) && Adds(s, t, bodies)
    ensures var now := Some(Bytes(file) + Render(codec, NewRecords(s, t)));
      Holds(codec, now, t) && Load(codec, now) == Chain(t)
  {
    hide Reaches, Faithful;
    RenderConcat(codec, s.log.records, NewRecords(s, t));
    assert t.log.records == s.log.records + NewRecords(s, t);
    LoadIsHolds(codec, Some(Bytes(file) + Render(codec, NewRecords(s, t))), t);
  }

  /** Whatever fails: success means exactly the new bytes, a write error exactly the old ones,
      and nothing else is ever on disk but bytes a replacement put down unasked. */
  lemma WriteEffect(codec: Codec, file: Option<string>, asked: string, t: State, count: nat, f: Faults)
    requires Load(codec, Some(asked)) == Chain(t) && count <= |t.log.records|
    ensures var e := WriteAtomically(codec, file, asked, t, count, f);
      && (e.out.Committed? ==>
          Final(file, e) == Some(asked) && e.out.records == t.log.records[|t.log.records| - count..])
      && (e.out.Committed? || e.out.Uncertain? || (e.out.WriteError? && Final(file, e) == file))
      && (forall c :: c in e.contents ==> c == file || c == Some(asked) || Mangled(f, c))
      && (f.swap.Exact? && !f.syncFails && !f.readbackFails ==> e.out.Committed?)
  {
    hide Load;
  }

  /** Which outcome a write has: it commits exactly when the file holds the bytes asked for and was
      synced and read back; else it is an error exactly when nothing was replaced or the old file
      was put back and read again; and uncertain in every other case. */
  lemma WriteExactly(codec: Codec, file: Option<string>, asked: string, t: State, count: nat, f: Faults)
    requires Load(codec, Some(asked)) == Chain(t) && count <= |t.log.records|
    ensures var e := WriteAtomically(codec, file, asked, t, count, f);
      var lands := f.swap == Exact || f.swap == Corrupt(asked);
      var restored := if file.None? then !f.unlinkFails else f.restore == Exact || f.restore == Corrupt(file.value);
      && (e.out.Committed? <==> lands && !f.syncFails && !f.readbackFails)
      && (e.out == WriteError <==> !e.out.Committed? && (f.swap == Fails || (restored && !f.rereadFails)))
      && (e.out == Uncertain <==> !e.out.Committed? && e.out != WriteError)
  {
    hide Load;
  }

  /** The three readings of a commit's outcome. */
  ghost predicate OutcomeHonest(
    codec: Codec, file: Option<string>, s: State, bodies: seq<Body>, f: Faults, e: Effect)
  {
    var after := Final(file, e);
    match e.out
    case Committed(rs) =>
      exists t :: Holds(codec, after, t) && Adds(s, t, bodies) && rs == NewRecords(s, t)
                  && after == Some(Bytes(file) + Render(codec, rs)) && NoneThere(s.log.opKeys, bodies)
    case Replayed(rs) =>
      e.contents == [] && AllThere(s.log.opKeys, bodies) && |rs| == |bodies|
      && forall i :: 0 <= i < |bodies| ==> rs[i] == s.log.opKeys[bodies[i].opKey.value]
    case Uncertain =>
      WritesAreExact(f) ==>
        after == file || exists t :: Holds(codec, after, t) && Adds(s, t, bodies)
    case _ => after == file
  }

  /** What a reader without the lock can see during the commit: the old chain, or the whole
      new one, or bytes nobody asked for. */
  ghost predicate SnapshotHonest(
    codec: Codec, file: Option<string>, s: State, bodies: seq<Body>, f: Faults, content: Option<string>)
  {
    content == file || Mangled(f, content) || exists t :: Holds(codec, content, t) && Adds(s, t, bodies)
  }

  /** A normal return means the old bytes plus exactly the batch (or a batch already there),
      a write error means the old bytes, uncertain means one of the two when replacements put
      down what they were asked to; and at every moment in between the file is the old chain or
      the whole new one, or what such a replacement put down instead. */
  lemma CommitOutcome(
    codec: Codec, file: Option<string>, s: State, bodies: seq<Body>, expected: Option<string>, f: Faults)
    requires Faithful(codec) && Holds(codec, file, s)
    ensures var e := Attempt(codec, file, bodies, expected, f);
      && OutcomeHonest(codec, file, s, bodies, f, e)
      && forall c :: c in e.contents ==> SnapshotHonest(codec, file, s, bodies, f, c)
  {
    hide Faithful, Holds, Load, Prepare, BatchCandidates, MintAll, Replay, WriteAtomically, NoneThere, AllThere,
         Render, Adds, NewRecords;
    LoadIsHolds(codec, file, s);
    PrepareMeans(bodies);
    if bodies != [] && Prepare(bodies).Ok? && !f.lockFails && !f.readFails {
      ReplayExact(s.log.opKeys, bodies);
      if Decide(codec, file, bodies, expected).Write? {
        var t := MintAll(codec.digest, s, bodies).value;
        WrittenOutcome(codec, file, s, bodies, t, f);
      }
    }
  }

  lemma WrittenOutcome(codec: Codec, file: Option<string>, s: State, bodies: seq<Body>, t: State, f: Faults)
    requires Faithful(codec) && Holds(codec, file, s) && WellPrepared(bodies)
    requires MintAll(codec.digest, s, bodies) == Ok(t) && NoneThere(s.log.opKeys, bodies)
    ensures var e := WriteAtomically(codec, file, Bytes(file) + Render(codec, NewRecords(s, t)), t, |bodies|, f);
      && OutcomeHonest(codec, file, s, bodies, f, e)
      && (e.out.Committed? || e.out.Uncertain? || e.out.WriteError?)
      && forall c :: c in e.contents ==> SnapshotHonest(codec, file, s, bodies, f, c)
  {
    hide Faithful, Reaches, WellPrepared, NoneThere, MintAll, Load, WriteAtomically, Render;
    MintAllAdds(codec.digest, s, bodies, t);
    NewBytesHold(codec, file, s, bodies, t);
    hide Holds;
    var asked := Bytes(file) + Render(codec, NewRecords(s, t));
    WriteEffect(codec, file, asked, t, |bodies|, f);
    var e := WriteAtomically(codec, file, asked, t, |bodies|, f);
    assert NewRecords(s, t) == t.log.records[|t.log.records| - |bodies|..];
    hide Adds, NewRecords;
    if e.out.Uncertain? && WritesAreExact(f) {
      assert Final(file, e) == file || Final(file, e) in e.contents;
    }
  }

  /** A file no walker accepts is never written to. */
  lemma UnreadableIsUntouched(
    codec: Codec, file: Option<string>, bodies: seq<Body>, expected: Option<string>, f: Faults)
    requires Load(codec, file).Unread?
    ensures Attempt(codec, file, bodies, expected, f).contents == []
    ensures var out := Attempt(codec, file, bodies, expected, f).out;
      out.Refused? || out.WriteError? || out.ReadError?
  {
    hide Load, Prepare;
  }

  // ---- runs of commits, in the order the lock lets them through

  datatype Request = Request(bodies: seq<Body>, expected: Option<string>, faults: Faults)

  function Serve(codec: Codec, file: Option<string>, q: Request): Effect {
    Attempt(codec, file, q.bodies, q.expected, q.faults)
  }

  /** The file after a run. */
  function RunFile(codec: Codec, file: Option<string>, qs: seq<Request>): Option<string> {
    if qs == [] then file
    else
      var now := RunFile(codec, file, qs[..|qs| - 1]);
      Final(now, Serve(codec, now, qs[|qs| - 1]))
  }

  /** Every content the file takes on during a run: what a reader without the lock can see. */
  function Visible(codec: Codec, file: Option<string>, qs: seq<Request>): seq<Option<string>> {
    if qs == [] then [file]
    else
      Visible(codec, file, qs[..|qs| - 1])
      + Serve(codec, RunFile(codec, file, qs[..|qs| - 1]), qs[|qs| - 1]).contents
  }

  /** A request that did not both put down other bytes than asked and end in doubt. A caller
      that is told its commit is uncertain can check the bytes before the next one. */
  predicate Settles(codec: Codec, file: Option<string>, q: Request) {
    WritesAreExact(q.faults) || !Serve(codec, file, q).out.Uncertain?
  }

  predicate AllSettle(codec: Codec, file: Option<string>, qs: seq<Request>) {
    forall i :: 0 <= i < |qs| ==> Settles(codec, RunFile(codec, file, qs[..i]), qs[i])
  }

  lemma FrontSettles(codec: Codec, file: Option<string>, qs: seq<Request>)
    requires AllSettle(codec, file, qs) && qs != []
    ensures AllSettle(codec, file, qs[..|qs| - 1])
    ensures Settles(codec, RunFile(codec, file, qs[..|qs| - 1]), qs[|qs| - 1])
  {
    hide Settles;
    var front := qs[..|qs| - 1];
    forall i | 0 <= i < |front| ensures Settles(codec, RunFile(codec, file, front[..i]), front[i]) {
      assert front[..i] == qs[..i];
    }
  }

  /** Some request of the run put these bytes down unasked. */
  ghost predicate MangledIn(qs: seq<Request>, content: Option<string>) {
    exists i :: 0 <= i < |qs| && Mangled(qs[i].faults, content)
  }

  /** Nothing of `s` is lost or changed in `t`. */
  ghost predicate Grown(s: State, t: State) {
    s.log.records <= t.log.records
    && forall k :: k in s.log.opKeys ==> k in t.log.opKeys && t.log.opKeys[k] == s.log.opKeys[k]
  }

  /** One request leaves a chain that either is the old one or has the whole batch added. */
  lemma ServeStep(codec: Codec, file: Option<string>, s: State, q: Request) returns (t: State)
    requires Faithful(codec) && Holds(codec, file, s) && Settles(codec, file, q)
    ensures Holds(codec, Final(file, Serve(codec, file, q)), t)
    ensures t == s || Adds(s, t, q.bodies)
    ensures Serve(codec, file, q).out.Committed? ==> Adds(s, t, q.bodies)
    ensures Serve(codec, file, q).out.Replayed? ==> t == s && AllThere(s.log.opKeys, q.bodies)
  {
    hide Faithful, Holds, Attempt, Adds, AllThere, NoneThere, WritesAreExact, SnapshotHonest;
    CommitOutcome(codec, file, s, q.bodies, q.expected, q.faults);
    var e := Serve(codec, file, q);
    var after := Final(file, e);
    if e.out.Committed? {
      t :| Holds(codec, after, t) && Adds(s, t, q.bodies);
    } else if after == file {
      t := s;
    } else {
      t :| Holds(codec, after, t) && Adds(s, t, q.bodies);
    }
  }

  /** In every run of commits with failures at any step, every content a reader can ever see
      is an accepted chain that extends the first one, nothing torn and nothing lost; or it is
      what a replacement put down unasked, which is gone again when its commit returns. */
  lemma {:induction false} EveryReadIsAChain(codec: Codec, file: Option<string>, s: State, qs: seq<Request>)
    requires Faithful(codec) && Holds(codec, file, s) && AllSettle(codec, file, qs)
    ensures exists t :: Holds(codec, RunFile(codec, file, qs), t) && Grown(s, t)
    ensures forall c :: c in Visible(codec, file, qs) ==>
              MangledIn(qs, c) || exists t :: Holds(codec, c, t) && Grown(s, t)
  {
    hide Faithful, Holds, Attempt, WritesAreExact, AllSettle, Settles, Mangled;
    if qs == [] {
      assert Grown(s, s);
    } else {
      var front, q := qs[..|qs| - 1], qs[|qs| - 1];
      FrontSettles(codec, file, qs);
      EveryReadIsAChain(codec, file, s, front);
      var now := RunFile(codec, file, front);
      var t :| Holds(codec, now, t) && Grown(s, t);
      var u := ServeStep(codec, now, t, q);
      assert Grown(s, u);
      CommitOutcome(codec, now, t, q.bodies, q.expected, q.faults);
      forall c | c in Serve(codec, now, q).contents && !MangledIn(qs, c)
        ensures exists v :: Holds(codec, c, v) && Grown(s, v)
      {
        assert !Mangled(qs[|qs| - 1].faults, c);
        SnapshotGrows(codec, now, s, t, q, c);
      }
      forall c | MangledIn(front, c) ensures MangledIn(qs, c) {
        var i :| 0 <= i < |front| && Mangled(front[i].faults, c);
        assert Mangled(qs[i].faults, c);
      }
    }
  }

  lemma SnapshotGrows(codec: Codec, now: Option<string>, s: State, t: State, q: Request, c: Option<string>)
    requires Holds(codec, now, t) && Grown(s, t) && !Mangled(q.faults, c)
    requires SnapshotHonest(codec, now, t, q.bodies, q.faults, c)
    ensures exists v :: Holds(codec, c, v) && Grown(s, v)
  {
    hide Holds, Mangled;
    if c != now {
      var v :| Holds(codec, c, v) && Adds(t, v, q.bodies);
      assert Grown(s, v);
    }
  }

  // ---- retrying a batch

  /** No other batch of the run uses a key of `batch`. */
  predicate OwnsItsKeys(qs: seq<Request>, batch: seq<Body>) {
    forall n :: 0 <= n < |qs| ==>
      qs[n].bodies == batch
      || forall i, j :: 0 <= i < |qs[n].bodies| && 0 <= j < |batch| && qs[n].bodies[i].opKey.Some? ==>
           qs[n].bodies[i].opKey != batch[j].opKey
  }

  lemma AddsKeepsAllOrNone(s: State, t: State, bodies: seq<Body>, batch: seq<Body>)
    requires Adds(s, t, bodies) && AllKeyed(batch)
    requires bodies == batch
             || forall i, j :: 0 <= i < |bodies| && 0 <= j < |batch| && bodies[i].opKey.Some? ==>
                  bodies[i].opKey != batch[j].opKey
    ensures AllThere(s.log.opKeys, batch) ==> AllThere(t.log.opKeys, batch)
    ensures NoneThere(s.log.opKeys, batch) ==> AllThere(t.log.opKeys, batch) || NoneThere(t.log.opKeys, batch)
    ensures bodies == batch ==> AllThere(t.log.opKeys, batch)
  {
    hide BodyView;
    if bodies != batch && NoneThere(s.log.opKeys, batch) {
      forall j | 0 <= j < |batch| ensures !IsReplay(t.log.opKeys, batch[j]) {
        assert !IsReplay(s.log.opKeys, batch[j]);
      }
    }
  }

  /** Through any run in which only `batch` uses its keys, the chain holds all of the batch or
      none of it, and once it holds it, it keeps it. */
  lemma {:induction false} BatchStaysWhole(
    codec: Codec, file: Option<string>, s: State, qs: seq<Request>, batch: seq<Body>) returns (t: State)
    requires Faithful(codec) && Holds(codec, file, s) && AllSettle(codec, file, qs)
    requires AllKeyed(batch) && OwnsItsKeys(qs, batch)
    requires AllThere(s.log.opKeys, batch) || NoneThere(s.log.opKeys, batch)
    ensures Holds(codec, RunFile(codec, file, qs), t)
    ensures Grown(s, t)
    ensures AllThere(t.log.opKeys, batch) || NoneThere(t.log.opKeys, batch)
    ensures AllThere(s.log.opKeys, batch) ==> AllThere(t.log.opKeys, batch)
    ensures (exists n :: 0 <= n < |qs| && Answered(codec, file, qs, n, batch)) ==> AllThere(t.log.opKeys, batch)
    decreases |qs|
  {
    hide Faithful, Holds, Attempt, AllThere, NoneThere, WritesAreExact, AllSettle, Settles;
    if qs == [] {
      t := s;
    } else {
      var front, q := qs[..|qs| - 1], qs[|qs| - 1];
      FrontSettles(codec, file, qs);
      var p := BatchStaysWhole(codec, file, s, front, batch);
      t := ServeStep(codec, RunFile(codec, file, front), p, q);
      if t != p {
        AddsKeepsAllOrNone(p, t, q.bodies, batch);
      }
      forall n | 0 <= n < |qs| && Answered(codec, file, qs, n, batch) ensures AllThere(t.log.opKeys, batch) {
        if n < |front| {
          assert qs[..n] == front[..n];
          assert Answered(codec, file, front, n, batch);
        } else if t == p {
          assert qs[..n] == front;
          NothingAdded(p, q.bodies);
        } else {
          assert qs[..n] == front;
        }
      }
    }
  }

  /** Request `n` of the run asked for `batch` and returned normally. */
  predicate Answered(codec: Codec, file: Option<string>, qs: seq<Request>, n: nat, batch: seq<Body>)
    requires n < |qs|
  {
    qs[n].bodies == batch
    && var out := Serve(codec, RunFile(codec, file, qs[..n]), qs[n]).out;
    out.Committed? || out.Replayed?
  }

  lemma NothingAdded(s: State, bodies: seq<Body>)
    ensures Adds(s, s, bodies) ==> bodies == []
    ensures AllThere(s.log.opKeys, [])
  {
  }

  /** Reasons only the replay check gives. */
  predicate ReplayRefusal(reason: Reason) {
    reason.OpKeyConflict? || reason.OpKeyPartial?
  }

  lemma BodyCheckReason(b: Body, committed: bool)
    ensures BodyCheck(b, committed).Bad? ==> !ReplayRefusal(BodyCheck(b, committed).reason)
  {
    assert FieldCheck(b.payload).Bad? ==> !ReplayRefusal(FieldCheck(b.payload).reason);
    hide FieldCheck;
  }

  lemma StepReason(digest: Content -> string, s: State, r: Record)
    ensures Step(digest, s, r).Bad? ==> !ReplayRefusal(Step(digest, s, r).reason)
  {
    hide BodyCheck, RecordId, IsHex64, OpenFinding, AddRow, Move, Movement;
    BodyCheckReason(r.content.body, true);
  }

  lemma {:induction false} MintAllReason(digest: Content -> string, s: State, bodies: seq<Body>)
    ensures MintAll(digest, s, bodies).Bad? ==> !ReplayRefusal(MintAll(digest, s, bodies).reason)
  {
    hide Step, Minted;
    if bodies != [] {
      var front, last := bodies[..|bodies| - 1], bodies[|bodies| - 1];
      MintAllReason(digest, s, front);
      if MintAll(digest, s, front).Ok? {
        var t := MintAll(digest, s, front).value;
        StepReason(digest, t, Minted(digest, t, last));
      }
    }
  }

  lemma {:induction false} BatchCandidatesReason(bodies: seq<Body>, reference: Option<Candidate.Json>)
    ensures BatchCandidates(bodies, reference).Bad? ==> !ReplayRefusal(BatchCandidates(bodies, reference).reason)
  {
    if bodies != [] {
      BatchCandidatesReason(bodies[1..], reference);
      BatchCandidatesReason(bodies[1..], Some(bodies[0].candidate));
    }
  }

  /** How a retry of `bodies` on a chain is resolved: from the chain alone when the batch is
      there, as a fresh commit when none of it is, and never as a replay conflict. */
  ghost predicate RetryResolved(log: Log, bodies: seq<Body>, e: Effect) {
    match e.out
    case Replayed(rs) =>
      e.contents == [] && AllThere(log.opKeys, bodies) && |rs| == |bodies|
      && forall i :: 0 <= i < |bodies| ==> rs[i] in log.records && BodyView(rs[i]) == bodies[i]
    case Refused(reason) => !ReplayRefusal(reason) && NoneThere(log.opKeys, bodies)
    case _ => NoneThere(log.opKeys, bodies)
  }

  /** Retrying a keyed batch after any run in which only it uses its keys: if an earlier try
      returned normally the retry returns the stored records and touches nothing; replay never
      reports a conflict or a partial batch; and no key is ever in the chain twice. */
  lemma RetryExactlyOnce(
    codec: Codec, file: Option<string>, s: State, qs: seq<Request>, q: Request) returns (t: State)
    requires Faithful(codec) && Holds(codec, file, s) && AllSettle(codec, file, qs)
    requires q.bodies != [] && AllKeyed(q.bodies) && WellPrepared(q.bodies) && OwnsItsKeys(qs, q.bodies)
    requires NoneThere(s.log.opKeys, q.bodies)
    requires !q.faults.lockFails && !q.faults.readFails
    ensures Holds(codec, RunFile(codec, file, qs), t) && KeysUnique(t.log.records)
    ensures (exists n :: 0 <= n < |qs| && Answered(codec, file, qs, n, q.bodies)) ==>
              Serve(codec, RunFile(codec, file, qs), q).out.Replayed?
    ensures RetryResolved(t.log, q.bodies, Serve(codec, RunFile(codec, file, qs), q))
  {
    hide Faithful, Holds, AllThere, NoneThere, OwnsItsKeys, AllSettle, Answered, Attempt, WellPrepared;
    t := BatchStaysWhole(codec, file, s, qs, q.bodies);
    HoldsKeys(codec, RunFile(codec, file, qs), t);
    RetryOnce(codec, RunFile(codec, file, qs), t, q);
  }

  lemma RetryOnce(codec: Codec, now: Option<string>, t: State, q: Request)
    requires Faithful(codec) && Holds(codec, now, t) && KeysIndexed(t.log)
    requires q.bodies != [] && WellPrepared(q.bodies)
    requires AllThere(t.log.opKeys, q.bodies) || NoneThere(t.log.opKeys, q.bodies)
    requires !q.faults.lockFails && !q.faults.readFails
    ensures RetryResolved(t.log, q.bodies, Serve(codec, now, q))
    ensures AllThere(t.log.opKeys, q.bodies) ==> Serve(codec, now, q).out.Replayed?
  {
    hide Faithful, Holds, AllThere, NoneThere, Load, Prepare, BatchCandidates,
         MintAll, Replay, WriteAtomically, WellPrepared, BodyView, KeysIndexed;
    LoadIsHolds(codec, now, t);
    PrepareMeans(q.bodies);
    ReplayExact(t.log.opKeys, q.bodies);
    if AllThere(t.log.opKeys, q.bodies) {
      ThereInChain(t.log, q.bodies);
    } else {
      WriteNeverReplays(codec, now, t, q.bodies, q.faults);
      BatchCandidatesReason(q.bodies, None);
      MintAllReason(codec.digest, t, q.bodies);
    }
  }

  lemma HoldsKeys(codec: Codec, file: Option<string>, t: State)
    requires Holds(codec, file, t)
    ensures KeysIndexed(t.log) && KeysUnique(t.log.records)
  {
    hide Reaches, KeysIndexed, KeysUnique;
    KeysCommittedOnce(codec.digest, t.log.records, t);
  }

  lemma ThereInChain(log: Log, bodies: seq<Body>)
    requires KeysIndexed(log) && AllThere(log.opKeys, bodies)
    ensures forall i :: 0 <= i < |bodies| ==>
              IsReplay(log.opKeys, bodies[i]) && log.opKeys[bodies[i].opKey.value] in log.records
              && BodyView(log.opKeys[bodies[i].opKey.value]) == bodies[i]
  {
    hide BodyView;
  }

  lemma WriteNeverReplays(codec: Codec, file: Option<string>, t: State, bodies: seq<Body>, f: Faults)
    ensures forall lines: string, u: State ::
              var out := WriteAtomically(codec, file, lines, u, |bodies|, f).out;
              out.Committed? || out.Uncertain? || out.WriteError?
  {
    hide Load;
  }

  /** A head recorded elsewhere notices a cut: appending to a proper prefix while expecting
      the head of the whole chain is refused, unless two of its records collide. */
  lemma CutChainRefusesAppend(
    codec: Codec, whole: seq<Record>, s: State, n: nat, file: Option<string>, p: State,
    bodies: seq<Body>, f: Faults)
    requires Faithful(codec)
    requires Reaches(codec.digest, whole, s) && n < |whole|
    requires Holds(codec, file, p) && p.log.records == whole[..n]
    ensures Collision(codec.digest, whole[..n], whole)
            || (Attempt(codec, file, bodies, s.log.head, f).contents == []
                && !Attempt(codec, file, bodies, s.log.head, f).out.Committed?)
  {
    hide Faithful, Load, Prepare, BatchCandidates, MintAll, Replay, WriteAtomically, Reaches, RecordId, Step;
    LoadIsHolds(codec, file, p);
    ReachesIndexed(codec.digest, whole, s);
    ShorterChainHasAnotherHead(codec.digest, whole, s, n, p);
    assert s.log.head.value == whole[|whole| - 1].digest != "";
  }
}
