/**
 The commit protocol of the authority chain: replay by operation key, head check, atomic
 replace, readback, rollback, and the uncertain outcome. Every file operation may fail, and
 a written file may silently hold other bytes than it was given.
 */
module ChainCommit {
  import opened Text
  import opened Candidate
  import opened ChainRecord
  import opened ChainWalker
  import opened ChainHistory
  import opened ChainBytes

  // ---- what a request asks for

  /** `_prepare`: every body is well formed and no operation key repeats in the batch. */
  function Prepare(bodies: seq<Body>): Result<()> {
    if bodies == [] then Ok(())
    else
      var last, front := bodies[|bodies| - 1], bodies[..|bodies| - 1];
      var _ :- Prepare(front);
      var _ :- BodyCheck(last, false);
      Need(last.opKey.Some? ==> forall i :: 0 <= i < |front| ==> front[i].opKey != last.opKey, DuplicateOpKey)
  }

  predicate IsReplay(opKeys: map<string, Record>, b: Body) {
    b.opKey.Some? && b.opKey.value in opKeys
  }

  /** The stored records of the bodies already committed, in order, or the conflict the
      replay loop raises. */
  function Replays(opKeys: map<string, Record>, bodies: seq<Body>): (rs: Result<seq<Record>>)
    ensures rs.Ok? ==> |rs.value| <= |bodies|
  {
    if bodies == [] then Ok([])
    else
      var last, front := bodies[|bodies| - 1], bodies[..|bodies| - 1];
      var matched :- Replays(opKeys, front);
      if !IsReplay(opKeys, last) then Ok(matched)
      else if BodyView(opKeys[last.opKey.value]) != last then Bad(OpKeyConflict)
      else Ok(matched + [opKeys[last.opKey.value]])
  }

  /** `_replay`: the committed records when every body is a replay, None when none is. */
  function Replay(opKeys: map<string, Record>, bodies: seq<Body>): Result<Option<seq<Record>>> {
    var matched :- Replays(opKeys, bodies);
    if matched == [] then Ok(None)
    else if |matched| != |bodies| then Bad(OpKeyPartial)
    else Ok(Some(matched))
  }

  /** `_check_head`. The empty string asserts an empty chain. */
  predicate HeadMatches(head: Option<string>, expected: Option<string>) {
    expected.None? || (if expected.value == "" then head.None? else head == expected)
  }

  predicate SameCandidateKind(b: Body) {
    b.payload.Round? || b.payload.Finding? || b.payload.Recommendation?
  }

  /** `_check_batch_candidates`: rounds, findings and recommendations bind one candidate. */
  function BatchCandidates(bodies: seq<Body>, reference: Option<Json>): Result<()> {
    if bodies == [] then Ok(())
    else if !SameCandidateKind(bodies[0]) then BatchCandidates(bodies[1..], reference)
    else if reference.None? then BatchCandidates(bodies[1..], Some(bodies[0].candidate))
    else
      var _ :- Need(Same(reference.value, bodies[0].candidate), CandidateMismatchInBatch);
      BatchCandidates(bodies[1..], reference)
  }

  /** The stored record the commit loop builds from a body. */
  function Minted(digest: Content -> string, s: State, b: Body): Record {
    var n := |s.log.records| + 1;
    var body := if b.payload.Round?
                then b.(round := Some(RoundsMinted(s.folded.roundCounts, b.phase, b.payload.seat) + 1))
                else b;
    var content := Content(SCHEMA, n, RecordId(b.payload, n), HeadOrEmpty(s.log.head), body);
    Record(content, digest(content))
  }

  /** The commit loop: mint and feed each body in turn. */
  function MintAll(digest: Content -> string, s: State, bodies: seq<Body>): Result<State> {
    if bodies == [] then Ok(s)
    else
      var t :- MintAll(digest, s, bodies[..|bodies| - 1]);
      Step(digest, t, Minted(digest, t, bodies[|bodies| - 1]))
  }

  /** The records a commit adds to the chain of `s`. */
  function NewRecords(s: State, t: State): seq<Record> {
    if |s.log.records| <= |t.log.records| then t.log.records[|s.log.records|..] else []
  }

  datatype Outcome =
    | Committed(records: seq<Record>)
    | Replayed(records: seq<Record>)
    | Refused(reason: Reason)
    | HeadConflict(expected: string, actual: Option<string>)
    | ReadError(code: ReadCode)
    | WriteError
    | Uncertain

  datatype Plan = Answer(out: Outcome) | Write(lines: string, after: State)

  /** Everything `_commit` decides under the lock before it writes. */
  function Decide(codec: Codec, file: Option<string>, bodies: seq<Body>, expected: Option<string>): Plan {
    match Load(codec, file)
    case Unread(code) => Answer(ReadError(code))
    case Chain(s) =>
      match Replay(s.log.opKeys, bodies)
      case Bad(reason) => Answer(Refused(reason))
      case Ok(Some(records)) => Answer(Replayed(records))
      case Ok(None) =>
        if !HeadMatches(s.log.head, expected) then Answer(HeadConflict(expected.value, s.log.head))
        else match BatchCandidates(bodies, None)
          case Bad(reason) => Answer(Refused(reason))
          case Ok(_) =>
            match MintAll(codec.digest, s, bodies)
            case Bad(reason) => Answer(Refused(reason))
            case Ok(t) => Write(Render(codec, NewRecords(s, t)), t)
  }

  // ---- what may go wrong

  /** One write of a temporary file followed by `os.replace`: it fails before the file is
      replaced, or it replaces the file with the bytes asked for, or with others. */
  datatype Swap = Fails | Exact | Corrupt(bytes: string)

  datatype Faults = Faults(
    lockFails: bool, readFails: bool,
    swap: Swap, syncFails: bool, readbackFails: bool,
    unlinkFails: bool, restore: Swap, rereadFails: bool)

  predicate WritesAreExact(f: Faults) {
    !f.swap.Corrupt? && !f.restore.Corrupt?
  }

  /** Bytes that a replacement of this commit put down in place of the ones asked for. */
  predicate Mangled(f: Faults, content: Option<string>) {
    content.Some? && (f.swap == Corrupt(content.value) || f.restore == Corrupt(content.value))
  }

  function Swapped(how: Swap, asked: string): string
    requires !how.Fails?
  {
    if how.Corrupt? then how.bytes else asked
  }

  /** What one commit does: its outcome, and every content the file takes on after the old
      one, in order. A reader without the lock sees the old content or one of these. */
  datatype Effect = Effect(out: Outcome, contents: seq<Option<string>>)

  function Final(before: Option<string>, e: Effect): Option<string> {
    if e.contents == [] then before else e.contents[|e.contents| - 1]
  }

  /** `_rollback` after the file already holds `now`. */
  function Rollback(before: Option<string>, now: Option<string>, f: Faults): Effect {
    if before.None? then
      if f.unlinkFails then Effect(Uncertain, [now])
      else Effect(if f.rereadFails then Uncertain else WriteError, [now, None])
    else if f.restore.Fails? then Effect(Uncertain, [now])
    else
      var back := Some(Swapped(f.restore, before.value));
      Effect(if f.rereadFails || back != before then Uncertain else WriteError, [now, back])
  }

  /** `_write_atomically`: replace, sync, read back, and roll back on any doubt. */
  function WriteAtomically(
    codec: Codec, before: Option<string>, asked: string, after: State, count: nat, f: Faults): Effect {
    if f.swap.Fails? then Effect(WriteError, [])
    else
      var now := Some(Swapped(f.swap, asked));
      var read := Load(codec, now);
      if f.syncFails || f.readbackFails || now != Some(asked)
         || read.Unread? || read.state.log.head != after.log.head || |read.state.log.records| < count
      then Rollback(before, now, f)
      else Effect(Committed(read.state.log.records[|read.state.log.records| - count..]), [now])
  }

  /** One call of `append_batch`. */
  function Attempt(codec: Codec, file: Option<string>, bodies: seq<Body>, expected: Option<string>, f: Faults): Effect {
    if bodies == [] then Effect(Refused(EmptyBatch), [])
    else if Prepare(bodies).Bad? then Effect(Refused(Prepare(bodies).reason), [])
    else if f.lockFails then Effect(WriteError, [])
    else if f.readFails then Effect(ReadError(Unreadable), [])
    else match Decide(codec, file, bodies, expected)
      case Answer(out) => Effect(out, [])
      case Write(lines, after) =>
        WriteAtomically(codec, file, Bytes(file) + lines, after, |bodies|, f)
  }

  // ---- the batch, before and after

  ghost predicate WellPrepared(bodies: seq<Body>) {
    && (forall i :: 0 <= i < |bodies| ==> BodyCheck(bodies[i], false).Ok?)
    && (forall i, j :: 0 <= i < j < |bodies| && bodies[i].opKey.Some? ==> bodies[i].opKey != bodies[j].opKey)
  }

  lemma {:induction false} PrepareMeans(bodies: seq<Body>)
    ensures Prepare(bodies).Ok? <==> WellPrepared(bodies)
  {
    hide BodyCheck;
    if bodies != [] {
      var last, front := bodies[|bodies| - 1], bodies[..|bodies| - 1];
      PrepareMeans(front);
      assert forall i :: 0 <= i < |front| ==> front[i] == bodies[i];
      if WellPrepared(bodies) {
        assert WellPrepared(front);
        assert forall i :: 0 <= i < |front| && front[i].opKey.Some? ==> front[i].opKey != last.opKey;
      }
    }
  }

  predicate AllKeyed(bodies: seq<Body>) {
    forall i :: 0 <= i < |bodies| ==> bodies[i].opKey.Some?
  }

  /** No body of the batch was committed. */
  predicate NoneThere(opKeys: map<string, Record>, bodies: seq<Body>) {
    forall i :: 0 <= i < |bodies| ==> !IsReplay(opKeys, bodies[i])
  }

  /** Every body of the batch was committed, as it stands. */
  predicate AllThere(opKeys: map<string, Record>, bodies: seq<Body>) {
    forall i :: 0 <= i < |bodies| ==>
      IsReplay(opKeys, bodies[i]) && BodyView(opKeys[bodies[i].opKey.value]) == bodies[i]
  }

  lemma {:induction false} ReplaysMeans(opKeys: map<string, Record>, bodies: seq<Body>)
    ensures Replays(opKeys, bodies) == Ok([]) <==> NoneThere(opKeys, bodies)
    ensures Replays(opKeys, bodies).Ok? && |Replays(opKeys, bodies).value| == |bodies| <==> AllThere(opKeys, bodies)
    ensures AllThere(opKeys, bodies) ==>
              forall i :: 0 <= i < |bodies| ==> Replays(opKeys, bodies).value[i] == opKeys[bodies[i].opKey.value]
  {
    hide BodyView;
    if bodies != [] {
      var last, front := bodies[|bodies| - 1], bodies[..|bodies| - 1];
      ReplaysMeans(opKeys, front);
      assert forall i :: 0 <= i < |front| ==> front[i] == bodies[i];
      assert NoneThere(opKeys, bodies) <==> NoneThere(opKeys, front) && !IsReplay(opKeys, last);
      assert AllThere(opKeys, bodies) <==>
             AllThere(opKeys, front) && IsReplay(opKeys, last) && BodyView(opKeys[last.opKey.value]) == last;
    }
  }

  /** Replay of a nonempty batch neither conflicts nor is partial exactly when the chain
      holds all of it or none of it. */
  lemma ReplayExact(opKeys: map<string, Record>, bodies: seq<Body>)
    requires bodies != []
    ensures Replay(opKeys, bodies).Ok? <==> AllThere(opKeys, bodies) || NoneThere(opKeys, bodies)
    ensures Replay(opKeys, bodies) == Ok(None) <==> NoneThere(opKeys, bodies)
    ensures AllThere(opKeys, bodies) ==>
              Replay(opKeys, bodies).Ok? && Replay(opKeys, bodies).value.Some?
              && |Replay(opKeys, bodies).value.value| == |bodies|
              && forall i :: 0 <= i < |bodies| ==>
                   Replay(opKeys, bodies).value.value[i] == opKeys[bodies[i].opKey.value]
  {
    ReplaysMeans(opKeys, bodies);
    hide Replays, AllThere, NoneThere;
  }
}
