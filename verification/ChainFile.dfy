/**
 `append_batch` as it runs: the chain file is replaced step by step while readers without
 the lock look on. The specification of the whole call is `ChainCommit.Attempt`.
 */
module ChainFile {
  import opened Text
  import opened Candidate
  import opened ChainRecord
  import opened ChainWalker
  import opened ChainBytes
  import opened ChainCommit

  /** The preparation loop. */
  method PrepareBatch(bodies: seq<Body>) returns (res: Result<()>)
    ensures res == Prepare(bodies)
  {
    hide BodyCheck;
    var seen: set<string> := {};
    for i := 0 to |bodies|
      invariant Prepare(bodies[..i]).Ok?
      invariant forall k :: k in seen <==> exists j :: 0 <= j < i && bodies[j].opKey == Some(k)
    {
      assert bodies[..i + 1][..i] == bodies[..i];
      var checked := BodyCheck(bodies[i], false);
      if checked.Bad? {
        PrepareRefusalIsFinal(bodies, i + 1);
        return checked;
      }
      var key := bodies[i].opKey;
      if key.Some? {
        if key.value in seen {
          var j :| 0 <= j < i && bodies[j].opKey == key;
          assert bodies[..i][j].opKey == key;
          PrepareRefusalIsFinal(bodies, i + 1);
          return Bad(DuplicateOpKey);
        }
        seen := seen + {key.value};
      }
    }
    assert bodies[..|bodies|] == bodies;
    return Ok(());
  }

  lemma {:induction false} PrepareRefusalIsFinal(bodies: seq<Body>, n: nat)
    requires n <= |bodies| && Prepare(bodies[..n]).Bad?
    ensures Prepare(bodies) == Prepare(bodies[..n])
  {
    hide BodyCheck;
    if n == |bodies| {
      assert bodies[..n] == bodies;
    } else {
      assert bodies[..|bodies| - 1][..n] == bodies[..n];
      PrepareRefusalIsFinal(bodies[..|bodies| - 1], n);
    }
  }

  /** The replay loop. */
  method ReplayBatch(opKeys: map<string, Record>, bodies: seq<Body>) returns (res: Result<Option<seq<Record>>>)
    ensures res == Replay(opKeys, bodies)
  {
    hide BodyView;
    var matched := [];
    for i := 0 to |bodies|
      invariant Replays(opKeys, bodies[..i]) == Ok(matched)
    {
      assert bodies[..i + 1][..i] == bodies[..i];
      var body := bodies[i];
      if IsReplay(opKeys, body) {
        var stored := opKeys[body.opKey.value];
        if BodyView(stored) != body {
          ReplaysConflictIsFinal(opKeys, bodies, i + 1);
          return Bad(OpKeyConflict);
        }
        matched := matched + [stored];
      }
    }
    assert bodies[..|bodies|] == bodies;
    if matched == [] { return Ok(None); }
    if |matched| != |bodies| { return Bad(OpKeyPartial); }
    return Ok(Some(matched));
  }

  lemma {:induction false} ReplaysConflictIsFinal(opKeys: map<string, Record>, bodies: seq<Body>, n: nat)
    requires n <= |bodies| && Replays(opKeys, bodies[..n]).Bad?
    ensures Replays(opKeys, bodies) == Replays(opKeys, bodies[..n])
  {
    hide BodyView;
    if n == |bodies| {
      assert bodies[..n] == bodies;
    } else {
      assert bodies[..|bodies| - 1][..n] == bodies[..n];
      ReplaysConflictIsFinal(opKeys, bodies[..|bodies| - 1], n);
    }
  }

  /** The batch-candidate loop. */
  method CheckBatchCandidates(bodies: seq<Body>) returns (res: Result<()>)
    ensures res == BatchCandidates(bodies, None)
  {
    var reference: Option<Json> := None;
    for i := 0 to |bodies|
      invariant BatchCandidates(bodies, None) == BatchCandidates(bodies[i..], reference)
    {
      assert bodies[i..][1..] == bodies[i + 1..];
      if SameCandidateKind(bodies[i]) {
        if reference.None? {
          reference := Some(bodies[i].candidate);
        } else if !Same(reference.value, bodies[i].candidate) {
          return Bad(CandidateMismatchInBatch);
        }
      }
    }
    return Ok(());
  }

  /** `_load` with the walker it leaves behind. */
  method LoadWalker(codec: Codec, file: Option<string>) returns (code: ReadCode, walker: Walker)
    ensures fresh(walker) && walker.hash == codec.digest
    ensures match Load(codec, file)
            case Chain(s) => code == Unreadable && walker.View() == s
            case Unread(why) => code == why != Unreadable
  {
    hide Step;
    walker := new Walker(codec.digest);
    var records := ParseChain(codec, Bytes(file));
    if records.None? { return TornLine, walker; }
    var rs := records.value;
    for i := 0 to |rs|
      invariant walker.hash == codec.digest && fresh(walker)
      invariant Walk(codec.digest, rs[..i]) == Ok(walker.View())
    {
      WalkSnoc(codec.digest, rs[..i], rs[i]);
      assert rs[..i] + [rs[i]] == rs[..i + 1];
      var fed := walker.Feed(rs[i]);
      if fed.Bad? {
        RefusalIsFinal(codec.digest, rs, i + 1);
        return ReadCodeOf(fed.reason), walker;
      }
    }
    assert rs[..|rs|] == rs;
    return Unreadable, walker;
  }

  /** The commit loop: mint, feed, and render each record. */
  method MintBatch(codec: Codec, walker: Walker, bodies: seq<Body>) returns (res: Result<string>)
    requires walker.hash == codec.digest
    modifies walker
    ensures match MintAll(codec.digest, old(walker.View()), bodies)
            case Bad(reason) => res == Bad(reason)
            case Ok(t) => walker.View() == t && res == Ok(Render(codec, NewRecords(old(walker.View()), t)))
  {
    hide Step, Minted;
    ghost var s := walker.View();
    ghost var added: seq<Record> := [];
    var lines := "";
    for i := 0 to |bodies|
      invariant MintAll(codec.digest, s, bodies[..i]) == Ok(walker.View())
      invariant walker.View().log.records == s.log.records + added
      invariant lines == Render(codec, added)
    {
      assert bodies[..i + 1][..i] == bodies[..i];
      ghost var t := walker.View();
      var record := Minted(codec.digest, walker.View(), bodies[i]);
      var fed := walker.Feed(record);
      if fed.Bad? {
        MintRefusalIsFinal(codec.digest, s, bodies, i + 1);
        return Bad(fed.reason);
      }
      StepAppends(codec.digest, t, record, walker.View());
      RenderConcat(codec, added, [record]);
      assert Render(codec, [record]) == codec.encode(record) + "\n";
      lines := lines + (codec.encode(record) + "\n");
      added := added + [record];
    }
    assert bodies[..|bodies|] == bodies;
    assert NewRecords(s, walker.View()) == added;
    return Ok(lines);
  }

  lemma StepAppends(digest: Content -> string, s: State, r: Record, t: State)
    requires Step(digest, s, r) == Ok(t)
    ensures t.log.records == s.log.records + [r]
  {
    hide Admit, Apply;
  }

  lemma {:induction false} MintRefusalIsFinal(digest: Content -> string, s: State, bodies: seq<Body>, n: nat)
    requires n <= |bodies| && MintAll(digest, s, bodies[..n]).Bad?
    ensures MintAll(digest, s, bodies) == MintAll(digest, s, bodies[..n])
  {
    hide Step, Minted;
    if n == |bodies| {
      assert bodies[..n] == bodies;
    } else {
      assert bodies[..|bodies| - 1][..n] == bodies[..n];
      MintRefusalIsFinal(digest, s, bodies[..|bodies| - 1], n);
    }
  }

  class ChainFile {
    var content: Option<string>
    /** Every content the file has had, in order: the views of readers without the lock. */
    ghost var seen: seq<Option<string>>

    constructor (content: Option<string>)
      ensures this.content == content && seen == [content]
    {
      this.content := content;
      seen := [content];
    }

    method Put(now: Option<string>)
      modifies this
      ensures content == now && seen == old(seen) + [now]
    {
      content := now;
      seen := seen + [now];
    }

    /** `_rollback`: restore the original content and prove it by reading it back. */
    method RollBack(before: Option<string>, f: Faults) returns (out: Outcome)
      modifies this
      ensures var e := Rollback(before, old(content), f);
        out == e.out && content == Final(before, e) && old(seen) + e.contents[1..] == seen
    {
      if before.None? {
        if f.unlinkFails { return Uncertain; }
        Put(None);
      } else {
        if f.restore.Fails? { return Uncertain; }
        Put(Some(Swapped(f.restore, before.value)));
      }
      if f.rereadFails || content != before { return Uncertain; }
      return WriteError;
    }

    /** `_write_atomically`. */
    method WriteFile(codec: Codec, asked: string, after: State, count: nat, f: Faults) returns (out: Outcome)
      modifies this
      ensures var e := WriteAtomically(codec, old(content), asked, after, count, f);
        out == e.out && content == Final(old(content), e) && seen == old(seen) + e.contents
    {
      hide Load;
      if f.swap.Fails? { return WriteError; }
      var before := content;
      Put(Some(Swapped(f.swap, asked)));
      if !f.syncFails && !f.readbackFails && content == Some(asked) {
        var code, walker := LoadWalker(codec, content);
        if code == Unreadable && walker.head == after.log.head && |walker.records| >= count {
          return Committed(walker.records[|walker.records| - count..]);
        }
      }
      out := RollBack(before, f);
    }

    /** `append_batch`: all of the batch or none of it, exactly as `Attempt` says. */
    method Append(codec: Codec, bodies: seq<Body>, expected: Option<string>, f: Faults) returns (out: Outcome)
      modifies this
      ensures var e := Attempt(codec, old(content), bodies, expected, f);
        out == e.out && content == Final(old(content), e) && seen == old(seen) + e.contents
    {
      hide Load, Prepare, Replay, BatchCandidates, MintAll, WriteAtomically, Render, NewRecords;
      if bodies == [] { return Refused(EmptyBatch); }
      var prepared := PrepareBatch(bodies);
      if prepared.Bad? { return Refused(prepared.reason); }
      if f.lockFails { return WriteError; }
      if f.readFails { return ReadError(Unreadable); }
      var code, walker := LoadWalker(codec, content);
      if code != Unreadable { return ReadError(code); }
      var replayed := ReplayBatch(walker.opKeys, bodies);
      if replayed.Bad? { return Refused(replayed.reason); }
      if replayed.value.Some? { return Replayed(replayed.value.value); }
      if !HeadMatches(walker.head, expected) { return HeadConflict(expected.value, walker.head); }
      var agreed := CheckBatchCandidates(bodies);
      if agreed.Bad? { return Refused(agreed.reason); }
      var lines := MintBatch(codec, walker, bodies);
      if lines.Bad? { return Refused(lines.reason); }
      out := WriteFile(codec, Bytes(content) + lines.value, walker.View(), |bodies|, f);
    }
  }
}
