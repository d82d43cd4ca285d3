/**
 The reducer's evidence told field by field: what a reservation, a wake and a failed wake must name,
 which refusal each call meets, and which units can still be completed.
 */
module ControlExact {
  import opened Text
  import opened Candidate
  import opened PythonEquality
  import opened ControlPlane
  import Calendar
  import CalendarText

  // ---- fields

  predicate HexText(t: string) {
    forall i :: 0 <= i < |t| ==> '0' <= t[i] <= '9' || 'a' <= t[i] <= 'f'
  }

  /** The text is hex up to one final newline, and the hex part as long as it should be. */
  ghost predicate ReadsAsHex(s: string, least: nat, most: Option<nat>) {
    exists t :: HexText(t) && (s == t || s == t + "\n") && least <= |t| && (most.Some? ==> |t| <= most.value)
  }

  ghost predicate DigestAt(m: Fields, key: string) {
    key in m && m[key].Str? && ReadsAsHex(m[key].s, 64, Some(64))
  }

  ghost predicate SignatureAt(m: Fields, key: string) {
    key in m && m[key].Str? && ReadsAsHex(m[key].s, 32, None)
  }

  predicate TextAt(m: Fields, key: string) {
    key in m && m[key].Str? && |m[key].s| > 0
  }

  predicate AbsentAt(m: Fields, key: string) {
    key !in m || m[key] == Null
  }

  predicate IndexAt(m: Fields, key: string) {
    AbsentAt(m, key) || (m[key].Num? && 0 <= m[key].n)
  }

  predicate SaysAt(m: Fields, key: string, word: string) {
    key in m && m[key] == Str(word)
  }

  predicate OptionalTextAt(m: Fields, key: string) {
    AbsentAt(m, key) || m[key].Str?
  }

  predicate UnhashableAt(m: Fields, key: string) {
    key in m && (m[key].Arr? || m[key].Obj?)
  }

  /** The value is the index of the other side, or both have none. */
  predicate SameIndex(m: Fields, e: Fields) {
    if AbsentAt(m, "candidate_index") then AbsentAt(e, "candidate_index")
    else !AbsentAt(e, "candidate_index") && m["candidate_index"] == e["candidate_index"]
  }

  lemma SignatureIsHex(j: Json)
    ensures IsSignature(j) <==> j.Str? && ReadsAsHex(j.s, 32, None)
  {
    if j.Str? {
      var cut := Unended(j.s);
      assert j.s == cut || j.s == cut + "\n";
      if IsSignature(j) { assert HexText(cut); }
      if t :| HexText(t) && (j.s == t || j.s == t + "\n") && 32 <= |t| {
        assert t[|t| - 1] != '\n';
        assert cut == t;
      }
    }
  }

  lemma DigestIsHex(j: Json)
    ensures IsHex(j) <==> j.Str? && ReadsAsHex(j.s, 64, Some(64))
  {
    if j.Str? {
      if IsHex(j) {
        var cut := if IsHex64(j.s) then j.s else j.s[..64];
        assert HexText(cut) && (j.s == cut || j.s == cut + "\n");
      }
      if t :| HexText(t) && (j.s == t || j.s == t + "\n") && 64 <= |t| <= 64 {
        assert IsHex64(t);
        assert j.s == t + "\n" ==> j.s[..64] == t;
      }
    }
  }

  // ---- evidence

  /** Role, session, policy and candidate: what every capacity record binds. */
  ghost predicate Binds(m: Fields) {
    && TextAt(m, "role") && TextAt(m, "provider_session_id") && DigestAt(m, "controller_policy_digest")
    && DigestAt(m, "candidate_manifest_digest") && IndexAt(m, "candidate_index")
  }

  ghost predicate HashesAt(m: Fields, key: string) {
    && key in m && m[key].Obj? && |m[key].fields| > 0
    && forall name :: name in m[key].fields ==> |name| > 0 && DigestAt(m[key].fields, name)
  }

  /** A reservation: an outcome that capacity can mend, how to resume, and the artifacts held. */
  ghost predicate Reserves(m: Fields) {
    && (SaysAt(m, "controller_outcome", "quota_limited") || SaysAt(m, "controller_outcome", "overloaded"))
    && Binds(m)
    && (SaysAt(m, "resume_mode", "scheduled") || SaysAt(m, "resume_mode", "manual_signal"))
    && OptionalTextAt(m, "model") && OptionalTextAt(m, "effort")
    && HashesAt(m, "artifact_hashes") && TextAt(m, "automation_ref")
  }

  predicate TimeAt(m: Fields, key: string) {
    key in m && m[key].Str? && Calendar.EpochOf(m[key].s).Some?
  }

  /** The lease is consumed, and its time is not after the clock. */
  predicate ResetReached(m: Fields) {
    && SaysAt(m, "consumption_state", "consumed") && TimeAt(m, "not_before") && TimeAt(m, "current_clock")
    && Calendar.EpochOf(m["not_before"].s).value <= Calendar.EpochOf(m["current_clock"].s).value
  }

  /** A journalled, signed signal, without a plain word that it is authorized. */
  ghost predicate Signalled(m: Fields) {
    && AbsentAt(m, "authorized") && TextAt(m, "signal_journal_ref") && TextAt(m, "signer_public_key_id")
    && SignatureAt(m, "detached_signature")
  }

  ghost predicate Wakes(m: Fields) {
    && TextAt(m, "lease_id") && Binds(m)
    && if SaysAt(m, "kind", "trustworthy_reset") then ResetReached(m)
       else SaysAt(m, "kind", "manual_signal") && Signalled(m)
  }

  ghost predicate FailsToWake(m: Fields) {
    && TextAt(m, "lease_id") && Binds(m)
    && exists kind :: SaysAt(m, "failure_kind", kind) && kind in [
         "role_mismatch", "session_mismatch", "controller_policy_mismatch", "model_effort_mismatch",
         "candidate_mismatch", "stale_lease", "consumed_lease_reused", "cancelled_lease_reused"]
  }

  lemma BindsExactly(m: Fields)
    ensures BindingFieldsOk(m) <==> Binds(m)
  {
    DigestIsHex(Get(m, "controller_policy_digest"));
    DigestIsHex(Get(m, "candidate_manifest_digest"));
    hide IsHex, ReadsAsHex;
  }

  lemma HashesExactly(m: Fields, key: string)
    ensures HashesOk(Get(m, key)) <==> HashesAt(m, key)
  {
    var j := Get(m, key);
    if j.Obj? {
      forall name | name in j.fields ensures IsHex(j.fields[name]) <==> DigestAt(j.fields, name) {
        DigestIsHex(j.fields[name]);
      }
    }
    hide IsHex, ReadsAsHex;
  }

  lemma ReservesExactly(m: Fields)
    ensures CapacityEvidence(Obj(m)) == if UnhashableAt(m, "controller_outcome") then Raises
                                        else if Reserves(m) then Valid else Invalid
  {
    BindsExactly(m);
    HashesExactly(m, "artifact_hashes");
    hide BindingFieldsOk, Binds, HashesOk, HashesAt;
  }

  lemma ResetExactly(m: Fields)
    ensures ResetDue(m) <==> ResetReached(m)
  {
    if Calendar.EpochOf("").Some? { CalendarText.OnlyTimestampsRead(""); }
    hide Calendar.EpochOf;
  }

  lemma WakesExactly(m: Fields)
    ensures WakeEvidence(Obj(m)) == if Wakes(m) then Valid else Invalid
  {
    BindsExactly(m);
    ResetExactly(m);
    SignatureIsHex(Get(m, "detached_signature"));
    hide BindingFieldsOk, Binds, ResetDue, ResetReached, IsSignature, ReadsAsHex;
  }

  lemma FailsToWakeExactly(m: Fields)
    ensures WakeFailureEvidence(Obj(m)) ==
            if TextAt(m, "lease_id") && Binds(m) && UnhashableAt(m, "failure_kind") then Raises
            else if FailsToWake(m) then Valid else Invalid
  {
    BindsExactly(m);
    hide BindingFieldsOk, Binds;
    if FailsToWake(m) {
      var kind :| SaysAt(m, "failure_kind", kind) && kind in [
         "role_mismatch", "session_mismatch", "controller_policy_mismatch", "model_effort_mismatch",
         "candidate_mismatch", "stale_lease", "consumed_lease_reused", "cancelled_lease_reused"];
    }
    if WakeFailureEvidence(Obj(m)) == Valid { assert SaysAt(m, "failure_kind", m["failure_kind"].s); }
  }

  // ---- the expected candidate

  /** The caller names a candidate: these two fields and no other, well formed. */
  ghost predicate Expects(expected: Option<Fields>) {
    expected.Some?
    && (forall key :: key in expected.value <==> key == "candidate_manifest_digest" || key == "candidate_index")
    && DigestAt(expected.value, "candidate_manifest_digest") && IndexAt(expected.value, "candidate_index")
  }

  predicate NamesExpected(m: Fields, e: Fields)
    requires "candidate_manifest_digest" in m && "candidate_manifest_digest" in e
  {
    m["candidate_manifest_digest"] == e["candidate_manifest_digest"] && SameIndex(m, e)
  }

  lemma ExpectsExactly(expected: Option<Fields>)
    ensures ExpectedOk(expected) <==> Expects(expected)
  {
    if expected.Some? {
      DigestIsHex(Get(expected.value, "candidate_manifest_digest"));
      var keys := {"candidate_manifest_digest", "candidate_index"};
      hide IsHex, ReadsAsHex;
      if Expects(expected) {
        assert forall key :: key in expected.value.Keys <==> key in keys;
        assert expected.value.Keys == keys;
      }
    }
  }

  lemma PairExactly(m: Fields, e: Fields)
    requires DigestAt(m, "candidate_manifest_digest") && DigestAt(e, "candidate_manifest_digest")
    requires IndexAt(m, "candidate_index") && IndexAt(e, "candidate_index")
    ensures PairMatches(m, e) <==> NamesExpected(m, e)
  {
    hide ReadsAsHex;
  }

  /** Evidence that is in order is refused without an expected candidate or against another one. */
  ghost predicate BoundTo(m: Fields, expected: Option<Fields>, to: State, out: Outcome)
    requires Binds(m)
  {
    out == if !Expects(expected) then Refused(ExpectedRequired)
           else if !NamesExpected(m, expected.value) then Refused(CandidateMismatch)
           else Moved(to)
  }

  lemma BoundExactly(m: Fields, expected: Option<Fields>, to: State)
    requires Binds(m)
    ensures BoundTo(m, expected, to, Bound(Valid, Obj(m), expected, to))
  {
    ExpectsExactly(expected);
    if Expects(expected) { PairExactly(m, expected.value); }
    hide ReadsAsHex, PairMatches, NamesExpected, ExpectedOk;
  }

  // ---- the calls

  /** The evidence of this name, when there is an object under it. */
  predicate Submits(c: Call, key: string) {
    c.evidence.Some? && key in c.evidence.value && c.evidence.value[key].Obj?
  }

  lemma AdvanceReserved(s: State, c: Call)
    requires c.event == CapacityReserved
    ensures var block := Get(Supplied(c), "capacity_evidence");
      Advance(s, c) == if s != Preflighting && s != Running then Refused(IllegalTransition)
                       else Bound(CapacityEvidence(block), block, c.expected, AwaitingCapacity)
  {
    hide CapacityEvidence, Bound, Get;
  }

  /** A reservation is taken exactly during a preflight or a turn, on evidence that reserves, for the
      candidate the caller expects; every other one meets the first refusal that applies. */
  lemma ReservedExactly(s: State, c: Call)
    requires c.event == CapacityReserved
    ensures var out := Advance(s, c);
      if s != Preflighting && s != Running then out == Refused(IllegalTransition)
      else if !Submits(c, "capacity_evidence") then out == Refused(EvidenceMissing)
      else
        var m := c.evidence.value["capacity_evidence"].fields;
        if UnhashableAt(m, "controller_outcome") then out == TypeError
        else if !Reserves(m) then out == Refused(EvidenceMissing)
        else BoundTo(m, c.expected, AwaitingCapacity, out)
  {
    AdvanceReserved(s, c);
    hide Advance;
    if Submits(c, "capacity_evidence") {
      var m := c.evidence.value["capacity_evidence"].fields;
      ReservesExactly(m);
      if Reserves(m) { BoundExactly(m, c.expected, AwaitingCapacity); }
      hide CapacityEvidence, Reserves, BoundTo, Bound;
      assert Get(Supplied(c), "capacity_evidence") == Obj(m);
      InvalidIsMissing(Obj(m), c.expected, AwaitingCapacity);
    } else {
      assert CapacityEvidence(Get(Supplied(c), "capacity_evidence")) == Invalid;
    }
  }

  lemma InvalidIsMissing(block: Json, expected: Option<Fields>, to: State)
    ensures Bound(Invalid, block, expected, to) == Refused(EvidenceMissing)
    ensures Bound(Raises, block, expected, to) == TypeError
  {
  }

  lemma WokenExactly(s: State, c: Call)
    requires c.event == CapacityWakeClaimed
    ensures var out := Advance(s, c);
      if s != AwaitingCapacity then out == Refused(IllegalTransition)
      else if !Submits(c, "capacity_wake_evidence") then out == Refused(EvidenceMissing)
      else
        var m := c.evidence.value["capacity_wake_evidence"].fields;
        if !Wakes(m) then out == Refused(EvidenceMissing)
        else BoundTo(m, c.expected, Preflighting, out)
  {
    if Submits(c, "capacity_wake_evidence") {
      var m := c.evidence.value["capacity_wake_evidence"].fields;
      WakesExactly(m);
      if Wakes(m) { BoundExactly(m, c.expected, Preflighting); }
      hide WakeEvidence, Wakes, BoundTo, Bound;
      assert Get(Supplied(c), "capacity_wake_evidence") == Obj(m);
      InvalidIsMissing(Obj(m), c.expected, Preflighting);
    }
  }

  lemma WakeFailedExactly(s: State, c: Call)
    requires c.event == CapacityWakePreflightFailed
    ensures var out := Advance(s, c);
      if s != Preflighting then out == Refused(IllegalTransition)
      else if !Submits(c, "capacity_wake_preflight_failure") then out == Refused(EvidenceMissing)
      else
        var m := c.evidence.value["capacity_wake_preflight_failure"].fields;
        if TextAt(m, "lease_id") && Binds(m) && UnhashableAt(m, "failure_kind") then out == TypeError
        else if !FailsToWake(m) then out == Refused(EvidenceMissing)
        else BoundTo(m, c.expected, AwaitingCapacity, out)
  {
    if Submits(c, "capacity_wake_preflight_failure") {
      var m := c.evidence.value["capacity_wake_preflight_failure"].fields;
      FailsToWakeExactly(m);
      if FailsToWake(m) { BoundExactly(m, c.expected, AwaitingCapacity); }
      hide WakeFailureEvidence, FailsToWake, BoundTo, Bound;
      assert Get(Supplied(c), "capacity_wake_preflight_failure") == Obj(m);
      InvalidIsMissing(Obj(m), c.expected, AwaitingCapacity);
    }
  }

  /** Gate evidence that names a candidate and passes. */
  ghost predicate Passes(m: Fields) {
    DigestAt(m, "candidate_manifest_digest") && IndexAt(m, "candidate_index") && SaysAt(m, "verdict", "pass")
  }

  /** The expected candidate is optional at the gate, and asked for no form of its own: a truth
      value stands for the index it equals. */
  predicate NamesAtGate(m: Fields, e: Fields)
    requires "candidate_manifest_digest" in m
  {
    && "candidate_manifest_digest" in e && e["candidate_manifest_digest"] == m["candidate_manifest_digest"]
    && if AbsentAt(m, "candidate_index") then AbsentAt(e, "candidate_index")
       else
         && "candidate_index" in e
         && (e["candidate_index"] == m["candidate_index"]
             || (e["candidate_index"] == Bool(false) && m["candidate_index"] == Num(0))
             || (e["candidate_index"] == Bool(true) && m["candidate_index"] == Num(1)))
  }

  lemma GateNames(m: Fields, e: Fields)
    requires Passes(m)
    ensures PairMatches(m, e) <==> NamesAtGate(m, e)
  {
    hide ReadsAsHex;
  }

  lemma PassesExactly(evidence: Fields)
    requires "gate_validation" in evidence && evidence["gate_validation"].Obj?
    ensures GateEvidenceValid(evidence) <==> Passes(evidence["gate_validation"].fields)
  {
    DigestIsHex(Get(evidence["gate_validation"].fields, "candidate_manifest_digest"));
    hide IsHex, ReadsAsHex;
  }

  lemma AdvanceGated(s: State, c: Call)
    requires c.event == GateValidated
    ensures Advance(s, c) ==
            if s != AwaitingGate then Refused(IllegalTransition)
            else if !GateEvidenceValid(Supplied(c)) then Refused(EvidenceMissing)
            else if c.expected.Some? && !PairMatches(Supplied(c)["gate_validation"].fields, c.expected.value) then
              Refused(CandidateMismatch)
            else Moved(Completed)
  {
    hide PairMatches, IsHex, IsIndex;
  }

  lemma GatedExactly(s: State, c: Call)
    requires c.event == GateValidated
    ensures var out := Advance(s, c);
      if s != AwaitingGate then out == Refused(IllegalTransition)
      else if !Submits(c, "gate_validation") || !Passes(c.evidence.value["gate_validation"].fields) then
        out == Refused(EvidenceMissing)
      else if c.expected.Some? && !NamesAtGate(c.evidence.value["gate_validation"].fields, c.expected.value) then
        out == Refused(CandidateMismatch)
      else out == Moved(Completed)
  {
    AdvanceGated(s, c);
    hide Advance;
    if Submits(c, "gate_validation") {
      var m := c.evidence.value["gate_validation"].fields;
      PassesExactly(c.evidence.value);
      if Passes(m) && c.expected.Some? { GateNames(m, c.expected.value); }
      hide GateEvidenceValid, Passes, PairMatches, NamesAtGate;
    }
  }

  // ---- which units can still be completed

  const STUCK: set<State> := {NeedsAuthority, RejectedPreflight, Failed, CancelledState, AbortedState}

  /** How many calls at least a unit in this state is from completion. */
  function CallsToGo(s: State): nat {
    match s
    case Completed => 0
    case AwaitingGate => 1
    case Running => 2
    case Preflighting | Blocked => 3
    case _ => 4
  }

  function SampleWake(): Fields {
    map["lease_id" := Str("l"), "role" := Str("r"), "provider_session_id" := Str("p"),
        "controller_policy_digest" := SampleHex(), "candidate_manifest_digest" := SampleHex(),
        "kind" := Str("manual_signal"), "signal_journal_ref" := Str("j"), "signer_public_key_id" := Str("k"),
        "detached_signature" := SampleHex()]
  }

  lemma SampleHexReads()
    ensures SampleHex().Str? && ReadsAsHex(SampleHex().s, 64, Some(64)) && ReadsAsHex(SampleHex().s, 32, None)
  {
    assert HexText(SampleHex().s);
  }

  lemma SampleWakes()
    ensures Wakes(SampleWake()) && Expects(Some(SampleExpected())) && NamesExpected(SampleWake(), SampleExpected())
  {
    SampleHexReads();
    hide SampleHex, ReadsAsHex, ResetReached;
    var m := SampleWake();
    assert m["kind"] == Str("manual_signal") && m["lease_id"] == Str("l") && m["role"] == Str("r");
    assert Binds(m) && Signalled(m);
    hide SampleWake;
    assert !SaysAt(m, "kind", "trustworthy_reset");
    assert Expects(Some(SampleExpected()));
  }

  lemma WakeCall() returns (c: Call)
    ensures c.event == CapacityWakeClaimed && Advance(AwaitingCapacity, c) == Moved(Preflighting)
  {
    SampleWakes();
    hide SampleWake, SampleExpected, Wakes, Expects, NamesExpected, Advance, Binds;
    var m := SampleWake();
    c := Call(CapacityWakeClaimed, Some(map["capacity_wake_evidence" := Obj(m)]), Some(SampleExpected()));
    WokenExactly(AwaitingCapacity, c);
  }

  lemma Passing(s: State, c: Call)
    requires c.event in {PreflightStarted, PreflightPassed, DependencyUnblocked, TurnCompleted}
    ensures Advance(s, c) ==
            if Target(s, c.event).Some? then Moved(Target(s, c.event).value) else Refused(IllegalTransition)
  {
    hide Bound, CapacityEvidence, WakeEvidence, WakeFailureEvidence, GateEvidenceValid, Get;
  }

  /** A call that brings the unit one step nearer. */
  lemma Nearer(s: State) returns (c: Call)
    requires s !in STUCK && s != Completed
    ensures Next(s, c) !in STUCK && CallsToGo(Next(s, c)) == CallsToGo(s) - 1
  {
    hide Advance;
    match s
    case AwaitingGate =>
      c := NewlineDigestCompletes();
    case AwaitingCapacity =>
      c := WakeCall();
    case _ =>
      var event :=
        if s == Pending then PreflightStarted
        else if s == Preflighting then PreflightPassed
        else if s == Blocked then DependencyUnblocked else TurnCompleted;
      c := Call(event, None, None);
      Passing(s, c);
  }

  lemma RunSnoc(calls: seq<Call>, c: Call)
    ensures Run(calls + [c]) == Next(Run(calls), c)
  {
    assert (calls + [c])[..|calls|] == calls;
  }

  lemma {:induction false} Finish(calls: seq<Call>) returns (more: seq<Call>)
    requires Run(calls) !in STUCK
    ensures Run(calls + more) == Completed && |more| == CallsToGo(Run(calls))
    decreases CallsToGo(Run(calls))
  {
    hide Advance;
    if Run(calls) == Completed {
      more := [];
      assert calls + [] == calls;
    } else {
      var c := Nearer(Run(calls));
      RunSnoc(calls, c);
      var rest := Finish(calls + [c]);
      more := [c] + rest;
      assert calls + more == calls + [c] + rest;
    }
  }

  /** No call takes more than one step; and nothing leads out of the stuck states. */
  lemma OneStepAtMost(s: State, c: Call)
    ensures s in STUCK ==> Next(s, c) in STUCK
    ensures s !in STUCK && Next(s, c) !in STUCK ==> CallsToGo(s) <= CallsToGo(Next(s, c)) + 1
  {
    MovesFollowTheTable(s, c);
    hide Advance;
  }

  lemma {:induction false} NoSooner(calls: seq<Call>, more: seq<Call>)
    ensures Run(calls) in STUCK ==> Run(calls + more) in STUCK
    ensures Run(calls) !in STUCK && Run(calls + more) !in STUCK ==>
              CallsToGo(Run(calls)) <= CallsToGo(Run(calls + more)) + |more|
    decreases |more|
  {
    hide Advance;
    if more == [] {
      assert calls + more == calls;
    } else {
      var c := more[|more| - 1];
      var front := more[..|more| - 1];
      NoSooner(calls, front);
      assert calls + more == calls + front + [c];
      RunSnoc(calls + front, c);
      OneStepAtMost(Run(calls + front), c);
    }
  }

  lemma DistanceOfCompleted()
    ensures CallsToGo(Completed) == 0
  {
  }

  /** After any run, so many further calls can complete the unit exactly when it is in none of the
      states without a way back and no fewer than its distance: a unit that needs authority has none,
      short of being cancelled or aborted. */
  lemma CompletableExactly(calls: seq<Call>, n: nat)
    ensures (exists more :: |more| <= n && Run(calls + more) == Completed) <==>
            Run(calls) !in STUCK && CallsToGo(Run(calls)) <= n
  {
    hide Advance, Run, CallsToGo;
    if more :| |more| <= n && Run(calls + more) == Completed { 
      NoSooner(calls, more);
      DistanceOfCompleted();
    }
    if Run(calls) !in STUCK && CallsToGo(Run(calls)) <= n { var more := Finish(calls); }
  }

  // ---- what the state tells of the run

  /** How each state is entered: from where, and by which event. */
  predicate Enters(s: State, e: Event, to: State) {
    match to
    case Pending => false
    case Preflighting => (s == Pending && e == PreflightStarted) || (s == AwaitingCapacity && e == CapacityWakeClaimed)
    case Running => (s == Preflighting && e == PreflightPassed) || (s == Blocked && e == DependencyUnblocked)
    case AwaitingGate => s == Running && e == TurnCompleted
    case Completed => s == AwaitingGate && e == GateValidated
    case RejectedPreflight => s == Preflighting && e == PreflightRejected
    case NeedsAuthority => (s == Preflighting || s == Running) && e == CapabilityMissing
    case AwaitingCapacity =>
      || ((s == Preflighting || s == Running) && e == CapacityReserved)
      || (s == Preflighting && e == CapacityWakePreflightFailed)
    case Blocked => s == Running && e == DependencyBlocked
    case Failed => (s == Running && e == ExecutionFailed) || (s == AwaitingGate && e == GateRejected)
    case CancelledState => s !in TERMINAL_STATES && e == Cancelled
    case AbortedState => s !in TERMINAL_STATES && e == Aborted
  }

  lemma TableExactly(s: State, e: Event, to: State)
    ensures Target(s, e) == Some(to) <==> Enters(s, e, to)
  {
  }

  lemma {:induction false} LastEffect(calls: seq<Call>, n: nat) returns (m: nat)
    requires n <= |calls| && Run(calls[..n]) != Pending
    ensures m < n && Advance(Run(calls[..m]), calls[m]) == Moved(Run(calls[..n]))
    ensures forall k :: m < k < n ==> !Advance(Run(calls[..k]), calls[k]).Moved?
  {
    hide Advance;
    assert calls[..0] == [];
    RunStep(calls, n - 1);
    if Advance(Run(calls[..n - 1]), calls[n - 1]).Moved? { m := n - 1; } else { m := LastEffect(calls, n - 1); }
  }

  /** A run that has left its first state was brought where it is by its last call to take effect, and
      the state tells which events that can have been and where from. */
  lemma StateTellsLastEffect(calls: seq<Call>) returns (m: nat)
    requires Run(calls) != Pending
    ensures m < |calls| && Enters(Run(calls[..m]), calls[m].event, Run(calls))
    ensures Advance(Run(calls[..m]), calls[m]) == Moved(Run(calls))
    ensures forall k :: m < k < |calls| ==> !Advance(Run(calls[..k]), calls[k]).Moved?
  {
    assert calls[..|calls|] == calls;
    m := LastEffect(calls, |calls|);
    MovesFollowTheTable(Run(calls[..m]), calls[m]);
    TableExactly(Run(calls[..m]), calls[m].event, Run(calls));
    hide Advance, Enters, Target;
  }
}
