/**
 The phase reducer of a work unit: a transition table, and the evidence four of its events need.
 Evidence and the expected candidate are JSON objects; a missing field reads as null.
 */
module ControlPlane {
  import opened Text
  import opened Candidate
  import opened PythonEquality
  import Calendar

  datatype State =
    | Pending | Preflighting | Running | AwaitingGate | Completed | RejectedPreflight | NeedsAuthority
    | AwaitingCapacity | Blocked | Failed | CancelledState | AbortedState

  datatype Event =
    | PreflightStarted | PreflightPassed | PreflightRejected | CapabilityMissing | TurnCompleted
    | GateValidated | GateRejected | DependencyBlocked | DependencyUnblocked | CapacityReserved
    | ExecutionFailed | Cancelled | Aborted | CapacityWakeClaimed | CapacityWakePreflightFailed

  const TERMINAL_STATES: set<State> := {Completed, RejectedPreflight, Failed, CancelledState, AbortedState}

  /** `TRANSITIONS`: where an event leads, if anywhere. */
  function Target(s: State, e: Event): Option<State> {
    match (s, e)
    case (Pending, PreflightStarted) => Some(Preflighting)
    case (Preflighting, PreflightPassed) => Some(Running)
    case (Preflighting, PreflightRejected) => Some(RejectedPreflight)
    case (Preflighting, CapabilityMissing) => Some(NeedsAuthority)
    case (Preflighting, CapacityReserved) => Some(AwaitingCapacity)
    case (Preflighting, CapacityWakePreflightFailed) => Some(AwaitingCapacity)
    case (Running, TurnCompleted) => Some(AwaitingGate)
    case (Running, DependencyBlocked) => Some(Blocked)
    case (Running, CapabilityMissing) => Some(NeedsAuthority)
    case (Running, ExecutionFailed) => Some(Failed)
    case (Running, CapacityReserved) => Some(AwaitingCapacity)
    case (AwaitingGate, GateValidated) => Some(Completed)
    case (AwaitingGate, GateRejected) => Some(Failed)
    case (Blocked, DependencyUnblocked) => Some(Running)
    case (AwaitingCapacity, CapacityWakeClaimed) => Some(Preflighting)
    case (_, Cancelled) => if s in TERMINAL_STATES then None else Some(CancelledState)
    case (_, Aborted) => if s in TERMINAL_STATES then None else Some(AbortedState)
    case _ => None
  }

  // ---- evidence

  type Fields = map<string, Json>

  function Get(m: Fields, key: string): Json {
    if key in m then m[key] else Null
  }

  /** `isinstance(j, str)` and `_HEX64_RE.match(j)`, which lets one trailing newline pass. */
  predicate IsHex(j: Json) {
    j.Str? && MatchesHex64Dollar(j.s)
  }

  predicate IsText(j: Json) {
    j.Str? && j.s != ""
  }

  predicate IsIndex(j: Json) {
    j.Null? || (j.Num? && j.n >= 0)
  }

  /** The text a pattern ending in `$` is held against. */
  function Unended(s: string): string {
    if s != "" && s[|s| - 1] == '\n' then s[..|s| - 1] else s
  }

  predicate IsSignature(j: Json) {
    j.Str? && |Unended(j.s)| >= 32 && forall i :: 0 <= i < |Unended(j.s)| ==> IsHexDigit(Unended(j.s)[i])
  }

  /** What a membership test in a set does with a value: a list or an object cannot be hashed. */
  datatype Check = Valid | Invalid | Raises

  function OneOf(j: Json, names: set<string>): Check {
    if j.Arr? || j.Obj? then Raises else if j.Str? && j.s in names then Valid else Invalid
  }

  function Plain(ok: bool): Check {
    if ok then Valid else Invalid
  }

  const ELIGIBLE_OUTCOMES: set<string> := {"quota_limited", "overloaded"}
  const FAILURE_KINDS: set<string> := {
    "role_mismatch", "session_mismatch", "controller_policy_mismatch", "model_effort_mismatch",
    "candidate_mismatch", "stale_lease", "consumed_lease_reused", "cancelled_lease_reused"}

  predicate GateEvidenceValid(evidence: Fields) {
    var gate := Get(evidence, "gate_validation");
    gate.Obj? && IsHex(Get(gate.fields, "candidate_manifest_digest"))
    && IsIndex(Get(gate.fields, "candidate_index")) && Get(gate.fields, "verdict") == Str("pass")
  }

  /** Both fields of the candidate pair, compared by Python's equality. */
  predicate PairMatches(block: Fields, expected: Fields) {
    PyEq(Get(block, "candidate_manifest_digest"), Get(expected, "candidate_manifest_digest"))
    && PyEq(Get(block, "candidate_index"), Get(expected, "candidate_index"))
  }

  predicate BindingFieldsOk(block: Fields) {
    IsText(Get(block, "role")) && IsText(Get(block, "provider_session_id"))
    && IsHex(Get(block, "controller_policy_digest")) && IsHex(Get(block, "candidate_manifest_digest"))
    && IsIndex(Get(block, "candidate_index"))
  }

  predicate ExpectedOk(expected: Option<Fields>) {
    expected.Some? && expected.value.Keys == {"candidate_manifest_digest", "candidate_index"}
    && IsHex(Get(expected.value, "candidate_manifest_digest")) && IsIndex(Get(expected.value, "candidate_index"))
  }

  predicate HashesOk(hashes: Json) {
    hashes.Obj? && hashes.fields != map[]
    && forall name :: name in hashes.fields ==> name != "" && IsHex(hashes.fields[name])
  }

  function CapacityEvidence(block: Json): Check {
    if !block.Obj? then Invalid
    else
      var b := block.fields;
      var outcome := OneOf(Get(b, "controller_outcome"), ELIGIBLE_OUTCOMES);
      if !outcome.Valid? then outcome
      else
        var model, effort := Get(b, "model"), Get(b, "effort");
        Plain(
          && BindingFieldsOk(b)
          && (Get(b, "resume_mode") == Str("scheduled") || Get(b, "resume_mode") == Str("manual_signal"))
          && (model.Null? || model.Str?) && (effort.Null? || effort.Str?)
          && HashesOk(Get(b, "artifact_hashes")) && IsText(Get(b, "automation_ref")))
  }

  function EpochOf(j: Json): Option<real> {
    if j.Str? then Calendar.EpochOf(j.s) else Calendar.EpochOf("")
  }

  predicate ResetDue(b: Fields) {
    var since, now := EpochOf(Get(b, "not_before")), EpochOf(Get(b, "current_clock"));
    Get(b, "consumption_state") == Str("consumed") && since.Some? && now.Some? && since.value <= now.value
  }

  predicate SignalSigned(b: Fields) {
    Get(b, "authorized").Null? && IsText(Get(b, "signal_journal_ref"))
    && IsText(Get(b, "signer_public_key_id")) && IsSignature(Get(b, "detached_signature"))
  }

  function WakeEvidence(block: Json): Check {
    Plain(
      block.Obj? && IsText(Get(block.fields, "lease_id")) && BindingFieldsOk(block.fields)
      && ((Get(block.fields, "kind") == Str("trustworthy_reset") && ResetDue(block.fields))
          || (Get(block.fields, "kind") == Str("manual_signal") && SignalSigned(block.fields))))
  }

  function WakeFailureEvidence(block: Json): Check {
    if !block.Obj? || !IsText(Get(block.fields, "lease_id")) || !BindingFieldsOk(block.fields) then Invalid
    else OneOf(Get(block.fields, "failure_kind"), FAILURE_KINDS)
  }

  // ---- the reducer

  datatype Refusal = IllegalTransition | EvidenceMissing | ExpectedRequired | CandidateMismatch
  datatype Outcome = Moved(to: State) | Refused(why: Refusal) | TypeError

  datatype Call = Call(event: Event, evidence: Option<Fields>, expected: Option<Fields>)

  function Supplied(c: Call): Fields {
    if c.evidence.Some? then c.evidence.value else map[]
  }

  /** An event whose evidence must name the expected candidate, and never without one. */
  function Bound(check: Check, block: Json, expected: Option<Fields>, to: State): Outcome {
    match check
    case Raises => TypeError
    case Invalid => Refused(EvidenceMissing)
    case Valid =>
      if !ExpectedOk(expected) then Refused(ExpectedRequired)
      else if !block.Obj? || !PairMatches(block.fields, expected.value) then Refused(CandidateMismatch)
      else Moved(to)
  }

  /** `advance`. */
  function Advance(s: State, c: Call): Outcome {
    var to := Target(s, c.event);
    if to.None? then Refused(IllegalTransition)
    else
      var evidence := Supplied(c);
      match c.event
      case GateValidated =>
        if !GateEvidenceValid(evidence) then Refused(EvidenceMissing)
        else if c.expected.Some? && !PairMatches(evidence["gate_validation"].fields, c.expected.value) then
          Refused(CandidateMismatch)
        else Moved(to.value)
      case CapacityReserved =>
        var block := Get(evidence, "capacity_evidence");
        Bound(CapacityEvidence(block), block, c.expected, to.value)
      case CapacityWakeClaimed =>
        var block := Get(evidence, "capacity_wake_evidence");
        Bound(WakeEvidence(block), block, c.expected, to.value)
      case CapacityWakePreflightFailed =>
        var block := Get(evidence, "capacity_wake_preflight_failure");
        Bound(WakeFailureEvidence(block), block, c.expected, to.value)
      case _ => Moved(to.value)
  }

  function Next(s: State, c: Call): State {
    var out := Advance(s, c);
    if out.Moved? then out.to else s
  }

  // ---- runs

  function Run(calls: seq<Call>): State {
    if calls == [] then Pending else Next(Run(calls[..|calls| - 1]), calls[|calls| - 1])
  }

  /** Call `i` of the run takes effect, and is of this event. */
  predicate Takes(calls: seq<Call>, i: nat, e: Event)
    requires i < |calls|
  {
    calls[i].event == e && Advance(Run(calls[..i]), calls[i]).Moved?
  }

  /** A call that takes effect follows the table, and always changes the state. */
  lemma MovesFollowTheTable(s: State, c: Call)
    ensures var out := Advance(s, c);
      out.Moved? ==> Target(s, c.event) == Some(out.to) && out.to != s && s !in TERMINAL_STATES
  {
    hide CapacityEvidence, WakeEvidence, WakeFailureEvidence, GateEvidenceValid, PairMatches, ExpectedOk;
  }

  lemma RunStep(calls: seq<Call>, i: nat)
    requires i < |calls|
    ensures Run(calls[..i + 1]) == Next(Run(calls[..i]), calls[i])
  {
    assert calls[..i + 1][..i] == calls[..i];
  }

  /** No call ever leaves a terminal state. */
  lemma {:induction false} TerminalForever(calls: seq<Call>, i: nat, j: nat)
    requires i <= j <= |calls| && Run(calls[..i]) in TERMINAL_STATES
    ensures Run(calls[..j]) == Run(calls[..i])
  {
    hide Advance;
    if i < j {
      TerminalForever(calls, i, j - 1);
      RunStep(calls, j - 1);
      MovesFollowTheTable(Run(calls[..j - 1]), calls[j - 1]);
    }
  }

  /** Once a turn has completed, the unit awaits its gate or is in a terminal state. */
  lemma {:induction false} AfterTheTurn(calls: seq<Call>, i: nat, j: nat)
    requires i < j <= |calls| && Takes(calls, i, TurnCompleted)
    ensures Run(calls[..j]) == AwaitingGate || Run(calls[..j]) in TERMINAL_STATES
  {
    hide Advance;
    RunStep(calls, j - 1);
    MovesFollowTheTable(Run(calls[..j - 1]), calls[j - 1]);
    if i < j - 1 { AfterTheTurn(calls, i, j - 1); }
  }

  /** In every run at most one turn completes. */
  lemma OneTurn(calls: seq<Call>, i: nat, j: nat)
    requires i < |calls| && j < |calls| && Takes(calls, i, TurnCompleted) && Takes(calls, j, TurnCompleted)
    ensures i == j
  {
    hide Advance;
    MovesFollowTheTable(Run(calls[..i]), calls[i]);
    MovesFollowTheTable(Run(calls[..j]), calls[j]);
    if i < j { AfterTheTurn(calls, i, j); }
    if j < i { AfterTheTurn(calls, j, i); }
  }

  /** The run reaches Running, Blocked or AwaitingGate only after a preflight passed since `i`. */
  ghost predicate PassedBetween(calls: seq<Call>, i: nat, j: nat)
    requires j <= |calls|
  {
    exists k :: i <= k < j && Takes(calls, k, PreflightPassed)
  }

  const BEFORE_PREFLIGHT: set<State> := {Pending, Preflighting, AwaitingCapacity, NeedsAuthority}

  /** From a state no preflight has passed in, one is needed to get anywhere but an early end. */
  lemma {:induction false} NeedsPreflight(calls: seq<Call>, i: nat, j: nat)
    requires i <= j <= |calls| && Run(calls[..i]) in BEFORE_PREFLIGHT
    ensures PassedBetween(calls, i, j)
            || Run(calls[..j]) in BEFORE_PREFLIGHT + {RejectedPreflight, CancelledState, AbortedState}
  {
    hide Advance;
    if i < j {
      NeedsPreflight(calls, i, j - 1);
      RunStep(calls, j - 1);
      MovesFollowTheTable(Run(calls[..j - 1]), calls[j - 1]);
      if calls[j - 1].event == PreflightPassed && !PassedBetween(calls, i, j - 1) {
        assert Takes(calls, j - 1, PreflightPassed) || Run(calls[..j]) == Run(calls[..j - 1]);
      }
    }
  }

  /** After a capacity wake no turn completes until a new preflight passes. */
  lemma WakeNeedsPreflight(calls: seq<Call>, i: nat, j: nat)
    requires i < j < |calls| && Takes(calls, i, CapacityWakeClaimed) && Takes(calls, j, TurnCompleted)
    ensures PassedBetween(calls, i + 1, j)
  {
    hide Advance;
    RunStep(calls, i);
    MovesFollowTheTable(Run(calls[..i]), calls[i]);
    MovesFollowTheTable(Run(calls[..j]), calls[j]);
    NeedsPreflight(calls, i + 1, j);
  }

  /** Gate evidence that passes, naming a candidate; and the expected one when one is given. */
  predicate GatePassed(c: Call) {
    && c.event == GateValidated && c.evidence.Some? && "gate_validation" in c.evidence.value
    && c.evidence.value["gate_validation"].Obj?
    && var gate := c.evidence.value["gate_validation"].fields;
    && Get(gate, "verdict") == Str("pass") && IsHex(Get(gate, "candidate_manifest_digest"))
    && IsIndex(Get(gate, "candidate_index"))
    && (c.expected.Some? ==>
          && Get(c.expected.value, "candidate_manifest_digest") == Get(gate, "candidate_manifest_digest")
          && Numeric(Get(c.expected.value, "candidate_index")) == Get(gate, "candidate_index"))
  }

  /** A unit is completed exactly by a gate that passed while it awaited one. */
  lemma CompletesExactly(s: State, c: Call)
    ensures Advance(s, c) == Moved(Completed) <==> s == AwaitingGate && GatePassed(c)
  {
    hide CapacityEvidence, WakeEvidence, WakeFailureEvidence, ExpectedOk, Numeric, PyEq;
    if GateEvidenceValid(Supplied(c)) && c.expected.Some? {
      GatePairExactly(Supplied(c)["gate_validation"].fields, c.expected.value);
    }
  }

  lemma GatePairExactly(gate: Fields, expected: Fields)
    requires IsHex(Get(gate, "candidate_manifest_digest")) && IsIndex(Get(gate, "candidate_index"))
    ensures PairMatches(gate, expected) <==>
            && Get(expected, "candidate_manifest_digest") == Get(gate, "candidate_manifest_digest")
            && Numeric(Get(expected, "candidate_index")) == Get(gate, "candidate_index")
  {
    EqualUpToNumbers(Get(gate, "candidate_manifest_digest"), Get(expected, "candidate_manifest_digest"));
    EqualUpToNumbers(Get(gate, "candidate_index"), Get(expected, "candidate_index"));
    OnlyStringsBecomeStrings(Get(expected, "candidate_manifest_digest"));
  }

  lemma OnlyStringsBecomeStrings(j: Json)
    ensures Numeric(j).Str? ==> Numeric(j) == j
  {
  }

  /** A completed unit passed a preflight, then completed its one turn, then passed its gate,
      in that order, and nothing took effect after. */
  lemma CompletedHistory(calls: seq<Call>) returns (p: nat, t: nat, g: nat)
    requires Run(calls) == Completed
    ensures p < t < g < |calls|
    ensures Takes(calls, p, PreflightPassed) && Takes(calls, t, TurnCompleted) && Takes(calls, g, GateValidated)
    ensures GatePassed(calls[g])
    ensures forall n :: g < n < |calls| ==> !Advance(Run(calls[..n]), calls[n]).Moved?
  {
    hide Advance, GatePassed;
    assert calls[..|calls|] == calls && calls[..0] == [];
    g := LastMove(calls, Completed, |calls|);
    MovesFollowTheTable(Run(calls[..g]), calls[g]);
    CompletesExactly(Run(calls[..g]), calls[g]);
    t := LastMove(calls, AwaitingGate, g);
    MovesFollowTheTable(Run(calls[..t]), calls[t]);
    NeedsPreflight(calls, 0, t);
    p :| 0 <= p < t && Takes(calls, p, PreflightPassed);
    NothingAfter(calls, g);
  }

  lemma NothingAfter(calls: seq<Call>, g: nat)
    requires g < |calls| && Run(calls[..g + 1]) in TERMINAL_STATES
    ensures forall n :: g < n < |calls| ==> !Advance(Run(calls[..n]), calls[n]).Moved?
  {
    hide Advance;
    forall n | g < n < |calls| ensures !Advance(Run(calls[..n]), calls[n]).Moved? {
      TerminalForever(calls, g + 1, n);
      MovesFollowTheTable(Run(calls[..n]), calls[n]);
    }
  }

  /** The call that entered the state the run is in after `n` calls. */
  lemma {:induction false} LastMove(calls: seq<Call>, s: State, n: nat) returns (m: nat)
    requires n <= |calls| && Run(calls[..n]) == s != Pending
    ensures m < n && Advance(Run(calls[..m]), calls[m]) == Moved(s) && Run(calls[..m + 1]) == s
  {
    hide Advance;
    assert calls[..0] == [];
    RunStep(calls, n - 1);
    if Advance(Run(calls[..n - 1]), calls[n - 1]).Moved? {
      m := n - 1;
    } else {
      m := LastMove(calls, s, n - 1);
    }
  }

  // ---- where the code and its documentation part

  predicate Unhashable(j: Json) {
    j.Arr? || j.Obj?
  }

  /** The documentation says a well-formed call never raises. It raises exactly when the value
      looked up in a closed set is a list or an object, and the checks before it pass. */
  lemma RaisesExactly(s: State, c: Call)
    ensures Advance(s, c) == TypeError <==>
            var reserved := Get(Supplied(c), "capacity_evidence");
            var failure := Get(Supplied(c), "capacity_wake_preflight_failure");
            || (c.event == CapacityReserved && s in {Preflighting, Running} && reserved.Obj?
                && Unhashable(Get(reserved.fields, "controller_outcome")))
            || (c.event == CapacityWakePreflightFailed && s == Preflighting && failure.Obj?
                && IsText(Get(failure.fields, "lease_id")) && BindingFieldsOk(failure.fields)
                && Unhashable(Get(failure.fields, "failure_kind")))
  {
    hide BindingFieldsOk, ExpectedOk, PairMatches, IsText, IsHex, IsIndex, HashesOk, GateEvidenceValid, ResetDue,
         SignalSigned;
  }

  /** One such call: the controller outcome of a reservation is a list. */
  lemma ListOutcomeRaises()
    ensures var block := Obj(map["controller_outcome" := Arr([])]);
      Advance(Running, Call(CapacityReserved, Some(map["capacity_evidence" := block]), None)) == TypeError
  {
    var block := Obj(map["controller_outcome" := Arr([])]);
    var c := Call(CapacityReserved, Some(map["capacity_evidence" := block]), None);
    assert Get(Supplied(c), "capacity_evidence") == block;
    RaisesExactly(Running, c);
  }

  /** A digest is documented as exactly 64 hex characters; the pattern's `$` lets one newline
      follow, so it is read as documented exactly when it does not end in one. */
  lemma DigestAsDocumented(digest: string)
    ensures IsHex(Str(digest)) ==> (IsHex64(digest) <==> digest[|digest| - 1] != '\n')
  {
  }

  /** And a unit is completed by gate evidence whose digest ends in a newline. */
  lemma NewlineDigestCompletes() returns (c: Call)
    ensures GatePassed(c) && Advance(AwaitingGate, c) == Moved(Completed)
    ensures !IsHex64(Get(c.evidence.value["gate_validation"].fields, "candidate_manifest_digest").s)
  {
    var digest := seq(64, _ => '0') + "\n";
    assert digest[..64] == seq(64, _ => '0');
    var gate := map["candidate_manifest_digest" := Str(digest), "candidate_index" := Null, "verdict" := Str("pass")];
    c := Call(GateValidated, Some(map["gate_validation" := Obj(gate)]), None);
    assert Get(gate, "verdict") == Str("pass") && Get(gate, "candidate_index") == Null;
    assert Get(gate, "candidate_manifest_digest") == Str(digest) && IsHex(Str(digest));
    CompletesExactly(AwaitingGate, c);
  }

  /** No call before `n` takes effect as this event. */
  ghost predicate NoneTaken(calls: seq<Call>, n: nat, e: Event)
    requires n <= |calls|
  {
    forall i :: 0 <= i < n ==> !Takes(calls, i, e)
  }

  /** The unit awaits capacity that no call has reserved. */
  ghost predicate AwaitsUnreserved(calls: seq<Call>, n: nat) {
    n <= |calls| && Run(calls[..n]) == AwaitingCapacity && NoneTaken(calls, n, CapacityReserved)
  }

  /** A wake failure is taken though no wake was claimed before it. */
  ghost predicate FailsUnclaimed(calls: seq<Call>, k: nat) {
    k < |calls| && Takes(calls, k, CapacityWakePreflightFailed) && NoneTaken(calls, k, CapacityWakeClaimed)
  }

  /** After a reservation the unit waits, or is stopped, until a wake is claimed. */
  lemma {:induction false} ReservedWaits(calls: seq<Call>, i: nat, j: nat)
    requires i < j <= |calls| && Takes(calls, i, CapacityReserved) && NoneTaken(calls, j, CapacityWakeClaimed)
    ensures Run(calls[..j]) in {AwaitingCapacity, CancelledState, AbortedState}
  {
    hide Advance;
    RunStep(calls, j - 1);
    MovesFollowTheTable(Run(calls[..j - 1]), calls[j - 1]);
    if i < j - 1 {
      ReservedWaits(calls, i, j - 1);
      assert !Takes(calls, j - 1, CapacityWakeClaimed);
    }
  }

  /** From a wait without a reservation back to a wake failure before any wake. */
  lemma {:induction false} UnreservedBack(calls: seq<Call>, n: nat) returns (k: nat)
    requires AwaitsUnreserved(calls, n)
    ensures FailsUnclaimed(calls, k) && k < n
    decreases n
  {
    hide Advance;
    k := LastMove(calls, AwaitingCapacity, n);
    MovesFollowTheTable(Run(calls[..k]), calls[k]);
    assert !Takes(calls, k, CapacityReserved);
    if j :| 0 <= j < k && Takes(calls, j, CapacityWakeClaimed) {
      MovesFollowTheTable(Run(calls[..j]), calls[j]);
      k := UnreservedBack(calls, j);
    }
  }

  /** In every run, capacity is awaited without ever having been reserved exactly when a wake
      failure is taken before any wake is claimed: the reducer does not ask whose wake failed. */
  lemma UnreservedExactly(calls: seq<Call>)
    ensures (exists n :: AwaitsUnreserved(calls, n)) <==> exists k :: FailsUnclaimed(calls, k)
  {
    hide Advance;
    if n :| AwaitsUnreserved(calls, n) {
      var k := UnreservedBack(calls, n);
    }
    if k: nat :| FailsUnclaimed(calls, k) {
      MovesFollowTheTable(Run(calls[..k]), calls[k]);
      RunStep(calls, k);
      forall i | 0 <= i < k + 1 ensures !Takes(calls, i, CapacityReserved) {
        if i < k && Takes(calls, i, CapacityReserved) { ReservedWaits(calls, i, k); }
      }
      assert AwaitsUnreserved(calls, k + 1);
    }
  }

  /** A wake failure is meant for a wake; the reducer takes it in the first preflight as well, so
      a unit can await capacity that was never reserved. */
  lemma CapacityWithoutReservation() returns (calls: seq<Call>)
    ensures Run(calls) == AwaitingCapacity
    ensures forall i :: 0 <= i < |calls| ==> calls[i].event != CapacityReserved && calls[i].event != CapacityWakeClaimed
  {
    var start := Call(PreflightStarted, None, None);
    var evidence := map["capacity_wake_preflight_failure" := Obj(SampleFailure())];
    var fail := Call(CapacityWakePreflightFailed, Some(evidence), Some(SampleExpected()));
    SampleIsValid();
    assert Get(evidence, "capacity_wake_preflight_failure") == Obj(SampleFailure());
    hide WakeFailureEvidence, SampleFailure, SampleExpected, ExpectedOk, PairMatches, GateEvidenceValid,
         WakeEvidence, CapacityEvidence;
    assert Advance(Preflighting, fail) == Moved(AwaitingCapacity);
    calls := [start, fail];
    assert calls[..1] == [start] && [start][..0] == [];
    assert Run([start]) == Preflighting;
  }

  function SampleHex(): Json {
    Str(seq(64, _ => '0'))
  }

  function SampleFailure(): Fields {
    map["lease_id" := Str("l"), "role" := Str("r"), "provider_session_id" := Str("p"),
        "controller_policy_digest" := SampleHex(), "candidate_manifest_digest" := SampleHex(),
        "failure_kind" := Str("stale_lease")]
  }

  function SampleExpected(): Fields {
    map["candidate_manifest_digest" := SampleHex(), "candidate_index" := Null]
  }

  lemma SampleIsValid()
    ensures WakeFailureEvidence(Obj(SampleFailure())) == Valid && ExpectedOk(Some(SampleExpected()))
    ensures PairMatches(SampleFailure(), SampleExpected())
  {
    assert IsHex(SampleHex());
    assert Get(SampleFailure(), "failure_kind") == Str("stale_lease");
    assert Get(SampleFailure(), "candidate_index") == Null == Get(SampleExpected(), "candidate_index");
    assert Get(SampleFailure(), "candidate_manifest_digest") == SampleHex() ==
            Get(SampleExpected(), "candidate_manifest_digest");
  }

  // ---- checkpoints

  /** `checkpoint_receipt_to_gate_evidence`. */
  function GateEvidenceOf(receipt: Json, index: Json): Option<Fields> {
    if !receipt.Obj? || Get(receipt.fields, "terminal") != Bool(true)
       || Get(receipt.fields, "verdict") != Str("accepted")
       || !IsText(Get(receipt.fields, "candidate_digest")) then None
    else
      Some(map["gate_validation" := Obj(map[
        "candidate_manifest_digest" := Get(receipt.fields, "candidate_digest"),
        "candidate_index" := index, "verdict" := Str("pass")])])
  }

  /** `checkpoint_blocks_advance`. */
  predicate CheckpointBlocks(status: string, receipt: Json) {
    status != "terminal" || !receipt.Obj? || Get(receipt.fields, "verdict") != Str("accepted")
  }

  /** A checkpoint receipt completes a unit awaiting its gate exactly when it is terminal and
      accepted and names, by digest and index, the candidate expected of it; and a checkpoint
      with such a receipt does not block. */
  lemma CheckpointCompletesExactly(receipt: Json, digest: string, index: Json)
    requires IsHex(Str(digest)) && IsIndex(index)
    ensures var expected := map["candidate_manifest_digest" := Str(digest), "candidate_index" := index];
      Advance(AwaitingGate, Call(GateValidated, GateEvidenceOf(receipt, index), Some(expected))) ==
          Moved(Completed) <==>
      && receipt.Obj? && Get(receipt.fields, "terminal") == Bool(true)
      && Get(receipt.fields, "verdict") == Str("accepted") && Get(receipt.fields, "candidate_digest") == Str(digest)
    ensures var expected := map["candidate_manifest_digest" := Str(digest), "candidate_index" := index];
      Advance(AwaitingGate, Call(GateValidated, GateEvidenceOf(receipt, index), Some(expected))) == Moved(Completed) ==>
        !CheckpointBlocks("terminal", receipt)
  {
  }
}
