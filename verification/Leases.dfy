/**
 Pause leases: a bounded count of failed wake attempts that replacement, expiry and new
 episodes must carry on, and a claim that only one claimant can ever win.
 Times are epoch seconds, already read by `Calendar.EpochOf`.
 */
module Leases {
  import opened Text

  const FAILED_WAKE_ATTEMPT_CEILING := 5
  const MAX_HOPS: nat := 64

  datatype Binding = Binding(role: string, providerSession: string, policyDigest: string, candidateDigest: string)

  datatype Mode = Scheduled(notBefore: real) | ManualSignal

  datatype Consumption = Unclaimed | Claimed | Consumed | Cancelled | Replaced | Expired

  datatype Lease = Lease(
    binding: Binding, mode: Mode, issuedAt: real, automationRef: string,
    state: Consumption, attempts: nat, claimant: Option<string>, replacedBy: Option<string>)

  /** The lease files, and the index that names a binding's current lease. */
  datatype Store = Store(leases: map<string, Lease>, index: map<Binding, string>)

  // ---- the clock

  /** `resolve_effective_now_epoch`: a reading too far from the trusted reference is clamped. */
  function EffectiveNow(now: real, reference: Option<real>, maxSkew: real): (real, bool) {
    if reference.None? then (now, false)
    else if now - reference.value > maxSkew then (reference.value + maxSkew, true)
    else if now - reference.value < -maxSkew then (reference.value - maxSkew, true)
    else (now, false)
  }

  datatype Clock = Clock(now: real, reference: Option<real>, maxSkew: real)

  function Now(c: Clock): real {
    EffectiveNow(c.now, c.reference, c.maxSkew).0
  }

  /** The effective clock is never further than the allowed skew from the reference, and is the
      raw reading exactly when no skew is detected. */
  lemma ClockIsClamped(c: Clock)
    requires c.reference.Some? && c.maxSkew >= 0.0
    ensures c.reference.value - c.maxSkew <= Now(c) <= c.reference.value + c.maxSkew
    ensures !EffectiveNow(c.now, c.reference, c.maxSkew).1 <==> Now(c) == c.now
  {
  }

  /** The raw reading up to the allowed skew on either side of the reference, and the nearer bound
      beyond it. */
  lemma ClockExactly(c: Clock)
    requires c.maxSkew >= 0.0
    ensures Now(c) ==
            if c.reference.None? then c.now
            else if c.now < c.reference.value - c.maxSkew then c.reference.value - c.maxSkew
            else if c.reference.value + c.maxSkew < c.now then c.reference.value + c.maxSkew
            else c.now
  {
  }

  // ---- finding a binding's current lease

  /** Follow `replaced_by` from a lease, reading at most `hops` records. */
  function Follow(s: Store, id: string, hops: nat): Option<(string, Lease)>
    requires hops > 0
    decreases hops
  {
    if id !in s.leases then None
    else
      var l := s.leases[id];
      if l.state != Replaced || l.replacedBy.None? || hops == 1 then Some((id, l))
      else Follow(s, l.replacedBy.value, hops - 1)
  }

  /** `resolve_current_lease_for_binding`. */
  function Resolve(s: Store, b: Binding): Option<(string, Lease)> {
    if b in s.index then Follow(s, s.index[b], MAX_HOPS) else None
  }

  /** The hop loop. */
  method ResolveCurrentLease(s: Store, b: Binding) returns (res: Option<(string, Lease)>)
    ensures res == Resolve(s, b)
  {
    if b !in s.index { return None; }
    var id := s.index[b];
    res := None;
    for hop := 0 to MAX_HOPS
      invariant hop < MAX_HOPS ==> Follow(s, id, MAX_HOPS - hop) == Resolve(s, b)
      invariant hop == MAX_HOPS ==> res == Resolve(s, b)
    {
      if id !in s.leases { return None; }
      var l := s.leases[id];
      res := Some((id, l));
      if l.state != Replaced || l.replacedBy.None? { return; }
      id := l.replacedBy.value;
    }
  }

  // ---- the decisions

  datatype Refusal =
    | BadArgument | NotFound | AutomationRefMismatch | DifferentOwner | NotClaimable
    | ManualSignalNeedsEvidence | Early | EvidenceInvalid | WrongState | AtCeiling
    | CrossBinding | IdCollision | BindingAlreadyLive | BindingCeilingExhausted | IndexCorrupt | NotYetExpired

  datatype Outcome = Done | Crashed | Won(claimant: string) | AlreadyHeld(claimant: string) | Refused(why: Refusal)

  /** One call. `seen` is what an unlocked read before the locked mutation returned; `written`
      is how many of a call's durable writes complete before a crash. */
  datatype Op =
    | Claim(id: string, claimant: string, automationRef: string, clock: Clock, seen: Store)
    | OverrideClaim(id: string, claimant: string, automationRef: string, verified: bool, seen: Store)
    | Cancel(id: string, automationRef: string)
    | Consume(id: string, automationRef: string)
    | Replace(id: string, newId: string, lease: Lease, automationRef: string, written: nat)
    | NewEpisode(newId: string, lease: Lease, seen: Store, written: nat)
    | Reclaim(id: string, automationRef: string, clock: Clock, grace: real, seen: Store)
    | RecordFailure(id: string, automationRef: string)

  function Put(s: Store, id: string, l: Lease): Store {
    s.(leases := s.leases[id := l])
  }

  /** `claim_pause_lease` under its lock, and the race resolution after losing it. */
  function ClaimLocked(s: Store, id: string, claimant: string): (Outcome, Store) {
    if id !in s.leases then (Refused(NotFound), s)
    else if s.leases[id].state == Unclaimed then
      (Won(claimant), Put(s, id, s.leases[id].(state := Claimed, claimant := Some(claimant))))
    else if s.leases[id].state == Claimed && s.leases[id].claimant == Some(claimant) then (AlreadyHeld(claimant), s)
    else (Refused(DifferentOwner), s)
  }

  /** Where a lease's grace period starts. */
  function Anchor(l: Lease): real {
    if l.mode.Scheduled? then l.mode.notBefore else l.issuedAt
  }

  /** `mark_pause_lease_expired` under its lock: unlike the scheduler's own check, it takes a
      claimed lease as well. */
  function ExpireLocked(s: Store, id: string): (Outcome, Store) {
    if id !in s.leases then (Refused(NotFound), s)
    else if s.leases[id].state !in {Unclaimed, Claimed} then (Refused(WrongState), s)
    else (Done, Put(s, id, s.leases[id].(state := Expired)))
  }

  /** What both claim paths check on the unlocked read; None when the lease looks claimable. */
  function ClaimPrecheck(seen: Store, id: string, claimant: string, automationRef: string): Option<Outcome> {
    if claimant == "" then Some(Refused(BadArgument))
    else if id !in seen.leases then Some(Refused(NotFound))
    else
      var l := seen.leases[id];
      if l.automationRef != automationRef then Some(Refused(AutomationRefMismatch))
      else if l.state == Claimed then
        Some(if l.claimant == Some(claimant) then AlreadyHeld(claimant) else Refused(DifferentOwner))
      else if l.state != Unclaimed then Some(Refused(NotClaimable))
      else None
  }

  /** A mutation of one lease in place, guarded by existence, automation reference and state. */
  function Guard(s: Store, id: string, automationRef: string, states: set<Consumption>): Option<Refusal> {
    if id !in s.leases then Some(NotFound)
    else if s.leases[id].automationRef != automationRef then Some(AutomationRefMismatch)
    else if s.leases[id].state !in states then Some(WrongState)
    else None
  }

  predicate IsFresh(l: Lease) {
    l.state == Unclaimed && l.attempts == 0 && l.claimant.None? && l.replacedBy.None?
  }

  function Max(a: nat, b: nat): nat {
    if a > b then a else b
  }

  const LIVE_OR_EXPIRED: set<Consumption> := {Unclaimed, Claimed, Expired}
  const ANY_STATE: set<Consumption> := {Unclaimed, Claimed, Consumed, Cancelled, Replaced, Expired}

  /** Why a replacement is refused, in the order the checks run. */
  function ReplaceRefusal(s: Store, id: string, newId: string, lease: Lease, automationRef: string): Option<Refusal> {
    if Guard(s, id, automationRef, ANY_STATE).Some? then Guard(s, id, automationRef, ANY_STATE)
    else if !IsFresh(lease) || newId == id then Some(BadArgument)
    else if s.leases[id].state !in LIVE_OR_EXPIRED then Some(WrongState)
    else if lease.binding != s.leases[id].binding then Some(CrossBinding)
    else if newId in s.leases then Some(IdCollision)
    else None
  }

  /** The durable writes of a replacement: the new lease with the carried count, then the old
      one, then the index. */
  function ReplaceWrites(s: Store, id: string, newId: string, lease: Lease, written: nat): Store
    requires id in s.leases
  {
    var before := s.leases[id];
    var one := Put(s, newId, lease.(attempts := Max(before.attempts, lease.attempts)));
    var two := Put(one, id, before.(state := Replaced, replacedBy := Some(newId)));
    if written == 0 then s else if written == 1 then one else if written == 2 then two
    else two.(index := two.index[lease.binding := newId])
  }

  /** `replace` with `replace_pause_lease`. */
  function DoReplace(
    s: Store, id: string, newId: string, lease: Lease, automationRef: string, written: nat): (Outcome, Store) {
    match ReplaceRefusal(s, id, newId, lease, automationRef)
    case Some(why) => (Refused(why), s)
    case None => (if written < 3 then Crashed else Done, ReplaceWrites(s, id, newId, lease, written))
  }

  /** Why a new episode is refused: an advisory ceiling check on an unlocked read, then the
      locked check that the binding has no live lease. */
  function EpisodeRefusal(s: Store, newId: string, lease: Lease, seen: Store): Option<Refusal> {
    var prior, current := Resolve(seen, lease.binding), Resolve(s, lease.binding);
    if prior.Some? && prior.value.1.state in {Consumed, Cancelled, Expired}
       && prior.value.1.attempts >= FAILED_WAKE_ATTEMPT_CEILING then Some(BindingCeilingExhausted)
    else if !IsFresh(lease) then Some(BadArgument)
    else if lease.binding in s.index && (current.None? || current.value.1.state == Replaced) then Some(IndexCorrupt)
    else if current.Some? && current.value.1.state in {Unclaimed, Claimed} then Some(BindingAlreadyLive)
    else if newId in s.leases then Some(IdCollision)
    else None
  }

  function EpisodeWrites(s: Store, newId: string, lease: Lease, written: nat): Store {
    var one := Put(s, newId, lease);
    if written == 0 then s else if written == 1 then one else one.(index := one.index[lease.binding := newId])
  }

  /** `start_new_episode` with `create_pause_lease`. */
  function DoNewEpisode(s: Store, newId: string, lease: Lease, seen: Store, written: nat): (Outcome, Store) {
    match EpisodeRefusal(s, newId, lease, seen)
    case Some(why) => (Refused(why), s)
    case None => (if written < 2 then Crashed else Done, EpisodeWrites(s, newId, lease, written))
  }

  /** One call: its outcome and the store after it. */
  function Step(s: Store, op: Op): (Outcome, Store) {
    match op
    case Claim(id, claimant, automationRef, clock, seen) =>
      (match ClaimPrecheck(seen, id, claimant, automationRef)
       case Some(out) => (out, s)
       case None =>
         if seen.leases[id].mode.ManualSignal? then (Refused(ManualSignalNeedsEvidence), s)
         else if Now(clock) < seen.leases[id].mode.notBefore then (Refused(Early), s)
         else ClaimLocked(s, id, claimant))
    case OverrideClaim(id, claimant, automationRef, verified, seen) =>
      (match ClaimPrecheck(seen, id, claimant, automationRef)
       case Some(out) => (if out.AlreadyHeld? && !verified then Refused(EvidenceInvalid) else out, s)
       case None => if !verified then (Refused(EvidenceInvalid), s) else ClaimLocked(s, id, claimant))
    case Cancel(id, automationRef) =>
      (match Guard(s, id, automationRef, {Unclaimed, Claimed})
       case Some(why) => (Refused(why), s)
       case None => (Done, Put(s, id, s.leases[id].(state := Cancelled))))
    case Consume(id, automationRef) =>
      (match Guard(s, id, automationRef, {Claimed, Consumed})
       case Some(why) => (Refused(why), s)
       case None => (Done, Put(s, id, s.leases[id].(state := Consumed))))
    case Replace(id, newId, lease, automationRef, written) => DoReplace(s, id, newId, lease, automationRef, written)
    case NewEpisode(newId, lease, seen, written) => DoNewEpisode(s, newId, lease, seen, written)
    case Reclaim(id, automationRef, clock, grace, seen) =>
      if grace < 0.0 then (Refused(BadArgument), s)
      else
      (match Guard(seen, id, automationRef, {Unclaimed})
       case Some(why) => (Refused(why), s)
       case None =>
         if Now(clock) < Anchor(seen.leases[id]) + grace then (Refused(NotYetExpired), s) else ExpireLocked(s, id))
    case RecordFailure(id, automationRef) =>
      (match Guard(s, id, automationRef, {Unclaimed})
       case Some(why) => (Refused(why), s)
       case None =>
         if s.leases[id].attempts >= FAILED_WAKE_ATTEMPT_CEILING then (Refused(AtCeiling), s)
         else (Done, Put(s, id, s.leases[id].(attempts := s.leases[id].attempts + 1))))
  }

  // ---- what every store of a run satisfies

  ghost predicate WellStored(s: Store) {
    && (forall id :: id in s.leases ==> s.leases[id].attempts <= FAILED_WAKE_ATTEMPT_CEILING)
    && (forall id :: id in s.leases && s.leases[id].claimant.Some? ==> s.leases[id].state != Unclaimed)
    && (forall id :: id in s.leases ==>
          if s.leases[id].state == Replaced then
            s.leases[id].replacedBy.Some? && s.leases[id].replacedBy.value in s.leases
            && s.leases[s.leases[id].replacedBy.value].binding == s.leases[id].binding
          else s.leases[id].replacedBy.None?)
    && (forall b :: b in s.index ==> s.index[b] in s.leases && s.leases[s.index[b]].binding == b)
  }

  /** Nothing the later steps of a run do takes back a lease, a claimant, or an attempt. */
  ghost predicate Later(s: Store, t: Store) {
    forall id :: id in s.leases ==>
      id in t.leases && t.leases[id].binding == s.leases[id].binding
      && t.leases[id].attempts >= s.leases[id].attempts
      && (s.leases[id].claimant.Some? ==> t.leases[id].claimant == s.leases[id].claimant)
      && (s.leases[id].state == Replaced ==> t.leases[id] == s.leases[id])
  }

  /** A change of one lease in place that later steps may make. */
  predicate InPlace(l: Lease, m: Lease) {
    m.binding == l.binding && m.replacedBy == l.replacedBy && l.state != Replaced && m.state != Replaced
    && l.attempts <= m.attempts <= FAILED_WAKE_ATTEMPT_CEILING
    && (l.claimant.Some? ==> m.claimant == l.claimant) && (m.claimant.Some? ==> m.state != Unclaimed)
  }

  /** Every call either changes nothing, changes one lease in place, replaces one, or adds one. */
  lemma StepShape(s: Store, op: Op)
    requires WellStored(s)
    ensures var t := Step(s, op).1;
      if op.Replace? then
        t == if ReplaceRefusal(s, op.id, op.newId, op.lease, op.automationRef).None?
             then ReplaceWrites(s, op.id, op.newId, op.lease, op.written) else s
      else if op.NewEpisode? then
        t == if EpisodeRefusal(s, op.newId, op.lease, op.seen).None?
             then EpisodeWrites(s, op.newId, op.lease, op.written) else s
      else t == s || exists id, m :: id in s.leases && InPlace(s.leases[id], m) && t == Put(s, id, m)
  {
    hide ReplaceRefusal, EpisodeRefusal, ReplaceWrites, EpisodeWrites, Now, ClaimPrecheck;
    var t := Step(s, op).1;
    if t != s && !op.Replace? && !op.NewEpisode? {
      assert op.id in s.leases;
      assert InPlace(s.leases[op.id], t.leases[op.id]) && t == Put(s, op.id, t.leases[op.id]);
    }
  }

  lemma PutKeepsStore(s: Store, id: string, m: Lease)
    requires WellStored(s) && id in s.leases && InPlace(s.leases[id], m)
    ensures WellStored(Put(s, id, m)) && Later(s, Put(s, id, m))
  {
  }

  lemma ReplaceKeepsStore(s: Store, id: string, newId: string, lease: Lease, automationRef: string, written: nat)
    requires WellStored(s) && ReplaceRefusal(s, id, newId, lease, automationRef).None?
    ensures WellStored(ReplaceWrites(s, id, newId, lease, written))
    ensures Later(s, ReplaceWrites(s, id, newId, lease, written))
  {
    CarriedIsBounded(s, id, lease);
    hide WellStored, Later;
    var n := lease.(attempts := Max(s.leases[id].attempts, lease.attempts));
    var one := Put(s, newId, n);
    LaterItself(s);
    AddKeepsStore(s, newId, n);
    if written > 1 {
      var two := Put(one, id, s.leases[id].(state := Replaced, replacedBy := Some(newId)));
      LinkKeepsStore(one, id, newId);
      LaterTransitive(s, one, two);
      if written > 2 {
        IndexKeepsStore(two, newId);
        LaterTransitive(s, two, two.(index := two.index[lease.binding := newId]));
      }
    }
  }

  lemma CarriedIsBounded(s: Store, id: string, lease: Lease)
    requires WellStored(s) && id in s.leases && lease.attempts == 0
    ensures Max(s.leases[id].attempts, lease.attempts) <= FAILED_WAKE_ATTEMPT_CEILING
  {
  }

  /** A fresh lease under a fresh identifier. */
  lemma AddKeepsStore(s: Store, newId: string, n: Lease)
    requires WellStored(s) && newId !in s.leases
    requires n.state == Unclaimed && n.claimant.None? && n.replacedBy.None? && n.attempts <= FAILED_WAKE_ATTEMPT_CEILING
    ensures WellStored(Put(s, newId, n)) && Later(s, Put(s, newId, n))
  {
  }

  /** A lease that points at another of the same binding. */
  lemma LinkKeepsStore(s: Store, id: string, newId: string)
    requires WellStored(s) && id in s.leases && newId in s.leases && id != newId
    requires s.leases[id].state != Replaced && s.leases[id].binding == s.leases[newId].binding
    ensures var t := Put(s, id, s.leases[id].(state := Replaced, replacedBy := Some(newId)));
      WellStored(t) && Later(s, t)
  {
  }

  /** The index moved to a stored lease. */
  lemma IndexKeepsStore(s: Store, newId: string)
    requires WellStored(s) && newId in s.leases
    ensures var t := s.(index := s.index[s.leases[newId].binding := newId]);
      WellStored(t) && Later(s, t)
  {
  }

  lemma EpisodeKeepsStore(s: Store, newId: string, lease: Lease, seen: Store, written: nat)
    requires WellStored(s) && EpisodeRefusal(s, newId, lease, seen).None?
    ensures WellStored(EpisodeWrites(s, newId, lease, written)) && Later(s, EpisodeWrites(s, newId, lease, written))
  {
    hide Resolve;
  }

  /** The store invariant survives every call, and nothing already recorded is taken back. */
  lemma StepKeepsStore(s: Store, op: Op)
    requires WellStored(s)
    ensures WellStored(Step(s, op).1)
    ensures Later(s, Step(s, op).1)
  {
    hide Step, WellStored, InPlace, ReplaceRefusal, EpisodeRefusal, ReplaceWrites, EpisodeWrites, Put;
    StepShape(s, op);
    var t := Step(s, op).1;
    LaterItself(s);
    if op.Replace? {
      if ReplaceRefusal(s, op.id, op.newId, op.lease, op.automationRef).None? {
        ReplaceKeepsStore(s, op.id, op.newId, op.lease, op.automationRef, op.written);
      }
    } else if op.NewEpisode? {
      if EpisodeRefusal(s, op.newId, op.lease, op.seen).None? {
        EpisodeKeepsStore(s, op.newId, op.lease, op.seen, op.written);
      }
    } else if t != s {
      var id, m :| id in s.leases && InPlace(s.leases[id], m) && t == Put(s, id, m);
      PutKeepsStore(s, id, m);
    }
  }

  /** A successful claim leaves its claimant on the lease. */
  lemma ClaimIsRecorded(s: Store, op: Op)
    requires WellStored(s)
    requires op.Claim? || op.OverrideClaim? ==> Later(op.seen, s)
    ensures var (out, t) := Step(s, op);
      out.Won? || out.AlreadyHeld? ==>
        (op.Claim? || op.OverrideClaim?) && out.claimant == op.claimant
        && op.id in t.leases && t.leases[op.id].claimant == Some(out.claimant)
    ensures Step(s, op).0.Won? ==> op.id in s.leases && s.leases[op.id].state == Unclaimed
    ensures op.Claim? && Step(s, op).0.Won? ==>
              op.id in op.seen.leases && op.seen.leases[op.id].mode.Scheduled?
              && Now(op.clock) >= op.seen.leases[op.id].mode.notBefore
  {
    hide Resolve, Now;
  }

  // ---- an exhausted binding

  /** The binding's current lease has used up its wake attempts. */
  ghost predicate Exhausted(s: Store, b: Binding) {
    Resolve(s, b).Some? && Resolve(s, b).value.1.state != Replaced
    && Resolve(s, b).value.1.attempts >= FAILED_WAKE_ATTEMPT_CEILING
  }

  /** The index reaches a lease that was not replaced within the hop limit. */
  ghost predicate Reached(s: Store, b: Binding) {
    Resolve(s, b).Some? ==> Resolve(s, b).value.1.state != Replaced
  }

  lemma {:induction false} FollowFinds(s: Store, id: string, hops: nat)
    requires hops > 0 && WellStored(s) && id in s.leases
    ensures var r := Follow(s, id, hops);
      r.Some? && r.value.0 in s.leases && r.value.1 == s.leases[r.value.0] && r.value.1.binding == s.leases[id].binding
    decreases hops
  {
    var l := s.leases[id];
    if l.state == Replaced && hops > 1 {
      FollowFinds(s, l.replacedBy.value, hops - 1);
    }
  }

  /** Changing a lease in place changes what is found only if it is the lease found. */
  lemma {:induction false} FollowAfterPut(s: Store, id: string, m: Lease, from: string, hops: nat)
    requires hops > 0 && WellStored(s) && from in s.leases && id in s.leases && InPlace(s.leases[id], m)
    ensures Follow(s, from, hops).Some?
    ensures var (y, l) := Follow(s, from, hops).value;
      Follow(Put(s, id, m), from, hops) == Some((y, if y == id then m else l))
    decreases hops
  {
    hide InPlace;
    FollowFinds(s, from, hops);
    assert s.leases[id].state != Replaced && m.state != Replaced by { PlainStates(s.leases[id], m); }
    var l := s.leases[from];
    if l.state == Replaced && hops > 1 {
      FollowAfterPut(s, id, m, l.replacedBy.value, hops - 1);
    }
  }

  lemma PlainStates(l: Lease, m: Lease)
    requires InPlace(l, m)
    ensures l.state != Replaced && m.state != Replaced && l.attempts <= m.attempts
  {
  }

  /** A lease added under a fresh identifier is found by no old path. */
  lemma {:induction false} FollowAfterAdd(s: Store, t: Store, newId: string, from: string, hops: nat)
    requires hops > 0 && WellStored(s) && from in s.leases && newId !in s.leases
    requires forall id :: id in s.leases ==> id in t.leases && t.leases[id] == s.leases[id]
    ensures Follow(t, from, hops) == Follow(s, from, hops)
    decreases hops
  {
    var l := s.leases[from];
    if l.state == Replaced && hops > 1 {
      FollowAfterAdd(s, t, newId, l.replacedBy.value, hops - 1);
    }
  }

  /** After a replacement old paths find what they found, or the new lease in place of the
      replaced one; or they stop at the replaced lease, out of hops. */
  lemma {:induction false} FollowAfterReplace(
    s: Store, t: Store, id: string, newId: string, n: Lease, from: string, hops: nat)
    requires hops > 0 && WellStored(s) && from in s.leases && id in s.leases && newId !in s.leases
    requires s.leases[id].state != Replaced && n.state != Replaced
    requires t.leases == s.leases[newId := n][id := s.leases[id].(state := Replaced, replacedBy := Some(newId))]
    ensures Follow(s, from, hops).Some?
    ensures var (y, l) := Follow(s, from, hops).value;
      if y != id then Follow(t, from, hops) == Some((y, l))
      else Follow(t, from, hops) == Some((newId, n)) || Follow(t, from, hops) == Some((id, t.leases[id]))
    decreases hops
  {
    FollowFinds(s, from, hops);
    var l := s.leases[from];
    if l.state == Replaced && hops > 1 {
      FollowAfterReplace(s, t, id, newId, n, l.replacedBy.value, hops - 1);
    }
  }

  const ENDED: set<Consumption> := {Consumed, Cancelled, Expired}

  /** The view shows the binding's lease ended with its attempts used up. */
  predicate ShowsExhausted(seen: Store, b: Binding) {
    var prior := Resolve(seen, b);
    prior.Some? && prior.value.1.state in ENDED && prior.value.1.attempts >= FAILED_WAKE_ATTEMPT_CEILING
  }

  /** The two ways a call can give an exhausted binding a lease with attempts left, by what the
      caller can look up before: replacing a lease of the binding that has attempts left itself
      (so not the current one), or starting a new episode when the current lease has ended and
      the view does not show that it ended exhausted. */
  predicate Resets(s: Store, b: Binding, op: Op) {
    match op
    case Replace(id, newId, lease, automationRef, written) =>
      && written >= 3 && lease.binding == b && IsFresh(lease) && newId !in s.leases
      && id in s.leases && s.leases[id].binding == b && s.leases[id].automationRef == automationRef
      && s.leases[id].state in LIVE_OR_EXPIRED && s.leases[id].attempts < FAILED_WAKE_ATTEMPT_CEILING
    case NewEpisode(newId, lease, seen, written) =>
      && written >= 2 && lease.binding == b && IsFresh(lease) && newId !in s.leases
      && Resolve(s, b).Some? && Resolve(s, b).value.1.state in ENDED
      && !ShowsExhausted(seen, b)
    case _ => false
  }

  lemma ReplaceGuards(s: Store, id: string, newId: string, lease: Lease, automationRef: string)
    ensures ReplaceRefusal(s, id, newId, lease, automationRef).None? <==>
            && IsFresh(lease) && newId !in s.leases
            && id in s.leases && s.leases[id].binding == lease.binding && s.leases[id].automationRef == automationRef
            && s.leases[id].state in LIVE_OR_EXPIRED
  {
    hide IsFresh;
  }

  lemma EpisodeGuards(s: Store, newId: string, lease: Lease, seen: Store)
    requires Exhausted(s, lease.binding)
    ensures EpisodeRefusal(s, newId, lease, seen).None? <==>
            && IsFresh(lease) && newId !in s.leases
            && Resolve(s, lease.binding).value.1.state in ENDED
            && !ShowsExhausted(seen, lease.binding)
  {
    hide IsFresh, Follow;
  }

  lemma ReplaceKeepsExhaustion(
    s: Store, b: Binding, id: string, newId: string, lease: Lease, automationRef: string, written: nat)
    requires WellStored(s) && Exhausted(s, b) && ReplaceRefusal(s, id, newId, lease, automationRef).None?
    requires Reached(ReplaceWrites(s, id, newId, lease, written), b)
    ensures Exhausted(ReplaceWrites(s, id, newId, lease, written), b) <==>
            !(written >= 3 && lease.binding == b && s.leases[id].attempts < FAILED_WAKE_ATTEMPT_CEILING)
  {
    var t := ReplaceWrites(s, id, newId, lease, written);
    var n := lease.(attempts := Max(s.leases[id].attempts, lease.attempts));
    if written == 0 {
    } else if written == 1 {
      FollowAfterAdd(s, t, newId, s.index[b], MAX_HOPS);
    } else if written >= 3 && lease.binding == b {
      assert t.index[b] == newId && t.leases[newId] == n;
    } else {
      assert t.index[b] == s.index[b];
      FollowAfterReplace(s, t, id, newId, n, s.index[b], MAX_HOPS);
      FollowFinds(s, s.index[b], MAX_HOPS);
    }
  }

  lemma EpisodeKeepsExhaustion(s: Store, b: Binding, newId: string, lease: Lease, seen: Store, written: nat)
    requires WellStored(s) && Exhausted(s, b) && EpisodeRefusal(s, newId, lease, seen).None?
    ensures Exhausted(EpisodeWrites(s, newId, lease, written), b) <==> !(written >= 2 && lease.binding == b)
  {
    var t := EpisodeWrites(s, newId, lease, written);
    if written == 0 {
    } else if written >= 2 && lease.binding == b {
      assert t.index[b] == newId && t.leases[newId] == lease;
    } else {
      assert t.index[b] == s.index[b];
      FollowAfterAdd(s, t, newId, s.index[b], MAX_HOPS);
    }
  }

  lemma PutKeepsExhaustion(s: Store, b: Binding, id: string, m: Lease)
    requires WellStored(s) && Exhausted(s, b) && id in s.leases && InPlace(s.leases[id], m)
    ensures Exhausted(Put(s, id, m), b)
  {
    FollowAfterPut(s, id, m, s.index[b], MAX_HOPS);
    FollowFinds(s, s.index[b], MAX_HOPS);
  }

  /** One call takes an exhausted binding out of exhaustion exactly when it resets it. */
  lemma ExhaustionEndsExactly(s: Store, b: Binding, op: Op)
    requires WellStored(s) && Exhausted(s, b) && Reached(Step(s, op).1, b)
    ensures Exhausted(Step(s, op).1, b) <==> !Resets(s, b, op)
  {
    hide WellStored, Exhausted, Reached, InPlace, ReplaceRefusal, EpisodeRefusal, ReplaceWrites, EpisodeWrites, Put,
         Resolve, IsFresh, ShowsExhausted;
    StepShape(s, op);
    if op.Replace? {
      ReplaceGuards(s, op.id, op.newId, op.lease, op.automationRef);
      if ReplaceRefusal(s, op.id, op.newId, op.lease, op.automationRef).None? {
        ReplaceKeepsExhaustion(s, b, op.id, op.newId, op.lease, op.automationRef, op.written);
      }
    } else if op.NewEpisode? {
      if op.lease.binding == b {
        assert Resolve(s, b).Some? by { ExhaustedIsFound(s, b); }
        EpisodeGuards(s, op.newId, op.lease, op.seen);
      }
      if EpisodeRefusal(s, op.newId, op.lease, op.seen).None? {
        EpisodeKeepsExhaustion(s, b, op.newId, op.lease, op.seen, op.written);
      }
    } else if Step(s, op).1 != s {
      hide Step;
      var id, m :| id in s.leases && InPlace(s.leases[id], m) && Step(s, op).1 == Put(s, id, m);
      PutKeepsExhaustion(s, b, id, m);
    }
  }

  lemma ExhaustedIsFound(s: Store, b: Binding)
    requires Exhausted(s, b)
    ensures Resolve(s, b).Some?
  {
  }

  /** For the binding, a new episode's view shows the lease that is current, and a replacement
      names it. */
  ghost predicate SeesCurrent(s: Store, b: Binding, op: Op) {
    && (op.NewEpisode? && op.lease.binding == b ==> Resolve(op.seen, b) == Resolve(s, b))
    && (op.Replace? && op.lease.binding == b ==> Resolve(s, b).Some? && op.id == Resolve(s, b).value.0)
  }

  /** Such a call never resets an exhausted binding. */
  lemma CurrentViewNeverResets(s: Store, b: Binding, op: Op)
    requires WellStored(s) && Exhausted(s, b) && SeesCurrent(s, b, op)
    ensures !Resets(s, b, op)
  {
    FollowFinds(s, s.index[b], MAX_HOPS);
    hide Follow;
  }

  // ---- runs

  function Run(s: Store, ops: seq<Op>): Store {
    if ops == [] then s else Step(Run(s, ops[..|ops| - 1]), ops[|ops| - 1]).1
  }

  predicate ReadsFirst(op: Op) {
    op.Claim? || op.OverrideClaim? || op.Reclaim? || op.NewEpisode?
  }

  /** Every unlocked read of the run returned a store of the run, no later than the call. */
  ghost predicate ReadsThePast(s: Store, ops: seq<Op>) {
    forall n :: 0 <= n < |ops| && ReadsFirst(ops[n]) ==>
      exists k :: 0 <= k <= n && ops[n].seen == Run(s, ops[..k])
  }

  lemma LaterTransitive(s: Store, t: Store, u: Store)
    requires Later(s, t) && Later(t, u)
    ensures Later(s, u)
  {
  }

  lemma {:induction false} RunIsLater(s: Store, ops: seq<Op>, k: nat)
    requires WellStored(s) && k <= |ops|
    ensures WellStored(Run(s, ops)) && Later(Run(s, ops[..k]), Run(s, ops))
  {
    hide Step, WellStored, Later;
    if ops == [] {
      LaterItself(s);
    } else {
      var front := ops[..|ops| - 1];
      if k == |ops| {
        assert ops[..k] == ops;
        RunIsLater(s, front, 0);
        StepKeepsStore(Run(s, front), ops[|ops| - 1]);
        LaterItself(Run(s, ops));
      } else {
        assert ops[..k] == front[..k];
        RunIsLater(s, front, k);
        StepKeepsStore(Run(s, front), ops[|ops| - 1]);
        LaterTransitive(Run(s, ops[..k]), Run(s, front), Run(s, ops));
      }
    }
  }

  lemma LaterItself(s: Store)
    ensures Later(s, s)
  {
  }

  /** Call `n` of the run claims the lease, or finds it already claimed, for `claimant`. */
  ghost predicate Succeeds(s: Store, ops: seq<Op>, n: nat, id: string, claimant: string) {
    n < |ops| && (ops[n].Claim? || ops[n].OverrideClaim?) && ops[n].id == id
    && var out := Step(Run(s, ops[..n]), ops[n]).0;
    (out.Won? || out.AlreadyHeld?) && out.claimant == claimant
  }

  ghost predicate Wins(s: Store, ops: seq<Op>, n: nat, id: string) {
    n < |ops| && (ops[n].Claim? || ops[n].OverrideClaim?) && ops[n].id == id && Step(Run(s, ops[..n]), ops[n]).0.Won?
  }

  /** In every run, whatever the races, all successful claims of one lease are by one claimant,
      and at most one of them wins it. */
  lemma OneClaimantPerLease(s: Store, ops: seq<Op>)
    requires WellStored(s) && ReadsThePast(s, ops)
    ensures forall i, j, id, c, d :: Succeeds(s, ops, i, id, c) && Succeeds(s, ops, j, id, d) ==> c == d
    ensures forall i, j, id :: Wins(s, ops, i, id) && Wins(s, ops, j, id) ==> i == j
  {
    hide Step, WellStored, ReadsThePast;
    forall i: nat, j: nat, id, c, d | Succeeds(s, ops, i, id, c) && Succeeds(s, ops, j, id, d) ensures c == d {
      if i <= j { ClaimsAgree(s, ops, i, j); } else { ClaimsAgree(s, ops, j, i); }
    }
    forall i: nat, j: nat, id | Wins(s, ops, i, id) && Wins(s, ops, j, id) ensures i == j {
      if i <= j { ClaimsAgree(s, ops, i, j); } else { ClaimsAgree(s, ops, j, i); }
    }
  }

  lemma ClaimsAgree(s: Store, ops: seq<Op>, i: nat, j: nat)
    requires WellStored(s) && ReadsThePast(s, ops) && i <= j < |ops|
    requires (ops[i].Claim? || ops[i].OverrideClaim?) && (ops[j].Claim? || ops[j].OverrideClaim?)
    requires ops[i].id == ops[j].id
    ensures var a, b := Step(Run(s, ops[..i]), ops[i]).0, Step(Run(s, ops[..j]), ops[j]).0;
      (a.Won? || a.AlreadyHeld?) && (b.Won? || b.AlreadyHeld?) ==> a.claimant == b.claimant && (i < j ==> !b.Won?)
  {
    hide Step, WellStored;
    ClaimHolds(s, ops, i);
    ClaimHolds(s, ops, j);
    assert ops[..i + 1][..i] == ops[..i] && ops[..j + 1][..j] == ops[..j];
    assert ops[..j + 1][..i + 1] == ops[..i + 1];
    RunIsLater(s, ops[..j + 1], i + 1);
    var a := Step(Run(s, ops[..i]), ops[i]).0;
    if i < j && (a.Won? || a.AlreadyHeld?) {
      assert ops[..j][..i + 1] == ops[..i + 1];
      RunIsLater(s, ops[..j], i + 1);
      WonWasUnclaimed(Run(s, ops[..j]), ops[j]);
    }
  }

  lemma WonWasUnclaimed(s: Store, op: Op)
    requires WellStored(s) && (op.Claim? || op.OverrideClaim?)
    requires op.id in s.leases && s.leases[op.id].claimant.Some?
    ensures !Step(s, op).0.Won?
  {
    hide Now;
  }

  /** After a successful claim the lease carries its claimant. */
  lemma ClaimHolds(s: Store, ops: seq<Op>, n: nat)
    requires WellStored(s) && ReadsThePast(s, ops) && n < |ops| && (ops[n].Claim? || ops[n].OverrideClaim?)
    ensures var out := Step(Run(s, ops[..n]), ops[n]).0;
      out.Won? || out.AlreadyHeld? ==>
        var t := Run(s, ops[..n + 1]);
        ops[n].id in t.leases && t.leases[ops[n].id].claimant == Some(out.claimant)
  {
    hide Step, WellStored, Later;
    var k :| 0 <= k <= n && ops[n].seen == Run(s, ops[..k]);
    assert ops[..n][..k] == ops[..k];
    RunIsLater(s, ops[..n], k);
    ClaimIsRecorded(Run(s, ops[..n]), ops[n]);
    assert ops[..n + 1][..n] == ops[..n];
  }

  /** After each call of the run the index is within reach of the binding's live lease. */
  ghost predicate StaysReached(s: Store, b: Binding, ops: seq<Op>) {
    forall n :: 0 <= n <= |ops| ==> Reached(Run(s, ops[..n]), b)
  }

  ghost predicate ExhaustedAt(s: Store, b: Binding, ops: seq<Op>, n: nat)
    requires n <= |ops|
  {
    Exhausted(Run(s, ops[..n]), b)
  }

  predicate ResetsAt(s: Store, b: Binding, ops: seq<Op>, n: nat)
    requires n < |ops|
  {
    Resets(Run(s, ops[..n]), b, ops[n])
  }

  /** A binding whose attempts reached the ceiling stays exhausted up to the first call that
      resets it. */
  lemma {:induction false} ExhaustedUntilReset(s: Store, b: Binding, ops: seq<Op>, n: nat)
    requires WellStored(s) && Exhausted(s, b) && StaysReached(s, b, ops) && n <= |ops|
    requires forall m :: 0 <= m < n ==> !ResetsAt(s, b, ops, m)
    ensures ExhaustedAt(s, b, ops, n)
  {
    hide Step, WellStored, Exhausted, Reached, Resets;
    if n == 0 {
      assert ops[..0] == [];
    } else {
      ExhaustedUntilReset(s, b, ops, n - 1);
      ExhaustionAtStep(s, b, ops, n - 1);
    }
  }

  lemma ExhaustionAtStep(s: Store, b: Binding, ops: seq<Op>, n: nat)
    requires WellStored(s) && StaysReached(s, b, ops) && n < |ops| && ExhaustedAt(s, b, ops, n)
    ensures ExhaustedAt(s, b, ops, n + 1) <==> !ResetsAt(s, b, ops, n)
  {
    hide Step, WellStored, Exhausted, Reached, Resets;
    assert ops[..n + 1][..n] == ops[..n];
    RunIsLater(s, ops[..n], 0);
    ExhaustionEndsExactly(Run(s, ops[..n]), b, ops[n]);
  }

  /** An exhausted binding stays exhausted through a whole run exactly when no call resets it. */
  lemma ExhaustionIsKept(s: Store, b: Binding, ops: seq<Op>)
    requires WellStored(s) && Exhausted(s, b) && StaysReached(s, b, ops)
    ensures (forall n :: 0 <= n <= |ops| ==> ExhaustedAt(s, b, ops, n)) <==>
            forall n :: 0 <= n < |ops| ==> !ResetsAt(s, b, ops, n)
  {
    hide Step, WellStored, Exhausted, StaysReached, Resets, Run;
    if forall n :: 0 <= n < |ops| ==> !ResetsAt(s, b, ops, n) {
      forall n | 0 <= n <= |ops| ensures ExhaustedAt(s, b, ops, n) { ExhaustedUntilReset(s, b, ops, n); }
    }
    if forall n :: 0 <= n <= |ops| ==> ExhaustedAt(s, b, ops, n) {
      forall n | 0 <= n < |ops| ensures !ResetsAt(s, b, ops, n) {
        assert ExhaustedAt(s, b, ops, n) && ExhaustedAt(s, b, ops, n + 1);
        ExhaustionAtStep(s, b, ops, n);
      }
    }
  }

  ghost predicate SeesCurrentAt(s: Store, b: Binding, ops: seq<Op>, n: nat)
    requires n < |ops|
  {
    SeesCurrent(Run(s, ops[..n]), b, ops[n])
  }

  /** In every run in which each new episode of the binding has seen the lease that is current
      when it starts, and each replacement replaces that lease, an exhausted binding stays so. */
  lemma {:induction false} CurrentViewsStayExhausted(s: Store, b: Binding, ops: seq<Op>, n: nat)
    requires WellStored(s) && Exhausted(s, b) && StaysReached(s, b, ops) && n <= |ops|
    requires forall m :: 0 <= m < |ops| ==> SeesCurrentAt(s, b, ops, m)
    ensures ExhaustedAt(s, b, ops, n)
  {
    hide Step, WellStored, Exhausted, StaysReached, Resets, SeesCurrent;
    if n == 0 {
      assert ops[..0] == [];
    } else {
      CurrentViewsStayExhausted(s, b, ops, n - 1);
      assert SeesCurrentAt(s, b, ops, n - 1);
      RunIsLater(s, ops[..n - 1], 0);
      CurrentViewNeverResets(Run(s, ops[..n - 1]), b, ops[n - 1]);
      ExhaustionAtStep(s, b, ops, n - 1);
    }
  }

  // ---- the two ways out of exhaustion are real

  function Attempted(b: Binding, state: Consumption, attempts: nat): Lease {
    Lease(b, ManualSignal, 0.0, "a", state, attempts, None, None)
  }

  const EMPTY := Store(map[], map[])

  /** An expired first lease, and a current second one with `k` failed attempts. */
  function SecondTry(b: Binding, k: nat): Store {
    Store(map["1" := Attempted(b, Expired, 0), "2" := Attempted(b, Unclaimed, k)], map[b := "2"])
  }

  lemma RunSnoc(s: Store, ops: seq<Op>, op: Op)
    ensures Run(s, ops + [op]) == Step(Run(s, ops), op).1
  {
    assert (ops + [op])[..|ops|] == ops;
  }

  lemma FirstTry(b: Binding) returns (ops: seq<Op>)
    ensures Run(EMPTY, ops) == Store(map["1" := Attempted(b, Expired, 0)], map[b := "1"])
  {
    var open := Store(map["1" := Attempted(b, Unclaimed, 0)], map[b := "1"]);
    var first := NewEpisode("1", Attempted(b, Unclaimed, 0), EMPTY, 2);
    var reclaim := Reclaim("1", "a", Clock(9.0, None, 0.0), 1.0, open);
    assert Step(EMPTY, first).1 == open;
    assert Step(open, reclaim).1 == Store(map["1" := Attempted(b, Expired, 0)], map[b := "1"]);
    RunSnoc(EMPTY, [], first);
    RunSnoc(EMPTY, [first], reclaim);
    assert [] + [first] == [first];
    ops := [first] + [reclaim];
  }

  lemma {:induction false} ReachesSecondTry(b: Binding, k: nat) returns (ops: seq<Op>)
    requires k <= FAILED_WAKE_ATTEMPT_CEILING
    ensures Run(EMPTY, ops) == SecondTry(b, k)
  {
    if k == 0 {
      ops := FirstTry(b);
      var once := Run(EMPTY, ops);
      var second := NewEpisode("2", Attempted(b, Unclaimed, 0), once, 2);
      assert Resolve(once, b) == Some(("1", once.leases["1"]));
      assert Step(once, second).1 == SecondTry(b, 0);
      RunSnoc(EMPTY, ops, second);
      ops := ops + [second];
    } else {
      ops := ReachesSecondTry(b, k - 1);
      assert Step(SecondTry(b, k - 1), RecordFailure("2", "a")).1 == SecondTry(b, k);
      RunSnoc(EMPTY, ops, RecordFailure("2", "a"));
      ops := ops + [RecordFailure("2", "a")];
    }
  }

  /** Replacing an older, expired lease of the binding starts the count again: the replacement
      carries the attempts of the lease it replaces, and the store never asks whether that lease
      is the current one. A run from the empty store gets there. */
  lemma ReplacingASupersededLeaseResets(b: Binding) returns (ops: seq<Op>, op: Op)
    ensures var s := Run(EMPTY, ops);
      && Exhausted(s, b) && op.Replace? && op.written == 3 && Step(s, op).0 == Done
      && Resolve(Step(s, op).1, b) == Some(("3", op.lease)) && op.lease.attempts == 0
      && !Exhausted(Step(s, op).1, b)
  {
    ops := ReachesSecondTry(b, 5);
    hide Run;
    var s := SecondTry(b, 5);
    op := Replace("1", "3", Attempted(b, Unclaimed, 0), "a", 3);
    assert Resolve(s, b) == Some(("2", s.leases["2"]));
    var t := Step(s, op).1;
    assert t.index[b] == "3" && t.leases["3"] == Attempted(b, Unclaimed, 0);
    assert Resolve(t, b) == Some(("3", t.leases["3"]));
  }

  lemma {:induction false} ReachesFirstTry(b: Binding, k: nat) returns (ops: seq<Op>)
    requires k <= FAILED_WAKE_ATTEMPT_CEILING
    ensures Run(EMPTY, ops) == Store(map["1" := Attempted(b, Unclaimed, k)], map[b := "1"])
  {
    if k == 0 {
      var first := NewEpisode("1", Attempted(b, Unclaimed, 0), EMPTY, 2);
      RunSnoc(EMPTY, [], first);
      ops := [] + [first];
    } else {
      ops := ReachesFirstTry(b, k - 1);
      var before := Store(map["1" := Attempted(b, Unclaimed, k - 1)], map[b := "1"]);
      assert Step(before, RecordFailure("1", "a")).1.leases["1"] == Attempted(b, Unclaimed, k);
      RunSnoc(EMPTY, ops, RecordFailure("1", "a"));
      ops := ops + [RecordFailure("1", "a")];
    }
  }

  /** The ceiling check of a new episode reads without a lock: with a view one call old it lets
      a fresh episode start on a binding that has used up its attempts. A run from the empty
      store gets there. */
  lemma StaleEpisodeResets(b: Binding) returns (ops: seq<Op>, last: Op, op: Op)
    ensures op.NewEpisode? && op.seen == Run(EMPTY, ops) && op.written == 2
    ensures var s := Run(EMPTY, ops + [last]);
      Exhausted(s, b) && Step(s, op).0 == Done && !Exhausted(Step(s, op).1, b)
  {
    ops := ReachesFirstTry(b, 5);
    var s := Run(EMPTY, ops);
    last := Reclaim("1", "a", Clock(9.0, None, 0.0), 1.0, s);
    op := NewEpisode("2", Attempted(b, Unclaimed, 0), s, 2);
    RunSnoc(EMPTY, ops, last);
    hide Run;
    var t := Store(map["1" := Attempted(b, Expired, 5)], map[b := "1"]);
    assert Step(s, last).1 == t;
    EpisodeOnStaleView(b, s, t, op);
  }

  lemma EpisodeOnStaleView(b: Binding, s: Store, t: Store, op: Op)
    requires s == Store(map["1" := Attempted(b, Unclaimed, 5)], map[b := "1"])
    requires t == Store(map["1" := Attempted(b, Expired, 5)], map[b := "1"])
    requires op == NewEpisode("2", Attempted(b, Unclaimed, 0), s, 2)
    ensures Exhausted(t, b) && Step(t, op).0 == Done && !Exhausted(Step(t, op).1, b)
  {
    assert Resolve(s, b) == Some(("1", s.leases["1"]));
    assert Resolve(t, b) == Some(("1", t.leases["1"]));
    var u := Step(t, op).1;
    assert u.index[b] == "2" && u.leases["2"] == op.lease;
    assert Resolve(u, b) == Some(("2", u.leases["2"]));
  }

  // ---- reclaims

  /** The lease a reclaim saw was unclaimed and past its grace period. */
  predicate ViewDue(op: Op)
    requires op.Reclaim?
  {
    && op.grace >= 0.0 && op.id in op.seen.leases && op.seen.leases[op.id].automationRef == op.automationRef
    && op.seen.leases[op.id].state == Unclaimed && Now(op.clock) >= Anchor(op.seen.leases[op.id]) + op.grace
  }

  /** The call expires a lease that stands claimed. */
  predicate TakesAClaim(s: Store, op: Op) {
    op.Reclaim? && op.id in s.leases && s.leases[op.id].state == Claimed && Step(s, op).0 == Done
  }

  /** A reclaim expires exactly a lease it saw unclaimed and due and that is not ended since; so
      it takes a claimed lease exactly when the lease it saw unclaimed is claimed by then. */
  lemma ReclaimExactly(s: Store, op: Op)
    requires op.Reclaim?
    ensures Step(s, op).0 == Done <==> ViewDue(op) && op.id in s.leases && s.leases[op.id].state in {Unclaimed, Claimed}
    ensures TakesAClaim(s, op) <==> ViewDue(op) && op.id in s.leases && s.leases[op.id].state == Claimed
    ensures Step(s, op).1 ==
            if Step(s, op).0 == Done then Put(s, op.id, s.leases[op.id].(state := Expired)) else s
  {
    hide Now;
  }

  /** Only a winning claim makes a lease claimed. */
  lemma BecomesClaimed(s: Store, op: Op, id: string)
    requires WellStored(s)
    requires var t := Step(s, op).1; id in t.leases && t.leases[id].state == Claimed
    ensures || (id in s.leases && s.leases[id] == Step(s, op).1.leases[id])
            || ((op.Claim? || op.OverrideClaim?) && op.id == id && Step(s, op).0.Won?)
  {
    hide Now, Resolve;
  }

  lemma {:induction false} LastClaim(s: Store, ops: seq<Op>, k: nat, n: nat, id: string) returns (j: nat)
    requires WellStored(s) && k <= n <= |ops|
    requires var t := Run(s, ops[..n]); id in t.leases && t.leases[id].state == Claimed
    requires var t := Run(s, ops[..k]); id in t.leases && t.leases[id].state != Claimed
    ensures k <= j < n && Wins(s, ops, j, id)
    ensures id in Run(s, ops[..j + 1]).leases && Run(s, ops[..j + 1]).leases[id] == Run(s, ops[..n]).leases[id]
    decreases n
  {
    hide Step, WellStored;
    assert k < n;
    assert ops[..n][..n - 1] == ops[..n - 1];
    RunIsLater(s, ops[..n - 1], 0);
    BecomesClaimed(Run(s, ops[..n - 1]), ops[n - 1], id);
    if Wins(s, ops, n - 1, id) {
      j := n - 1;
    } else {
      j := LastClaim(s, ops, k, n - 1, id);
    }
  }

  /** The lease claimed by call `j` stands as that claim left it after `n` calls. */
  ghost predicate ClaimStands(s: Store, ops: seq<Op>, j: nat, n: nat, id: string) {
    j < n <= |ops| && Wins(s, ops, j, id)
    && id in Run(s, ops[..j + 1]).leases && id in Run(s, ops[..n]).leases
    && Run(s, ops[..n]).leases[id] == Run(s, ops[..j + 1]).leases[id]
  }

  /** In every run, a reclaim takes a claimed lease exactly when the lease it saw was due and a
      claim won it between that read and the write, and still stands. */
  lemma ReclaimRaceExactly(s: Store, ops: seq<Op>, n: nat, k: nat)
    requires WellStored(s) && n < |ops| && ops[n].Reclaim? && k <= n && ops[n].seen == Run(s, ops[..k])
    ensures TakesAClaim(Run(s, ops[..n]), ops[n]) <==>
            ViewDue(ops[n]) && exists j :: k <= j && ClaimStands(s, ops, j, n, ops[n].id)
  {
    hide Step, WellStored, ViewDue;
    var id := ops[n].id;
    ReclaimExactly(Run(s, ops[..n]), ops[n]);
    if TakesAClaim(Run(s, ops[..n]), ops[n]) {
      assert id in ops[n].seen.leases && ops[n].seen.leases[id].state == Unclaimed by { SawUnclaimed(ops[n]); }
      var j := LastClaim(s, ops, k, n, id);
      assert ClaimStands(s, ops, j, n, id);
    }
    if j: nat :| k <= j && ClaimStands(s, ops, j, n, id) {
      assert ops[..j + 1][..j] == ops[..j];
      WonIsClaimed(Run(s, ops[..j]), ops[j]);
    }
  }

  lemma SawUnclaimed(op: Op)
    requires op.Reclaim? && ViewDue(op)
    ensures op.id in op.seen.leases && op.seen.leases[op.id].state == Unclaimed
  {
  }

  lemma WonIsClaimed(s: Store, op: Op)
    requires (op.Claim? || op.OverrideClaim?) && Step(s, op).0.Won?
    ensures op.id in Step(s, op).1.leases && Step(s, op).1.leases[op.id].state == Claimed
  {
    hide Now;
  }

  /** The race is real: from the empty store, a reclaim with a view one call old expires a lease
      just claimed, since the lock does not repeat the check. */
  lemma StaleReclaimTakesAClaim(b: Binding) returns (ops: seq<Op>, claim: Op, reclaim: Op)
    ensures claim.Claim? && reclaim.Reclaim? && claim.seen == reclaim.seen == Run(EMPTY, ops)
    ensures Step(Run(EMPTY, ops), claim).0.Won?
    ensures TakesAClaim(Run(EMPTY, ops + [claim]), reclaim)
  {
    var l := Attempted(b, Unclaimed, 0).(mode := Scheduled(0.0));
    var first, clock := NewEpisode("1", l, EMPTY, 2), Clock(9.0, None, 0.0);
    ops := [] + [first];
    RunSnoc(EMPTY, [], first);
    var s := Store(map["1" := l], map[b := "1"]);
    assert Step(EMPTY, first).1 == s;
    claim := Claim("1", "c", "a", clock, s);
    reclaim := Reclaim("1", "a", clock, 1.0, s);
    RunSnoc(EMPTY, ops, claim);
    hide Run;
    assert Step(s, claim) == (Won("c"), Put(s, "1", l.(state := Claimed, claimant := Some("c"))));
    ReclaimExactly(Step(s, claim).1, reclaim);
  }

  // ---- what each other call does, exactly

  /** The lease a claim saw could be claimed under this automation reference. */
  predicate SawClaimable(seen: Store, id: string, claimant: string, automationRef: string) {
    claimant != "" && id in seen.leases && seen.leases[id].automationRef == automationRef
    && seen.leases[id].state == Unclaimed
  }

  /** The lease a claim saw was already the claimant's. */
  predicate SawHeld(seen: Store, id: string, claimant: string, automationRef: string) {
    claimant != "" && id in seen.leases && seen.leases[id].automationRef == automationRef
    && seen.leases[id].state == Claimed && seen.leases[id].claimant == Some(claimant)
  }

  predicate HeldBy(s: Store, id: string, claimant: string) {
    id in s.leases && s.leases[id].state == Claimed && s.leases[id].claimant == Some(claimant)
  }

  /** An ordinary claim wins exactly an unclaimed lease it saw claimable, scheduled and due; it finds
      the lease its own when it saw that, or when it lost the race to itself. */
  lemma ClaimExactly(s: Store, op: Op)
    requires op.Claim?
    ensures var due := SawClaimable(op.seen, op.id, op.claimant, op.automationRef)
                       && op.seen.leases[op.id].mode.Scheduled?
                       && op.seen.leases[op.id].mode.notBefore <= Now(op.clock);
      var (out, t) := Step(s, op);
      && (out.Won? <==> due && op.id in s.leases && s.leases[op.id].state == Unclaimed)
      && (out.AlreadyHeld? <==>
            SawHeld(op.seen, op.id, op.claimant, op.automationRef) || (due && HeldBy(s, op.id, op.claimant)))
      && t == (if out.Won? then Put(s, op.id, s.leases[op.id].(state := Claimed, claimant := Some(op.claimant))) else s)
  {
    hide Now, Put;
  }

  /** An override succeeds only with verified evidence; with it, it wins exactly an unclaimed lease it
      saw claimable, whatever the clock says. */
  lemma OverrideExactly(s: Store, op: Op)
    requires op.OverrideClaim?
    ensures var saw := SawClaimable(op.seen, op.id, op.claimant, op.automationRef);
      var (out, t) := Step(s, op);
      && (out.Won? <==> op.verified && saw && op.id in s.leases && s.leases[op.id].state == Unclaimed)
      && (out.AlreadyHeld? <==>
            op.verified && (SawHeld(op.seen, op.id, op.claimant, op.automationRef)
                            || (saw && HeldBy(s, op.id, op.claimant))))
      && t == (if out.Won? then Put(s, op.id, s.leases[op.id].(state := Claimed, claimant := Some(op.claimant))) else s)
  {
    hide Put;
  }

  /** The lease stands in one of these states, under this automation reference. */
  predicate Stands(s: Store, id: string, automationRef: string, states: set<Consumption>) {
    id in s.leases && s.leases[id].automationRef == automationRef && s.leases[id].state in states
  }

  /** Cancelling takes an unclaimed or claimed lease, consuming a claimed or consumed one, and a
      failed wake is counted on an unclaimed one below the ceiling; anything else changes nothing. */
  lemma InPlaceExactly(s: Store, op: Op)
    requires op.Cancel? || op.Consume? || op.RecordFailure?
    ensures var (out, t) := Step(s, op);
      if op.Cancel? && Stands(s, op.id, op.automationRef, {Unclaimed, Claimed}) then
        out == Done && t == s.(leases := s.leases[op.id := s.leases[op.id].(state := Cancelled)])
      else if op.Consume? && Stands(s, op.id, op.automationRef, {Claimed, Consumed}) then
        out == Done && t == s.(leases := s.leases[op.id := s.leases[op.id].(state := Consumed)])
      else if op.RecordFailure? && Stands(s, op.id, op.automationRef, {Unclaimed}) && s.leases[op.id].attempts < 5 then
        out == Done && t == s.(leases := s.leases[op.id := s.leases[op.id].(attempts := s.leases[op.id].attempts + 1)])
      else out.Refused? && t == s
  {
  }

  /** A replacement that completes links the old lease to a new one of its binding, which carries the
      old count and is current; it is refused exactly when the old lease has ended or is another
      binding's, or the new one is not fresh. */
  lemma ReplaceExactly(s: Store, op: Op)
    requires op.Replace?
    ensures var (out, t) := Step(s, op);
      var allowed := Stands(s, op.id, op.automationRef, {Unclaimed, Claimed, Expired})
                     && op.lease.binding == s.leases[op.id].binding && op.newId !in s.leases
                     && op.lease.state == Unclaimed && op.lease.attempts == 0
                     && op.lease.claimant.None? && op.lease.replacedBy.None?;
      && (!allowed ==> out.Refused? && t == s)
      && (allowed && op.written < 3 ==>
            && out == Crashed && t.index == s.index
            && var carried := op.lease.(attempts := s.leases[op.id].attempts);
               t.leases ==
                 if op.written == 0 then s.leases
                 else if op.written == 1 then s.leases[op.newId := carried]
                 else s.leases[op.newId := carried]
                              [op.id := s.leases[op.id].(state := Replaced, replacedBy := Some(op.newId))])
      && (allowed && op.written >= 3 ==>
            && out == Done && t.index == s.index[op.lease.binding := op.newId]
            && t.leases == s.leases[op.newId := op.lease.(attempts := s.leases[op.id].attempts)]
                                   [op.id := s.leases[op.id].(state := Replaced, replacedBy := Some(op.newId))])
  {
  }

  /** A new episode that completes is the binding's current lease, with no attempts. */
  lemma NewEpisodeExactly(s: Store, op: Op)
    requires op.NewEpisode?
    ensures var (out, t) := Step(s, op);
      var current := Resolve(s, op.lease.binding);
      var allowed := !ShowsExhausted(op.seen, op.lease.binding) && op.newId !in s.leases
                     && op.lease.state == Unclaimed && op.lease.attempts == 0
                     && op.lease.claimant.None? && op.lease.replacedBy.None?
                     && (op.lease.binding !in s.index || (current.Some? && current.value.1.state in ENDED));
      && (!allowed ==> out.Refused? && t == s)
      && (allowed && op.written < 2 ==>
            out == Crashed && t == if op.written == 0 then s else Store(s.leases[op.newId := op.lease], s.index))
      && (allowed && op.written >= 2 ==>
            out == Done && t == Store(s.leases[op.newId := op.lease], s.index[op.lease.binding := op.newId]))
  {
    hide Follow;
  }

  // ---- why a call is refused

  /** The lease a claim or a reclaim read before taking the lock; any other call reads under it. */
  function Looked(s: Store, op: Op): Store {
    if op.Claim? || op.OverrideClaim? || op.Reclaim? then op.seen else s
  }

  predicate IsIn(s: Store, id: string, states: set<Consumption>) {
    id in s.leases && s.leases[id].state in states
  }

  predicate StartsUnclaimed(l: Lease) {
    l.state == Unclaimed && l.attempts == 0 && l.claimant.None? && l.replacedBy.None?
  }

  /** The states in which this kind of call does not find its lease. */
  function WrongStates(op: Op): set<Consumption> {
    match op
    case Cancel(_, _) => {Consumed, Cancelled, Replaced, Expired}
    case Consume(_, _) => {Unclaimed, Cancelled, Replaced, Expired}
    case Replace(_, _, _, _, _) => {Consumed, Cancelled, Replaced}
    case _ => {Claimed, Consumed, Cancelled, Replaced, Expired}
  }

  /** What the call was told is so. */
  predicate ReasonHolds(s: Store, op: Op, why: Refusal) {
    match why
    case BadArgument =>
      || ((op.Claim? || op.OverrideClaim?) && op.claimant == "")
      || (op.Reclaim? && op.grace < 0.0)
      || (op.Replace? && (!StartsUnclaimed(op.lease) || op.newId == op.id))
      || (op.NewEpisode? && !StartsUnclaimed(op.lease))
    case NotFound => !op.NewEpisode? && (op.id !in Looked(s, op).leases || op.id !in s.leases)
    case AutomationRefMismatch =>
      !op.NewEpisode? && op.id in Looked(s, op).leases
      && Looked(s, op).leases[op.id].automationRef != op.automationRef
    case DifferentOwner =>
      (op.Claim? || op.OverrideClaim?)
      && ((IsIn(op.seen, op.id, {Claimed}) && op.seen.leases[op.id].claimant != Some(op.claimant))
          || IsIn(s, op.id, {Consumed, Cancelled, Replaced, Expired})
          || (IsIn(s, op.id, {Claimed}) && s.leases[op.id].claimant != Some(op.claimant)))
    case NotClaimable =>
      (op.Claim? || op.OverrideClaim?) && IsIn(op.seen, op.id, {Consumed, Cancelled, Replaced, Expired})
    case ManualSignalNeedsEvidence => op.Claim? && op.id in op.seen.leases && op.seen.leases[op.id].mode.ManualSignal?
    case Early =>
      op.Claim? && op.id in op.seen.leases && op.seen.leases[op.id].mode.Scheduled?
      && Now(op.clock) < op.seen.leases[op.id].mode.notBefore
    case EvidenceInvalid => op.OverrideClaim? && !op.verified
    case WrongState =>
      || ((op.Cancel? || op.Consume? || op.Replace? || op.RecordFailure?) && IsIn(s, op.id, WrongStates(op)))
      || (op.Reclaim? && IsIn(op.seen, op.id, WrongStates(op)))
      || (op.Reclaim? && IsIn(s, op.id, {Consumed, Cancelled, Replaced, Expired}))
    case AtCeiling => op.RecordFailure? && op.id in s.leases && s.leases[op.id].attempts >= 5
    case CrossBinding => op.Replace? && op.id in s.leases && s.leases[op.id].binding != op.lease.binding
    case IdCollision => (op.Replace? || op.NewEpisode?) && op.newId in s.leases
    case BindingAlreadyLive =>
      op.NewEpisode?
      && var current := Resolve(s, op.lease.binding);
         current.Some? && IsIn(s, current.value.0, {Unclaimed, Claimed})
    case BindingCeilingExhausted => op.NewEpisode? && ShowsExhausted(op.seen, op.lease.binding)
    case IndexCorrupt =>
      op.NewEpisode? && op.lease.binding in s.index
      && var current := Resolve(s, op.lease.binding);
         current.None? || IsIn(s, current.value.0, {Replaced})
    case NotYetExpired =>
      op.Reclaim? && op.id in op.seen.leases
      && var l := op.seen.leases[op.id];
         Now(op.clock) < op.grace + if l.mode.Scheduled? then l.mode.notBefore else l.issuedAt
  }

  lemma {:induction false} FollowIsStored(s: Store, id: string, hops: nat)
    requires hops > 0 && Follow(s, id, hops).Some?
    ensures var (at, l) := Follow(s, id, hops).value; at in s.leases && s.leases[at] == l
    decreases hops
  {
    var l := s.leases[id];
    if l.state == Replaced && l.replacedBy.Some? && hops > 1 { FollowIsStored(s, l.replacedBy.value, hops - 1); }
  }

  lemma Known(l: Lease)
    ensures l.state in ANY_STATE
  {
    match l.state
    case Unclaimed => case Claimed => case Consumed => case Cancelled => case Replaced => case Expired =>
  }

  /** Every refusal is for a reason that holds, and changes nothing. */
  lemma RefusalTellsTruth(s: Store, op: Op)
    requires Step(s, op).0.Refused?
    ensures Step(s, op).1 == s && ReasonHolds(s, op, Step(s, op).0.why)
  {
    hide Now, Follow;
    if op.NewEpisode? && op.lease.binding in s.index && Resolve(s, op.lease.binding).Some? {
      FollowIsStored(s, s.index[op.lease.binding], MAX_HOPS);
    }
    if !op.NewEpisode? && op.id in s.leases { Known(s.leases[op.id]); }
    if op.Reclaim? && op.id in op.seen.leases { Known(op.seen.leases[op.id]); }
  }
}
