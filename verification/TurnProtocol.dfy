/**
 One persistent child answers turn by turn on one stream. A turn that times out before its
 first token leaves its answer in flight; `pending` counts the `result` events still owed,
 and later turns discard that many before a line is theirs.
 */
module TurnProtocol {

  /** One line of the child's stream as the session tells lines apart. `Ungoverned` is a child
      event no governed tool call accounts for. `Eof` is the reader thread's sentinel. */
  datatype Item = Blank | NotJson | Other | Ungoverned | Result | Eof

  datatype Outcome = Answered | TimedOut | Ended | Denied | Hung

  /** The session between turns: how much of the stream is read, and how many results are owed. */
  datatype Session = Session(position: nat, pending: nat)

  /** A turn: how it ended, and the lines it took as its own, `[from, to)`. */
  datatype Turn = Turn(outcome: Outcome, from: nat, to: nat, after: Session)

  /** How many items reach the queue before the drain deadline and before the first-token
      deadline of a turn: all that timing contributes. */
  datatype Timing = Timing(drain: nat, first: nat)

  /** Discard items until no result is owed, the deadline passes, or the stream ends. */
  function Drain(stream: seq<Item>, s: Session, budget: nat): Session
    requires s.position <= |stream|
    ensures Drain(stream, s, budget).position <= |stream|
    decreases budget
  {
    if s.pending == 0 || budget == 0 || s.position == |stream| then s
    else if stream[s.position] == Eof then s.(position := s.position + 1)
    else
      Drain(stream,
            Session(s.position + 1, if stream[s.position] == Result then s.pending - 1 else s.pending),
            budget - 1)
  }

  /** Read a turn's own lines up to its result; there is no deadline any more. */
  function ReadOwn(stream: seq<Item>, from: nat, at: nat, pending: nat): Turn
    requires from <= at <= |stream|
    decreases |stream| - at
  {
    if at == |stream| then Turn(Hung, from, at, Session(at, pending))
    else match stream[at]
      case Eof => Turn(Ended, from, at, Session(at + 1, pending))
      case Result => Turn(Answered, from, at + 1, Session(at + 1, pending))
      case Ungoverned => Turn(Denied, from, at + 1, Session(at + 1, pending))
      case _ => ReadOwn(stream, from, at + 1, pending)
  }

  /** Wait for the first token, still discarding while results are owed. */
  function Await(stream: seq<Item>, s: Session, budget: nat): Turn
    requires s.position <= |stream|
    decreases budget
  {
    var at := s.position;
    if budget == 0 || at == |stream| then Turn(TimedOut, at, at, Session(at, s.pending + 1))
    else if stream[at] == Eof then Turn(Ended, at, at, Session(at + 1, s.pending))
    else if s.pending > 0 then
      Await(stream, Session(at + 1, if stream[at] == Result then s.pending - 1 else s.pending), budget - 1)
    else ReadOwn(stream, at, at, 0)
  }

  /** `_send_turn`. */
  function Send(stream: seq<Item>, s: Session, timing: Timing): Turn
    requires s.position <= |stream|
  {
    Await(stream, Drain(stream, s, timing.drain), timing.first)
  }

  /** How many turns the stream has completed before item `i`: the turn the item belongs to. */
  function TurnOf(stream: seq<Item>, i: nat): nat
    requires i <= |stream|
  {
    if i == 0 then 0 else TurnOf(stream, i - 1) + if stream[i - 1] == Result then 1 else 0
  }

  /** The sentinel comes once, last. */
  predicate EofIsLast(stream: seq<Item>) {
    forall i :: 0 <= i < |stream| && stream[i] == Eof ==> i == |stream| - 1
  }

  /** The first line of a turn: the stream's first, or right after a result. */
  predicate AtBoundary(stream: seq<Item>, i: nat) {
    i == 0 || (i <= |stream| && stream[i - 1] == Result)
  }

  // ---- one turn

  /** With nothing owed, the next unread line starts a turn. */
  predicate Clean(stream: seq<Item>, s: Session) {
    s.pending == 0 ==> AtBoundary(stream, s.position)
  }

  lemma {:induction false} DrainKeepsDebt(stream: seq<Item>, s: Session, budget: nat)
    requires s.position <= |stream| && EofIsLast(stream)
    ensures var t := Drain(stream, s, budget);
      && TurnOf(stream, t.position) + t.pending == TurnOf(stream, s.position) + s.pending
      && (Clean(stream, s) ==> Clean(stream, t))
      && (s.position == |stream| ==> t.position == |stream|)
    decreases budget
  {
    if s.pending != 0 && budget != 0 && s.position != |stream| && stream[s.position] != Eof {
      DrainKeepsDebt(stream,
        Session(s.position + 1, if stream[s.position] == Result then s.pending - 1 else s.pending), budget - 1);
    }
  }

  /** The balance of results read and owed names the turn: a turn's own lines all belong to
      it, they start at its first line if the session was clean, and the balance moves on by
      one for an answered or timed-out turn and not at all for one that is denied or meets the
      end of the stream. */
  ghost predicate TurnFacts(stream: seq<Item>, s: Session, t: Turn)
    requires s.position <= |stream|
  {
    var turn := TurnOf(stream, s.position) + s.pending;
    && t.from <= t.to <= |stream| && t.after.position <= |stream|
    && (forall i :: t.from <= i < t.to ==> TurnOf(stream, i) == turn)
    && (Clean(stream, s) && t.from < t.to ==> AtBoundary(stream, t.from))
    && (t.outcome in {Hung, Ended} ==>
          t.after.position == |stream| && TurnOf(stream, t.after.position) + t.after.pending == turn)
    && (t.outcome in {Answered, TimedOut} ==>
          TurnOf(stream, t.after.position) + t.after.pending == turn + 1 && Clean(stream, t.after))
    && (t.outcome == Denied ==> TurnOf(stream, t.after.position) + t.after.pending == turn)
    && (t.outcome == Answered ==> t.from < t.to && stream[t.to - 1] == Result)
    && (s.position == |stream| ==> t.from == t.to && t.after.position == |stream|)
  }

  lemma {:induction false} ReadOwnFacts(stream: seq<Item>, from: nat, at: nat)
    requires from <= at <= |stream| && EofIsLast(stream) && from < |stream|
    requires forall i :: from <= i < at ==> TurnOf(stream, i) == TurnOf(stream, from)
    requires TurnOf(stream, at) == TurnOf(stream, from)
    ensures TurnFacts(stream, Session(from, 0), ReadOwn(stream, from, at, 0))
    ensures ReadOwn(stream, from, at, 0).from == from
    decreases |stream| - at
  {
    if at < |stream| && stream[at] !in {Eof, Result, Ungoverned} {
      ReadOwnFacts(stream, from, at + 1);
    }
  }

  lemma {:induction false} AwaitFacts(stream: seq<Item>, s: Session, budget: nat)
    requires s.position <= |stream| && EofIsLast(stream)
    ensures TurnFacts(stream, s, Await(stream, s, budget))
    decreases budget
  {
    var at := s.position;
    if budget != 0 && at != |stream| && stream[at] != Eof {
      if s.pending > 0 {
        AwaitFacts(stream, Session(at + 1, if stream[at] == Result then s.pending - 1 else s.pending), budget - 1);
      } else {
        ReadOwnFacts(stream, at, at);
      }
    }
  }

  lemma SendFacts(stream: seq<Item>, s: Session, timing: Timing)
    requires s.position <= |stream| && EofIsLast(stream)
    ensures TurnFacts(stream, s, Send(stream, s, timing))
  {
    DrainKeepsDebt(stream, s, timing.drain);
    AwaitFacts(stream, Drain(stream, s, timing.drain), timing.first);
  }

  // ---- runs

  /** The session after a run of turns. */
  ghost function After(stream: seq<Item>, run: seq<Timing>): (s: Session)
    requires EofIsLast(stream)
    ensures s.position <= |stream|
  {
    if run == [] then Session(0, 0)
    else
      var s := After(stream, run[..|run| - 1]);
      SendFacts(stream, s, run[|run| - 1]);
      Send(stream, s, run[|run| - 1]).after
  }

  /** Turn `n` of a run. */
  ghost function TurnAt(stream: seq<Item>, run: seq<Timing>, n: nat): Turn
    requires EofIsLast(stream) && n < |run|
  {
    Send(stream, After(stream, run[..n]), run[n])
  }

  /** How many turns of a run left by the early return for an ungoverned child. */
  ghost function Denials(stream: seq<Item>, run: seq<Timing>): nat
    requires EofIsLast(stream)
  {
    if run == [] then 0
    else
      Denials(stream, run[..|run| - 1])
      + if Send(stream, After(stream, run[..|run| - 1]), run[|run| - 1]).outcome == Denied then 1 else 0
  }

  /** How many turns of a run met the end of the stream. */
  ghost function Endings(stream: seq<Item>, run: seq<Timing>): nat
    requires EofIsLast(stream)
  {
    if run == [] then 0
    else
      Endings(stream, run[..|run| - 1])
      + if Send(stream, After(stream, run[..|run| - 1]), run[|run| - 1]).outcome in {Hung, Ended} then 1 else 0
  }

  /** The balance after any run: results read plus results owed are the turns sent, less the
      denied ones, whose results nothing counts, and those that met the end of the stream. A
      turn meets it only by reading everything, so before that the debt is exact. */
  lemma {:induction false} DebtIsExact(stream: seq<Item>, run: seq<Timing>)
    requires EofIsLast(stream)
    ensures var s := After(stream, run);
      && TurnOf(stream, s.position) + s.pending + Denials(stream, run) + Endings(stream, run) == |run|
      && (s.position < |stream| ==> Endings(stream, run) == 0)
      && (s.position < |stream| && Denials(stream, run) == 0 ==> Clean(stream, s))
  {
    if run != [] {
      DebtIsExact(stream, run[..|run| - 1]);
      SendFacts(stream, After(stream, run[..|run| - 1]), run[|run| - 1]);
    }
  }

  /** In every run of sends and timeouts, every line a turn takes as its own belongs to that
      turn less the denials before it. So as long as no turn was denied, old output never
      reaches a later turn, and a turn that takes lines starts at its own first line; and
      after a denial every turn that takes a line takes an earlier turn's. */
  lemma TurnProvenance(stream: seq<Item>, run: seq<Timing>, n: nat)
    requires EofIsLast(stream) && n < |run|
    ensures var t := TurnAt(stream, run, n);
      && t.from <= t.to <= |stream|
      && (forall i :: t.from <= i < t.to ==> TurnOf(stream, i) + Denials(stream, run[..n]) == n)
      && (Denials(stream, run[..n]) == 0 && t.from < t.to ==> AtBoundary(stream, t.from))
      && (t.outcome == Answered ==> t.from < t.to && stream[t.to - 1] == Result)
    ensures var t := TurnAt(stream, run, n);
      t.from < t.to ==>
        ((forall i :: t.from <= i < t.to ==> TurnOf(stream, i) == n) <==> Denials(stream, run[..n]) == 0)
  {
    DebtIsExact(stream, run[..n]);
    SendFacts(stream, After(stream, run[..n]), run[n]);
    var t := TurnAt(stream, run, n);
    if t.from < t.to {
      assert TurnOf(stream, t.from) + Denials(stream, run[..n]) == n;
    }
  }

  /** The early return does break provenance: a turn denied for an ungoverned child leaves its
      result unread and uncounted, and the next turn answers with it. */
  lemma DenialLeaksOldOutput()
    ensures var stream := [Ungoverned, Result, Other, Result];
      var run := [Timing(9, 9), Timing(9, 9)];
      && TurnAt(stream, run, 0).outcome == Denied
      && TurnAt(stream, run, 1) == Turn(Answered, 1, 2, Session(2, 0))
      && TurnOf(stream, 1) == 0
  {
    var stream := [Ungoverned, Result, Other, Result];
    var run := [Timing(9, 9), Timing(9, 9)];
    assert run[..0] == [] && run[..1] == [Timing(9, 9)] && [Timing(9, 9)][..0] == [];
    assert After(stream, []) == Session(0, 0);
    assert Send(stream, Session(0, 0), Timing(9, 9)) == Turn(Denied, 0, 1, Session(1, 0));
    assert Send(stream, Session(1, 0), Timing(9, 9)) == Turn(Answered, 1, 2, Session(2, 0));
    assert TurnOf(stream, 0) == 0;
  }

  // ---- when a turn times out

  /** Line `o` is the first of the turn sent from `s`: after as many more results as are owed. */
  predicate FirstOwn(stream: seq<Item>, s: Session, o: nat) {
    && s.position <= o < |stream| && stream[o] != Eof
    && TurnOf(stream, o) == TurnOf(stream, s.position) + s.pending
    && (if s.pending == 0 then o == s.position else stream[o - 1] == Result)
  }

  lemma {:induction false} TurnOfGrows(stream: seq<Item>, i: nat, j: nat)
    requires i <= j <= |stream|
    ensures TurnOf(stream, i) <= TurnOf(stream, j)
    ensures i < j && stream[i] == Result ==> TurnOf(stream, i) < TurnOf(stream, j)
    decreases j
  {
    if i < j {
      TurnOfGrows(stream, i, j - 1);
      if i + 1 < j { TurnOfGrows(stream, i + 1, j - 1); }
    }
  }

  /** One line discarded is one line nearer to the turn's own first line. */
  lemma OwnAfterOne(stream: seq<Item>, s: Session, o: nat)
    requires FirstOwn(stream, s, o) && EofIsLast(stream) && s.pending > 0
    ensures s.position < o && stream[s.position] != Eof
    ensures var t := Session(s.position + 1, if stream[s.position] == Result then s.pending - 1 else s.pending);
      FirstOwn(stream, t, o)
  {
    if stream[s.position] == Result && s.pending == 1 && s.position + 1 < o {
      TurnOfGrows(stream, s.position + 1, o - 1);
    }
  }

  lemma {:induction false} DrainReaches(stream: seq<Item>, s: Session, budget: nat, o: nat)
    requires FirstOwn(stream, s, o) && EofIsLast(stream)
    ensures FirstOwn(stream, Drain(stream, s, budget), o)
    ensures Drain(stream, s, budget).position == if o - s.position <= budget then o else s.position + budget
    decreases budget
  {
    if s.pending == 0 {
    } else {
      OwnAfterOne(stream, s, o);
      if budget > 0 {
        DrainReaches(stream,
          Session(s.position + 1, if stream[s.position] == Result then s.pending - 1 else s.pending), budget - 1, o);
      }
    }
  }

  lemma {:induction false} AwaitReaches(stream: seq<Item>, s: Session, budget: nat, o: nat)
    requires FirstOwn(stream, s, o) && EofIsLast(stream)
    ensures var t := Await(stream, s, budget);
      && (t.outcome == TimedOut <==> budget <= o - s.position)
      && (t.outcome == TimedOut ==> t.after.position == s.position + budget)
      && (t.outcome != TimedOut ==> t == ReadOwn(stream, o, o, 0))
    decreases budget
  {
    if budget > 0 {
      if s.pending > 0 {
        OwnAfterOne(stream, s, o);
        AwaitReaches(stream,
          Session(s.position + 1, if stream[s.position] == Result then s.pending - 1 else s.pending), budget - 1, o);
      } else {
        OwnNeverTimesOut(stream, s.position, s.position);
      }
    }
  }

  lemma {:induction false} OwnNeverTimesOut(stream: seq<Item>, from: nat, at: nat)
    requires from <= at <= |stream|
    ensures ReadOwn(stream, from, at, 0).outcome != TimedOut
    decreases |stream| - at
  {
    if at < |stream| && !Decisive(stream[at]) { OwnNeverTimesOut(stream, from, at + 1); }
  }

  /** A line that ends a turn. */
  predicate Decisive(item: Item) {
    item == Result || item == Ungoverned || item == Eof
  }

  /** No line of `[o, k)` ends a turn. */
  predicate NothingDecided(stream: seq<Item>, o: nat, k: nat)
    requires k <= |stream|
  {
    forall i :: o <= i < k ==> !Decisive(stream[i])
  }

  /** A turn that reads its own lines is decided by the first that ends a turn: the result answers it,
      an ungoverned child denies it, the end of the stream ends it, and with none of them it waits
      for good. */
  ghost predicate DecidedAt(stream: seq<Item>, o: nat, k: nat, t: Turn)
    requires o <= k <= |stream|
  {
    NothingDecided(stream, o, k) && t.from == o && t.after.pending == 0 &&
    if k == |stream| then t.outcome == Hung && t.to == t.after.position == k
    else if stream[k] == Result then t.outcome == Answered && t.to == t.after.position == k + 1
    else if stream[k] == Ungoverned then t.outcome == Denied && t.to == t.after.position == k + 1
    else stream[k] == Eof && t.outcome == Ended && t.to == k && t.after.position == k + 1
  }

  lemma {:induction false} OwnExactly(stream: seq<Item>, o: nat, at: nat) returns (k: nat)
    requires o <= at <= |stream| && NothingDecided(stream, o, at)
    ensures o <= k <= |stream| && DecidedAt(stream, o, k, ReadOwn(stream, o, at, 0))
    decreases |stream| - at
  {
    k := at;
    if at < |stream| && !Decisive(stream[at]) { k := OwnExactly(stream, o, at + 1); }
  }

  /** A turn times out exactly when what is left to discard after the drain uses up the time for the
      first token; otherwise it starts at its own first line, and is decided by the first line from
      there that ends a turn. */
  lemma TimesOutExactly(stream: seq<Item>, s: Session, timing: Timing, o: nat)
    requires FirstOwn(stream, s, o) && EofIsLast(stream)
    ensures var t := Send(stream, s, timing);
      && (t.outcome == TimedOut <==>
            timing.first <= if o - s.position <= timing.drain then 0 else o - s.position - timing.drain)
      && (t.outcome == TimedOut ==> t.after.position == Least(o, s.position + timing.drain + timing.first))
      && (t.outcome != TimedOut ==> exists k :: o <= k <= |stream| && DecidedAt(stream, o, k, t))
  {
    DrainReaches(stream, s, timing.drain, o);
    AwaitReaches(stream, Drain(stream, s, timing.drain), timing.first, o);
    var k := OwnExactly(stream, o, o);
  }

  function Least(a: nat, b: nat): nat {
    if a <= b then a else b
  }

  /** The stream holds no line of the turn sent from `s`: what is left of it belongs to earlier turns. */
  predicate NoOwn(stream: seq<Item>, s: Session) {
    forall o :: s.position <= o < |stream| ==> !FirstOwn(stream, s, o)
  }

  lemma NoOwnAfterOne(stream: seq<Item>, s: Session)
    requires NoOwn(stream, s) && s.pending > 0 && s.position < |stream|
    ensures NoOwn(stream,
              Session(s.position + 1, if stream[s.position] == Result then s.pending - 1 else s.pending))
  {
    var t := Session(s.position + 1, if stream[s.position] == Result then s.pending - 1 else s.pending);
    forall o | t.position <= o < |stream| ensures !FirstOwn(stream, t, o) {
      assert FirstOwn(stream, t, o) ==> FirstOwn(stream, s, o);
    }
  }

  /** Results are owed that the stream does not hold. */
  predicate OwesForGood(stream: seq<Item>, s: Session)
    requires s.position <= |stream|
  {
    TurnOf(stream, |stream|) < TurnOf(stream, s.position) + s.pending
  }

  predicate Closes(stream: seq<Item>) {
    stream != [] && stream[|stream| - 1] == Eof
  }

  /** How far a turn without a line of its own can discard: the end of the stream is discarded too,
      but only by a drain, and only while a result is owed. */
  function Reach(stream: seq<Item>, s: Session): nat
    requires s.position <= |stream|
  {
    if Closes(stream) && s.position < |stream| && !OwesForGood(stream, s) then |stream| - 1 else |stream|
  }

  lemma NothingOwedAtTheEnd(stream: seq<Item>, s: Session)
    requires NoOwn(stream, s) && EofIsLast(stream) && s.position < |stream|
    ensures s.pending == 0 ==> s.position == |stream| - 1 && Closes(stream) && !OwesForGood(stream, s)
    ensures s.pending > 0 && s.position == |stream| - 1 && Closes(stream) ==> OwesForGood(stream, s)
  {
    assert !FirstOwn(stream, s, s.position);
  }

  lemma {:induction false} DrainToTheEnd(stream: seq<Item>, s: Session, budget: nat)
    requires NoOwn(stream, s) && EofIsLast(stream) && s.position <= |stream|
    ensures var t := Drain(stream, s, budget);
      && NoOwn(stream, t) && t.position == Least(Reach(stream, s), s.position + budget)
    decreases budget
  {
    if s.position < |stream| {
      NothingOwedAtTheEnd(stream, s);
      if s.pending > 0 && budget > 0 && stream[s.position] != Eof {
        NoOwnAfterOne(stream, s);
        DrainToTheEnd(stream,
          Session(s.position + 1, if stream[s.position] == Result then s.pending - 1 else s.pending), budget - 1);
      }
    }
  }

  /** The turn met the end of the stream in place of its first line. */
  predicate EndedAt(t: Turn, e: nat) {
    t.outcome == Ended && t.from == t.to == e && t.after.position == e + 1
  }

  lemma {:induction false} AwaitToTheEnd(stream: seq<Item>, s: Session, budget: nat)
    requires NoOwn(stream, s) && EofIsLast(stream) && s.position <= |stream|
    ensures var t, e := Await(stream, s, budget), if Closes(stream) then |stream| - 1 else |stream|;
      if Closes(stream) && s.position <= e && e - s.position < budget then EndedAt(t, e)
      else
        && t.outcome == TimedOut
        && t.after.position == if s.position <= e then Least(e, s.position + budget) else s.position
    decreases budget
  {
    if s.position < |stream| {
      NothingOwedAtTheEnd(stream, s);
      if s.pending > 0 && budget > 0 && stream[s.position] != Eof {
        NoOwnAfterOne(stream, s);
        AwaitToTheEnd(stream,
          Session(s.position + 1, if stream[s.position] == Result then s.pending - 1 else s.pending), budget - 1);
      }
    }
  }

  /** A turn without a line of its own ends exactly when the stream closes, the drain leaves its end
      unread, and what is left to discard then leaves time to meet it; otherwise it times out. The
      drain leaves the end unread unless more is owed than the stream holds: it then takes the end
      for one more line, so that even a closed stream is answered by a timeout. */
  lemma MeetsTheEndExactly(stream: seq<Item>, s: Session, timing: Timing)
    requires NoOwn(stream, s) && EofIsLast(stream) && s.position <= |stream|
    ensures var t := Send(stream, s, timing);
      if Closes(stream) && s.position < |stream|
         && (OwesForGood(stream, s) ==> timing.drain < |stream| - s.position)
         && (timing.drain + timing.first >= |stream| - s.position && timing.first > 0)
      then EndedAt(t, |stream| - 1)
      else
        t.outcome == TimedOut
        && t.after.position == Least(Reach(stream, s), s.position + timing.drain + timing.first)
  {
    DrainToTheEnd(stream, s, timing.drain);
    AwaitToTheEnd(stream, Drain(stream, s, timing.drain), timing.first);
  }

  // ---- the session in place

  /** `_send_turn` over the line queue. `stream` stands for everything the child will ever
      write; `position` for how much of it the session has taken from the queue. */
  class ClaudeSession {
    const stream: seq<Item>
    var position: nat
    var queueStarted: bool
    var pending: nat

    predicate Valid()
      reads this
    {
      position <= |stream| && EofIsLast(stream) && (!queueStarted ==> position == 0 && pending == 0)
    }

    function View(): Session
      reads this
    {
      Session(position, pending)
    }

    constructor (stream: seq<Item>)
      requires EofIsLast(stream)
      ensures this.stream == stream && Valid() && View() == Session(0, 0)
    {
      this.stream := stream;
      position, queueStarted, pending := 0, false, 0;
    }

    /** Discard what abandoned turns still owe, until the drain deadline. */
    method DrainAbandoned(budget: nat)
      requires position <= |stream|
      modifies this`position, this`pending
      ensures position <= |stream| && View() == Drain(stream, old(View()), budget)
    {
      var owed, left := pending, budget;
      while owed > 0 && left > 0 && position < |stream|
        invariant position <= |stream|
        invariant Drain(stream, Session(position, owed), left) == Drain(stream, old(View()), budget)
        decreases left
      {
        var item := stream[position];
        position := position + 1;
        if item == Eof { break; }
        if item == Result { owed := owed - 1; }
        left := left - 1;
      }
      pending := owed;
    }

    method SendTurn(timing: Timing) returns (outcome: Outcome, from: nat, to: nat)
      requires Valid()
      modifies this
      ensures Valid()
      ensures Send(stream, old(View()), timing) == Turn(outcome, from, to, View())
    {
      if !queueStarted {
        queueStarted := true;
      } else if pending > 0 {
        DrainAbandoned(timing.drain);
      }
      ghost var start := View();
      var left := timing.first;
      while true
        invariant position <= |stream| && queueStarted
        invariant Await(stream, View(), left) == Await(stream, start, timing.first)
        decreases left
      {
        if left == 0 || position == |stream| {
          pending := pending + 1;
          return TimedOut, position, position;
        }
        var item := stream[position];
        if item == Eof {
          position := position + 1;
          return Ended, position - 1, position - 1;
        }
        if pending == 0 { break; }
        position := position + 1;
        if item == Result { pending := pending - 1; }
        left := left - 1;
      }
      from := position;
      while position < |stream|
        invariant from <= position <= |stream| && pending == 0 && queueStarted
        invariant ReadOwn(stream, from, position, 0) == ReadOwn(stream, from, from, 0)
      {
        var item := stream[position];
        position := position + 1;
        if item == Eof { return Ended, from, position - 1; }
        if item == Result { return Answered, from, position; }
        if item == Ungoverned { return Denied, from, position; }
      }
      return Hung, from, position;
    }
  }
}
