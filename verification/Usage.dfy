/**
 Codex reports usage as counters that only grow over a thread; a turn's share is the
 difference to the reading before it. What the differences add up to, and when they are
 refused.
 */
module Usage {
  import opened Text

  /** A counter, or a value of another JSON type (a boolean is not a counter). */
  datatype Field = Count(n: int) | NotCount

  type Reading = map<string, Field>

  datatype Baseline = Fresh | Seeded | Unseeded

  datatype Meter = Meter(previous: Option<Reading>, baseline: Baseline)

  datatype Share = Unknown | Incomparable | Delta(fields: Reading)

  /** A field's running total; a field that is absent or no counter stands at zero. */
  function Level(r: Reading, f: string): int {
    if f in r && r[f].Count? then r[f].n else 0
  }

  function LevelOf(previous: Option<Reading>, f: string): int {
    if previous.Some? then Level(previous.value, f) else 0
  }

  predicate Counted(r: Reading, f: string) {
    f in r && r[f].Count?
  }

  /** Some counter of the new reading is below the old one. */
  predicate Fell(before: Reading, now: Reading) {
    exists f :: f in now && Counted(now, f) && now[f].n < Level(before, f)
  }

  function Difference(before: Reading, now: Reading): Reading {
    map f | f in now && Counted(now, f) :: Count(now[f].n - Level(before, f))
  }

  /** `_turn_usage`: the turn's share, and the meter afterwards. */
  function Measure(m: Meter, reading: Option<Reading>): (Share, Meter) {
    match reading
    case None => (Unknown, m)
    case Some(now) =>
      match m.previous
      case None =>
        if m.baseline == Unseeded then (Incomparable, Meter(Some(now), Fresh))
        else (Delta(now), m.(previous := Some(now)))
      case Some(before) =>
        (if Fell(before, now) then Incomparable else Delta(Difference(before, now)),
         m.(previous := Some(now)))
  }

  /** The counter a reading carries for a field, or zero. */
  function CounterOf(r: Option<Reading>, f: string): int {
    if r.Some? && f in r.value && r.value[f].Count? then r.value[f].n else 0
  }

  /** What every reading gives, with and without a baseline: nothing without a reading; the whole
      first reading of a fresh thread, and no figure for the first of a resumed one whose past is
      unknown; then no figure exactly when a counter fell, and else each counter's growth. */
  lemma ShareExactly(m: Meter, reading: Option<Reading>)
    ensures var (share, after) := Measure(m, reading);
      if reading.None? then share == Unknown && after == m
      else
        var now := reading.value;
        && after.previous == Some(now)
        && after.baseline == (if m.previous.None? && m.baseline == Unseeded then Fresh else m.baseline)
        && if m.previous.None? then share == (if m.baseline == Unseeded then Incomparable else Delta(now))
           else if exists f :: f in now && now[f].Count? && now[f].n < CounterOf(m.previous, f) then
             share == Incomparable
           else
             && share.Delta? && (forall f :: f in share.fields <==> f in now && now[f].Count?)
             && forall f :: f in share.fields ==> share.fields[f] == Count(now[f].n - CounterOf(m.previous, f))
  {
    if reading.Some? && m.previous.Some? {
      var now := reading.value;
      forall f ensures LevelOf(m.previous, f) == CounterOf(m.previous, f) {
      }
      if f :| f in now && now[f].Count? && now[f].n < CounterOf(m.previous, f) {
        assert Counted(now, f) && now[f].n < Level(m.previous.value, f);
      }
    }
  }

  // ---- runs of readings

  function Amount(share: Share, f: string): int {
    if share.Delta? then Level(share.fields, f) else 0
  }

  function After(m: Meter, rs: seq<Option<Reading>>): Meter {
    if rs == [] then m else Measure(After(m, rs[..|rs| - 1]), rs[|rs| - 1]).1
  }

  function ShareAt(m: Meter, rs: seq<Option<Reading>>, i: nat): Share
    requires i < |rs|
  {
    Measure(After(m, rs[..i]), rs[i]).0
  }

  /** Everything the run reported for a field. */
  function Total(m: Meter, rs: seq<Option<Reading>>, f: string): int {
    if rs == [] then 0
    else Total(m, rs[..|rs| - 1], f) + Amount(ShareAt(m, rs, |rs| - 1), f)
  }

  /** What a field stood at whenever a reading dropped it: growth a later reading counts again. */
  function Dropped(m: Meter, rs: seq<Option<Reading>>, f: string): int {
    if rs == [] then 0
    else
      var last := rs[|rs| - 1];
      Dropped(m, rs[..|rs| - 1], f)
      + if last.Some? && !Counted(last.value, f) then LevelOf(After(m, rs[..|rs| - 1]).previous, f) else 0
  }

  predicate Comparable(m: Meter, rs: seq<Option<Reading>>) {
    forall i :: 0 <= i < |rs| ==> ShareAt(m, rs, i) != Incomparable
  }

  /** Conservation, exactly: between two incomparable turns the shares of a field add up to
      its growth since the baseline, plus whatever it stood at when a reading left it out. */
  lemma {:induction false} SharesAddUp(m: Meter, rs: seq<Option<Reading>>, f: string)
    requires Comparable(m, rs)
    ensures Total(m, rs, f) == LevelOf(After(m, rs).previous, f) - LevelOf(m.previous, f) + Dropped(m, rs, f)
  {
    if rs != [] {
      var front := rs[..|rs| - 1];
      assert forall i :: 0 <= i < |front| ==> front[..i] == rs[..i];
      assert Comparable(m, front) by {
        forall i | 0 <= i < |front| ensures ShareAt(m, front, i) != Incomparable {
          assert ShareAt(m, front, i) == ShareAt(m, rs, i);
        }
      }
      SharesAddUp(m, front, f);
      assert ShareAt(m, rs, |rs| - 1) == Measure(After(m, front), rs[|rs| - 1]).0;
      OneShare(After(m, front), rs[|rs| - 1], f);
    }
  }

  lemma OneShare(m: Meter, reading: Option<Reading>, f: string)
    requires Measure(m, reading).0 != Incomparable
    ensures var (share, after) := Measure(m, reading);
      Amount(share, f) == LevelOf(after.previous, f) - LevelOf(m.previous, f)
                          + (if reading.Some? && !Counted(reading.value, f) then LevelOf(m.previous, f) else 0)
  {
  }

  predicate NonNegative(r: Reading) {
    forall f :: f in r && r[f].Count? ==> r[f].n >= 0
  }

  predicate AllNonNegative(m: Meter, rs: seq<Option<Reading>>) {
    (m.previous.Some? ==> NonNegative(m.previous.value))
    && forall i :: 0 <= i < |rs| && rs[i].Some? ==> NonNegative(rs[i].value)
  }

  /** Reading `i` leaves out a field that stood above zero. */
  predicate Drops(m: Meter, rs: seq<Option<Reading>>, i: nat, f: string)
    requires i < |rs|
  {
    rs[i].Some? && !Counted(rs[i].value, f) && LevelOf(After(m, rs[..i]).previous, f) > 0
  }

  lemma {:induction false} LevelsStayNonNegative(m: Meter, rs: seq<Option<Reading>>, f: string)
    requires AllNonNegative(m, rs)
    ensures LevelOf(After(m, rs).previous, f) >= 0
  {
    if rs != [] {
      LevelsStayNonNegative(m, rs[..|rs| - 1], f);
    }
  }

  lemma {:induction false} DroppedIsZero(m: Meter, rs: seq<Option<Reading>>, f: string)
    requires AllNonNegative(m, rs)
    ensures Dropped(m, rs, f) >= 0
    ensures Dropped(m, rs, f) == 0 <==> forall i :: 0 <= i < |rs| ==> !Drops(m, rs, i, f)
  {
    if rs != [] {
      var front, n := rs[..|rs| - 1], |rs| - 1;
      assert forall i :: 0 <= i < |front| ==> front[..i] == rs[..i];
      DroppedIsZero(m, front, f);
      LevelsStayNonNegative(m, front, f);
      assert rs[..n] == front;
      forall i | 0 <= i < n ensures Drops(m, rs, i, f) <==> Drops(m, front, i, f) {
        assert front[..i] == rs[..i] && front[i] == rs[i];
      }
      assert Dropped(m, rs, f) == 0 <==> Dropped(m, front, f) == 0 && !Drops(m, rs, n, f);
    }
  }

  /** For non-negative counters the shares of a field sum to the last reading minus the
      baseline exactly when no reading leaves the field out while it stands above zero. */
  lemma ConservedExactly(m: Meter, rs: seq<Option<Reading>>, f: string)
    requires Comparable(m, rs) && AllNonNegative(m, rs)
    ensures Total(m, rs, f) == LevelOf(After(m, rs).previous, f) - LevelOf(m.previous, f) <==>
            forall i :: 0 <= i < |rs| ==> !Drops(m, rs, i, f)
  {
    SharesAddUp(m, rs, f);
    DroppedIsZero(m, rs, f);
  }

  /** A dropped field is counted twice: 5, then absent, then 7 reports 5 + 0 + 7. */
  lemma DroppedFieldCountsTwice()
    ensures var m := Meter(None, Fresh);
      var rs := [Some(map["in" := Count(5)]), Some(map[]), Some(map["in" := Count(7)])];
      Comparable(m, rs) && Total(m, rs, "in") == 12 && LevelOf(After(m, rs).previous, "in") == 7
  {
    var m := Meter(None, Fresh);
    var a: Reading, b: Reading, c: Reading := map["in" := Count(5)], map[], map["in" := Count(7)];
    var rs := [Some(a), Some(b), Some(c)];
    assert rs[..0] == [] && rs[..1] == [Some(a)] && rs[..2] == [Some(a), Some(b)];
    assert [Some(a)][..0] == [] && [Some(a), Some(b)][..1] == [Some(a)];
    assert After(m, []) == m;
    assert Measure(m, Some(a)) == (Delta(a), m.(previous := Some(a)));
    assert After(m, [Some(a)]) == m.(previous := Some(a));
    assert Measure(m.(previous := Some(a)), Some(b)) == (Delta(Difference(a, b)), m.(previous := Some(b)));
    assert After(m, [Some(a), Some(b)]) == m.(previous := Some(b));
    assert Measure(m.(previous := Some(b)), Some(c)) == (Delta(Difference(b, c)), m.(previous := Some(c)));
    assert Total(m, [], "in") == 0 && Total(m, [Some(a)], "in") == 5 && Total(m, [Some(a), Some(b)], "in") == 5;
  }

  // ---- the session in place

  class CodexMeter {
    var cumulative: Option<Reading>
    var baseline: Baseline

    function View(): Meter
      reads this
    {
      Meter(cumulative, baseline)
    }

    /** A fresh thread starts with no baseline; a resumed one with the seed its rollout gave,
        if it gave a nonempty one. */
    constructor (resumed: bool, seed: Option<Reading>)
      ensures View() ==
              if !resumed then Meter(None, Fresh)
              else Meter(seed, if seed.Some? && seed.value != map[] then Seeded else Unseeded)
    {
      cumulative := if resumed then seed else None;
      baseline := if !resumed then Fresh else if seed.Some? && seed.value != map[] then Seeded else Unseeded;
    }

    method TurnUsage(reading: Option<Reading>) returns (share: Share)
      modifies this
      ensures (share, View()) == Measure(old(View()), reading)
    {
      if reading.None? { return Unknown; }
      var now := reading.value;
      if cumulative.None? {
        cumulative := Some(now);
        if baseline == Unseeded {
          baseline := Fresh;
          return Incomparable;
        }
        return Delta(now);
      }
      var before, delta: Reading, left := cumulative.value, map[], now.Keys;
      cumulative := Some(now);
      while left != {}
        invariant left <= now.Keys
        invariant forall f :: f in now.Keys - left && Counted(now, f) ==> now[f].n >= Level(before, f)
        invariant delta == map f | f in now.Keys - left && Counted(now, f) :: Count(now[f].n - Level(before, f))
        decreases left
      {
        var f :| f in left;
        left := left - {f};
        if Counted(now, f) {
          var grown := now[f].n - Level(before, f);
          if grown < 0 { return Incomparable; }
          delta := delta[f := Count(grown)];
        }
      }
      assert delta == Difference(before, now);
      return Delta(delta);
    }
  }
}
