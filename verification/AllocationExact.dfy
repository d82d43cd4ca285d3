/**
 The allocation grammar told on the text of an entry, and the readback gate told on any stored record.
 */
module AllocationExact {
  import opened Text
  import opened Candidate
  import opened Allocation

  // ---- keys

  /** How the grammar spells a bound. */
  function Names(slot: Slot): seq<string> {
    match slot
    case Slot(Discovery, Dispatches) => ["discovery"]
    case Slot(Discovery, Corrections) => ["discovery_corrections"]
    case Slot(Planning, Dispatches) => ["planning"]
    case Slot(Planning, Corrections) => ["planning_corrections"]
    case Slot(Build, Dispatches) => ["build"]
    case Slot(Build, Corrections) => ["build_corrections", "correction", "corrections"]
  }

  predicate SameLetter(c: char, small: char) {
    c == small || ('a' <= small <= 'z' && c as int + 32 == small as int)
  }

  /** The text is the name with any of its letters in upper case. */
  predicate Spells(text: string, name: string) {
    |text| == |name| && forall i :: 0 <= i < |text| ==> SameLetter(text[i], name[i])
  }

  ghost predicate Calls(text: string, slot: Slot) {
    exists i :: 0 <= i < |Names(slot)| && Spells(text, Names(slot)[i])
  }

  predicate SmallOrLine(name: string) {
    forall i :: 0 <= i < |name| ==> 'a' <= name[i] <= 'z' || name[i] == '_'
  }

  lemma LowerSpells(text: string, name: string)
    requires SmallOrLine(name)
    ensures Lower(text) == name <==> Spells(text, name)
  {
    if Lower(text) == name {
      forall i | 0 <= i < |text| ensures SameLetter(text[i], name[i]) {
        assert name[i] == LowerChar(text[i]);
      }
    }
    if Spells(text, name) {
      forall i | 0 <= i < |text| ensures LowerChar(text[i]) == name[i] {
        assert SameLetter(text[i], name[i]);
      }
      assert Lower(text) == name;
    }
  }

  lemma NamesAreSmall(slot: Slot)
    ensures forall i :: 0 <= i < |Names(slot)| ==> SmallOrLine(Names(slot)[i]) && Names(slot)[i] != ""
  {
    assert SmallOrLine("discovery") && SmallOrLine("planning") && SmallOrLine("build");
    assert SmallOrLine("discovery_corrections") && SmallOrLine("planning_corrections");
    assert SmallOrLine("build_corrections") && SmallOrLine("correction") && SmallOrLine("corrections");
    hide SmallOrLine;
  }

  lemma SlotOfNames(key: string, slot: Slot)
    ensures SlotOf(key) == Some(slot) <==> key in Names(slot)
  {
  }

  lemma CallsExactly(text: string, slot: Slot)
    ensures SlotOf(Lower(text)) == Some(slot) <==> Calls(text, slot)
  {
    SlotOfNames(Lower(text), slot);
    NamesAreSmall(slot);
    hide SlotOf, Lower, Names, Spells;
    var names := Names(slot);
    forall i | 0 <= i < |names| ensures Lower(text) == names[i] <==> Spells(text, names[i]) {
      LowerSpells(text, names[i]);
    }
  }

  lemma CallsIsText(text: string, slot: Slot)
    requires Calls(text, slot)
    ensures Trimmed(text) && '=' !in text
  {
    NamesAreSmall(slot);
    hide Names;
    var i :| 0 <= i < |Names(slot)| && Spells(text, Names(slot)[i]);
    assert forall k :: 0 <= k < |text| ==> SameLetter(text[k], Names(slot)[i][k]);
  }

  // ---- numerals

  lemma {:induction false} DecimalOfValue(v: string)
    requires AllDigits(v) && v != "" && (v == "0" || v[0] != '0')
    ensures Decimal(Value(v)) == v
  {
    var front, d := v[..|v| - 1], v[|v| - 1] as int - '0' as int;
    assert v == front + [DigitOf(d)];
    if front != "" {
      DecimalOfValue(front);
      assert Value(v) / 10 == Value(front) && Value(v) % 10 == d;
    }
  }

  /** The numerals of the grammar are those that `%d` prints, up to seven digits. */
  lemma NumeralsExactly(v: string, n: nat)
    ensures IsNumeral(v) && Value(v) == n <==> v == Decimal(n) && n < 10000000
  {
    if IsNumeral(v) {
      DecimalOfValue(v);
      NumeralExactly(Value(v));
    }
    NumeralExactly(n);
    ValueOfDecimal(n);
  }

  lemma NumeralIsText(n: nat)
    ensures Trimmed(Decimal(n)) && '=' !in Decimal(n)
  {
    NumeralIsPlain(n);
  }

  // ---- entries

  /** The text of an entry: a key and a numeral, with whitespace anywhere but inside them. */
  ghost predicate Writes(raw: string, key: string, value: string) {
    exists a, b, c, d :: Spaced(raw, a, key, b, c, value, d)
  }

  predicate Spaced(raw: string, a: string, key: string, b: string, c: string, value: string, d: string) {
    AllSpace(a) && AllSpace(b) && AllSpace(c) && AllSpace(d) && raw == a + key + b + "=" + c + value + d
  }

  lemma EqualsIsNoSpace(s: string)
    requires AllSpace(s)
    ensures '=' !in s
  {
  }

  lemma {:induction false} SplitOnce(item: string, p: string, q: string)
    ensures Split(item, '=') == [p, q] <==> item == p + "=" + q && '=' !in p && '=' !in q
  {
    if '=' !in p && '=' !in q && item == p + "=" + q {
      SplitApart(p, q, '=');
      SplitApart(q, "", '=');
    }
    if Split(item, '=') == [p, q] { SplitParts(item, '='); }
  }

  lemma {:induction false} SplitParts(s: string, c: char)
    ensures Join(Split(s, c), c) == s
    ensures forall i :: 0 <= i < |Split(s, c)| ==> c !in Split(s, c)[i]
  {
    if s != "" {
      SplitParts(s[1..], c);
      var rest := Split(s[1..], c);
      if s[0] == c {
        assert ([""] + rest)[1..] == rest;
        assert s == "" + [c] + s[1..];
      } else {
        assert ([[s[0]] + rest[0]] + rest[1..])[1..] == rest[1..];
        assert s == [s[0]] + s[1..];
      }
    }
  }

  /** Exactly which texts set a bound to a number. */
  lemma EntryExactly(raw: string, slot: Slot, n: nat)
    ensures Entry(raw) == Ok((slot, n)) <==>
            n < 10000000 && exists key :: Calls(key, slot) && Writes(raw, key, Decimal(n))
  {
    if Entry(raw) == Ok((slot, n)) { EntryIsWritten(raw, slot, n); }
    if n < 10000000 {
      if key :| Calls(key, slot) && Writes(raw, key, Decimal(n)) { WrittenIsEntry(raw, key, slot, n); }
    }
  }

  /** The two sides of an entry, as the parser sees them. */
  predicate Reads(raw: string, slot: Slot, n: nat, p: string, q: string) {
    && Strip(raw) != "" && Split(Strip(raw), '=') == [p, q]
    && SlotOf(Lower(Strip(p))) == Some(slot) && IsNumeral(Strip(q)) && Value(Strip(q)) == n
  }

  lemma EntryReads(raw: string, slot: Slot, n: nat)
    ensures Entry(raw) == Ok((slot, n)) ==> exists p, q :: Reads(raw, slot, n, p, q)
    ensures (exists p, q :: Reads(raw, slot, n, p, q)) ==> Entry(raw) == Ok((slot, n))
  {
    hide Strip, Split, SlotOf, Lower, IsNumeral, Value;
    if Entry(raw) == Ok((slot, n)) {
      var parts := Split(Strip(raw), '=');
      assert parts == [parts[0], parts[1]];
      assert Reads(raw, slot, n, parts[0], parts[1]);
    }
  }

  lemma EntryIsWritten(raw: string, slot: Slot, n: nat)
    requires Entry(raw) == Ok((slot, n))
    ensures n < 10000000 && exists key :: Calls(key, slot) && Writes(raw, key, Decimal(n))
  {
    EntryReads(raw, slot, n);
    var p, q :| Reads(raw, slot, n, p, q);
    CallsExactly(Strip(p), slot);
    NumeralsExactly(Strip(q), n);
    CallsIsText(Strip(p), slot);
    NumeralIsText(n);
    SplitOnce(Strip(raw), p, q);
    SidesAreWritten(raw, p, q);
  }

  lemma SidesAreWritten(raw: string, p: string, q: string)
    requires Strip(raw) == p + "=" + q && Strip(p) != "" && Strip(q) != ""
    ensures Writes(raw, Strip(p), Strip(q))
  {
    hide Strip, AllSpace, Trimmed;
    StripExactly(raw, p + "=" + q);
    StripExactly(p, Strip(p));
    StripExactly(q, Strip(q));
    var a, d :| Around(raw, a, p + "=" + q, d);
    var a1, b :| Around(p, a1, Strip(p), b);
    var c, d1 :| Around(q, c, Strip(q), d1);
    SpaceConcat(a, a1);
    SpaceConcat(d1, d);
    OneLine(a, a1, Strip(p), b, c, Strip(q), d1, d);
    assert Spaced(raw, a + a1, Strip(p), b, c, Strip(q), d1 + d);
  }

  lemma OneLine(a: string, a1: string, k: string, b: string, c: string, v: string, d1: string, d: string)
    ensures a + (a1 + k + b + "=" + (c + v + d1)) + d == (a + a1) + k + b + "=" + c + v + (d1 + d)
  {
  }

  lemma SpaceConcat(a: string, b: string)
    requires AllSpace(a) && AllSpace(b)
    ensures AllSpace(a + b)
  {
  }

  lemma WrittenIsEntry(raw: string, key: string, slot: Slot, n: nat)
    requires n < 10000000 && Calls(key, slot) && Writes(raw, key, Decimal(n))
    ensures Entry(raw) == Ok((slot, n))
  {
    var value := Decimal(n);
    var a, b, c, d :| Spaced(raw, a, key, b, c, value, d);
    CallsExactly(key, slot);
    NumeralsExactly(value, n);
    NumeralIsText(n);
    CallsIsText(key, slot);
    WrittenHasSides(raw, a, key, b, c, value, d);
    hide Strip, Split, SlotOf, Lower, IsNumeral, Value, Calls, Decimal, Spaced;
    assert Reads(raw, slot, n, key + b, c + value);
    EntryReads(raw, slot, n);
  }

  lemma WrittenHasSides(raw: string, a: string, key: string, b: string, c: string, value: string, d: string)
    requires Spaced(raw, a, key, b, c, value, d)
    requires Trimmed(key) && Trimmed(value) && '=' !in key && '=' !in value
    ensures Strip(raw) != "" && Split(Strip(raw), '=') == [key + b, c + value]
    ensures Strip(key + b) == key && Strip(c + value) == value
  {
    var p, q := key + b, c + value;
    var item := p + "=" + q;
    EqualsIsNoSpace(b);
    EqualsIsNoSpace(c);
    assert AllSpace("");
    hide AllSpace, IsSpace, Strip, Split;
    assert item[0] == key[0] && item[|item| - 1] == value[|value| - 1];
    assert raw == a + item + d;
    assert Around(raw, a, item, d);
    StripExactly(raw, item);
    SplitOnce(item, p, q);
    assert p == "" + key + b && q == c + value + "";
    assert Around(p, "", key, b) && Around(q, c, value, "");
    StripExactly(p, key);
    StripExactly(q, value);
  }

  // ---- refusals

  /** The text has exactly one equals sign, between these two. */
  predicate Sides(item: string, p: string, q: string) {
    item == p + "=" + q && '=' !in p && '=' !in q
  }

  lemma SidesExactly(item: string)
    ensures forall p, q :: Split(item, '=') == [p, q] <==> Sides(item, p, q)
    ensures |Split(item, '=')| == 2 ==> Sides(item, Split(item, '=')[0], Split(item, '=')[1])
  {
    hide Split;
    forall p, q ensures Split(item, '=') == [p, q] <==> Sides(item, p, q) { SplitOnce(item, p, q); }
    if |Split(item, '=')| == 2 {
      assert Split(item, '=') == [Split(item, '=')[0], Split(item, '=')[1]];
    }
  }

  lemma SlotsExactly()
    ensures forall text, slot :: SlotOf(Lower(text)) == Some(slot) <==> Calls(text, slot)
  {
    forall text, slot ensures SlotOf(Lower(text)) == Some(slot) <==> Calls(text, slot) { CallsExactly(text, slot); }
  }

  /** Why an entry is refused: it is not one key and one value, then its key, then its value. */
  lemma EntryRefusedExactly(raw: string)
    ensures Entry(raw).Err? && Entry(raw).reason == Malformed <==> forall p, q :: !Sides(Strip(raw), p, q)
    ensures forall p, q :: Sides(Strip(raw), p, q) ==>
              (Entry(raw) == Err(UnknownKey) <==> forall slot :: !Calls(Strip(p), slot))
    ensures Entry(raw).Err? ==> Entry(raw).reason in {Malformed, UnknownKey, MalformedValue}
  {
    var item := Strip(raw);
    SidesExactly(item);
    SlotsExactly();
    hide Strip, Split, SlotOf, Lower, IsNumeral, Value, Calls, AllDigits;
    assert item == "" ==> forall p, q :: !Sides(item, p, q);
    forall p, q | Sides(item, p, q)
      ensures Entry(raw) == Err(UnknownKey) <==> forall slot :: !Calls(Strip(p), slot)
    {
      assert Split(item, '=') == [p, q];
      if slot :| Calls(Strip(p), slot) { assert SlotOf(Lower(Strip(p))) == Some(slot); }
      if SlotOf(Lower(Strip(p))).Some? { assert Calls(Strip(p), SlotOf(Lower(Strip(p))).value); }
    }
  }

  /** The entry of this number is the first that cannot be taken: it is refused itself, or sets what an
      earlier one, or a limit there before, has set. */
  ghost predicate StopsAt(items: seq<string>, limits: Limits, k: nat, reason: Reason) {
    && k < |items| && Distinct(items[..k], limits)
    && match Entry(items[k])
       case Err(why) => reason == why
       case Ok((slot, _)) =>
         reason == DuplicateKey
         && (slot in limits || exists i :: 0 <= i < k && Entry(items[i]).Ok? && SlotAt(items, i) == slot)
  }

  lemma {:induction false} ItemsRefusedExactly(items: seq<string>, limits: Limits)
    requires ParseItems(items, limits).Err?
    ensures exists k: nat :: StopsAt(items, limits, k, ParseItems(items, limits).reason)
  {
    hide Entry;
    var e, reason := Entry(items[0]), ParseItems(items, limits).reason;
    if e.Err? || e.value.0 in limits {
      assert items[..0] == [];
      assert StopsAt(items, limits, 0, reason);
    } else {
      var rest, next := items[1..], limits[e.value.0 := e.value.1];
      ItemsRefusedExactly(rest, next);
      var k: nat :| StopsAt(rest, next, k, reason);
      LaterStop(items, limits, k, reason);
    }
  }

  lemma LaterStop(items: seq<string>, limits: Limits, k: nat, reason: Reason)
    requires items != [] && Entry(items[0]).Ok? && Entry(items[0]).value.0 !in limits
    requires StopsAt(items[1..], limits[Entry(items[0]).value.0 := Entry(items[0]).value.1], k, reason)
    ensures StopsAt(items, limits, k + 1, reason)
  {
    hide Entry;
    var rest, first := items[1..], Entry(items[0]).value.0;
    assert items[..k + 1][1..] == rest[..k] && items[..k + 1][0] == items[0];
    HeadAndTail(items[..k + 1], limits);
    hide Distinct;
    assert rest[k] == items[k + 1];
    match Entry(rest[k])
    case Err(_) =>
    case Ok((slot, _)) =>
      if slot == first {
        assert SlotAt(items, 0) == slot;
      } else if slot !in limits {
        var i :| 0 <= i < k && Entry(rest[i]).Ok? && SlotAt(rest, i) == slot;
        assert SlotAt(items, i + 1) == slot;
      }
  }

  /** A text is refused for being blank, or for the first entry that cannot be taken. */
  lemma RefusedExactly(spec: string)
    requires Parse(spec).Err?
    ensures if Strip(spec) == "" then Parse(spec).reason == Empty
            else exists k: nat :: StopsAt(Split(Strip(spec), ','), map[], k, Parse(spec).reason)
  {
    var items := Split(Strip(spec), ',');
    hide Entry, Split, ParseItems;
    if Strip(spec) != "" {
      ItemsAreSet(items, map[]);
      if ParseItems(items, map[]).Ok? {
        var l := ParseItems(items, map[]).value;
        assert l != map[] by { assert SlotAt(items, 0) in l; }
        ReadbackExactly(l);
      } else {
        ItemsRefusedExactly(items, map[]);
      }
    }
  }

  // ---- the readback gate

  /** What a stored record says of one bound: nothing, or a number that is not negative. */
  predicate SaysBound(entry: map<string, Json>, key: string) {
    key in entry && entry[key] != Null ==> entry[key].Num? && entry[key].n >= 0
  }

  /** The record says nothing of the phase, or gives it an object with bounds alone. */
  predicate PhaseInOrder(fields: map<string, Json>, name: string) {
    name in fields && fields[name] != Null ==>
      && fields[name].Obj?
      && (forall key :: key in fields[name].fields ==> key == "dispatches" || key == "corrections")
      && SaysBound(fields[name].fields, "dispatches") && SaysBound(fields[name].fields, "corrections")
  }

  /** The number the record gives for a bound, if any. */
  function Told(fields: map<string, Json>, slot: Slot): Option<int> {
    var name, key := PhaseName(slot.phase), FieldName(slot.field);
    if name in fields && fields[name].Obj? && key in fields[name].fields && fields[name].fields[key].Num?
    then Some(fields[name].fields[key].n) else None
  }

  /** The limits are just the numbers the record gives. */
  ghost predicate Tells(fields: map<string, Json>, limits: Limits) {
    forall slot: Slot :: Told(fields, slot) == if slot in limits then Some(limits[slot] as int) else None
  }

  /** The limits with what the record gives for one bound. */
  ghost predicate Adds(fields: map<string, Json>, slot: Slot, before: Limits, after: Limits) {
    after == match Told(fields, slot) case None => before case Some(n) => if n >= 0 then before[slot := n] else before
  }

  lemma FieldExactly(fields: map<string, Json>, slot: Slot, limits: Limits)
    ensures var v, name := ValidateField(fields, slot, limits), PhaseName(slot.phase);
      && (v.Ok? <==> (name in fields && fields[name].Obj? ==> SaysBound(fields[name].fields, FieldName(slot.field))))
      && (v.Ok? ==> Adds(fields, slot, limits, v.value))
  {
  }

  lemma PhaseExactly(fields: map<string, Json>, p: Phase, limits: Limits)
    ensures var v := ValidatePhase(fields, p, limits);
      && (v.Ok? <==> PhaseInOrder(fields, PhaseName(p)))
      && (v.Ok? ==> exists mid ::
            Adds(fields, Slot(p, Dispatches), limits, mid) && Adds(fields, Slot(p, Corrections), mid, v.value))
  {
    var name := PhaseName(p);
    FieldExactly(fields, Slot(p, Dispatches), limits);
    var first := ValidateField(fields, Slot(p, Dispatches), limits);
    if first.Ok? { FieldExactly(fields, Slot(p, Corrections), first.value); }
    hide ValidateField, SaysBound, PhaseName;
    if name in fields && fields[name].Obj? {
      assert fields[name].fields.Keys <= {"dispatches", "corrections"} <==>
        forall key :: key in fields[name].fields ==> key == "dispatches" || key == "corrections";
    } else {
      assert Adds(fields, Slot(p, Dispatches), limits, limits) && Adds(fields, Slot(p, Corrections), limits, limits);
    }
  }

  lemma AddsTold(fields: map<string, Json>, limits: seq<Limits>)
    requires |limits| == 7 && limits[0] == map[]
    requires forall i :: 0 <= i < 6 ==> Adds(fields, SLOTS[i], limits[i], limits[i + 1])
    requires forall slot :: Told(fields, slot).Some? ==> Told(fields, slot).value >= 0
    ensures Tells(fields, limits[6])
  {
    hide Told;
    AddedUpTo(fields, limits, 6);
    forall slot: Slot ensures slot in SLOTS[..6] {
      EverySlotIsListed(slot);
      assert SLOTS[..6] == SLOTS;
    }
  }

  lemma {:induction false} AddedUpTo(fields: map<string, Json>, limits: seq<Limits>, k: nat)
    requires |limits| == 7 && limits[0] == map[] && k <= 6
    requires forall i :: 0 <= i < 6 ==> Adds(fields, SLOTS[i], limits[i], limits[i + 1])
    requires forall slot :: Told(fields, slot).Some? ==> Told(fields, slot).value >= 0
    ensures forall slot :: slot in limits[k] <==> slot in SLOTS[..k] && Told(fields, slot).Some?
    ensures forall slot :: slot in limits[k] ==> Told(fields, slot) == Some(limits[k][slot] as int)
  {
    hide Told;
    if k > 0 {
      AddedUpTo(fields, limits, k - 1);
      assert Adds(fields, SLOTS[k - 1], limits[k - 1], limits[k]);
      assert SLOTS[..k] == SLOTS[..k - 1] + [SLOTS[k - 1]];
    }
  }

  lemma TellsOnce(fields: map<string, Json>, a: Limits, b: Limits)
    requires Tells(fields, a) && Tells(fields, b)
    ensures a == b
  {
    hide Told;
    forall slot: Slot ensures slot in a <==> slot in b {
      assert Told(fields, slot) == if slot in a then Some(a[slot] as int) else None;
    }
    forall slot | slot in a ensures a[slot] == b[slot] {
      assert Told(fields, slot) == Some(a[slot] as int);
    }
  }

  /** A record of known phases, each in order. */
  predicate RecordInOrder(j: Json) {
    && j.Obj? && (forall key :: key in j.fields ==> key == "discovery" || key == "planning" || key == "build")
    && PhaseInOrder(j.fields, "discovery") && PhaseInOrder(j.fields, "planning") && PhaseInOrder(j.fields, "build")
  }

  lemma PhasesExactly(fields: map<string, Json>)
    ensures var v := ValidatePhases(fields, PHASES, map[]);
      && (v.Ok? <==> forall p: Phase :: PhaseInOrder(fields, PhaseName(p)))
      && (v.Ok? ==> Tells(fields, v.value))
  {
    hide ValidatePhase, PhaseInOrder, Adds, PhaseName;
    var none: Limits := map[];
    assert PHASES[1..][0] == Planning && PHASES[1..][1..][0] == Build && PHASES[1..][1..][1..] == [];
    PhaseExactly(fields, Discovery, none);
    var one := ValidatePhase(fields, Discovery, none);
    if one.Ok? {
      PhaseExactly(fields, Planning, one.value);
      var two := ValidatePhase(fields, Planning, one.value);
      if two.Ok? {
        PhaseExactly(fields, Build, two.value);
        var three := ValidatePhase(fields, Build, two.value);
        EveryPhase(fields);
        assert ValidatePhases(fields, PHASES[1..][1..], two.value) == three;
        assert ValidatePhases(fields, PHASES[1..], one.value) == three;
        if three.Ok? {
          var a :| Adds(fields, SLOTS[0], none, a) && Adds(fields, SLOTS[1], a, one.value);
          var b :| Adds(fields, SLOTS[2], one.value, b) && Adds(fields, SLOTS[3], b, two.value);
          var c :| Adds(fields, SLOTS[4], two.value, c) && Adds(fields, SLOTS[5], c, three.value);
          var all := [none, a, one.value, b, two.value, c, three.value];
          NoneNegative(fields);
          forall i | 0 <= i < 6 ensures Adds(fields, SLOTS[i], all[i], all[i + 1]) { }
          AddsTold(fields, all);
        }
      } else {
        assert ValidatePhases(fields, PHASES[1..], one.value) == two;
      }
    }
  }

  lemma EveryPhase(fields: map<string, Json>)
    ensures (forall p: Phase :: PhaseInOrder(fields, PhaseName(p))) <==>
            && PhaseInOrder(fields, PhaseName(Discovery)) && PhaseInOrder(fields, PhaseName(Planning))
            && PhaseInOrder(fields, PhaseName(Build))
  {
    hide PhaseInOrder, PhaseName;
    if PhaseInOrder(fields, PhaseName(Discovery)) && PhaseInOrder(fields, PhaseName(Planning))
       && PhaseInOrder(fields, PhaseName(Build)) {
      forall p: Phase ensures PhaseInOrder(fields, PhaseName(p)) {
        match p case Discovery => case Planning => case Build =>
      }
    }
  }

  lemma NoneNegative(fields: map<string, Json>)
    requires forall p: Phase :: PhaseInOrder(fields, PhaseName(p))
    ensures forall slot :: Told(fields, slot).Some? ==> Told(fields, slot).value >= 0
  {
    hide PhaseName;
    forall slot: Slot | Told(fields, slot).Some? ensures Told(fields, slot).value >= 0 {
      assert PhaseInOrder(fields, PhaseName(slot.phase));
    }
  }

  /** The gate passes a stored record, whoever wrote it, exactly when it is in order and sets some
      bound; and the limits it reads are just the numbers the record gives. */
  lemma ValidatesExactly(j: Json, limits: Limits)
    ensures Validate(j) == Ok(limits) <==> RecordInOrder(j) && limits != map[] && Tells(j.fields, limits)
  {
    if j.Obj? {
      PhasesExactly(j.fields);
      EveryPhase(j.fields);
      hide ValidatePhases, PhaseInOrder, Tells;
      assert j.fields.Keys <= {"discovery", "planning", "build"} <==>
        forall key :: key in j.fields ==> key == "discovery" || key == "planning" || key == "build";
      var v := ValidatePhases(j.fields, PHASES, map[]);
      if v.Ok? && Tells(j.fields, limits) { TellsOnce(j.fields, v.value, limits); }
    }
  }

  predicate HasPhase(fields: map<string, Json>, name: string) {
    name in fields && fields[name] != Null
  }

  /** The reason a phase's entry is refused for holds of it. */
  predicate PhaseReason(fields: map<string, Json>, name: string, why: Reason) {
    && HasPhase(fields, name)
    && if why == Malformed then !fields[name].Obj?
       else
         && fields[name].Obj?
         && if why == UnknownKey then
              exists key :: key in fields[name].fields && key != "dispatches" && key != "corrections"
            else
              why == MalformedValue
              && (!SaysBound(fields[name].fields, "dispatches") || !SaysBound(fields[name].fields, "corrections"))
  }

  lemma PhaseRefused(fields: map<string, Json>, p: Phase, limits: Limits)
    requires ValidatePhase(fields, p, limits).Err?
    ensures PhaseReason(fields, PhaseName(p), ValidatePhase(fields, p, limits).reason)
  {
    hide PhaseName;
    var name := PhaseName(p);
    if fields[name].Obj? && !(fields[name].fields.Keys <= {"dispatches", "corrections"}) {
      var key :| key in fields[name].fields.Keys && key !in {"dispatches", "corrections"};
      assert key in fields[name].fields;
    }
  }

  lemma {:induction false} PhasesRefused(fields: map<string, Json>, phases: seq<Phase>, limits: Limits)
    requires ValidatePhases(fields, phases, limits).Err?
    ensures exists p: Phase :: PhaseReason(fields, PhaseName(p), ValidatePhases(fields, phases, limits).reason)
  {
    hide ValidatePhase, PhaseReason, PhaseName;
    var first := ValidatePhase(fields, phases[0], limits);
    if first.Err? {
      PhaseRefused(fields, phases[0], limits);
    } else {
      PhasesRefused(fields, phases[1..], first.value);
    }
  }

  /** A stored record is refused for a reason that holds of it. */
  lemma ReadbackRefusal(j: Json)
    requires Validate(j).Err?
    ensures match Validate(j).reason
      case Empty => RecordInOrder(j) && Tells(j.fields, map[])
      case Malformed => !j.Obj? || exists p: Phase :: PhaseReason(j.fields, PhaseName(p), Malformed)
      case UnknownKey =>
        && j.Obj?
        && ((exists key :: key in j.fields && key != "discovery" && key != "planning" && key != "build")
            || exists p: Phase :: PhaseReason(j.fields, PhaseName(p), UnknownKey))
      case MalformedValue => j.Obj? && exists p: Phase :: PhaseReason(j.fields, PhaseName(p), MalformedValue)
      case DuplicateKey => false
  {
    if j.Obj? {
      var v := ValidatePhases(j.fields, PHASES, map[]);
      if !(j.fields.Keys <= {"discovery", "planning", "build"}) {
        var key :| key in j.fields.Keys && key !in {"discovery", "planning", "build"};
        assert key in j.fields;
      } else if v.Err? {
        PhasesRefused(j.fields, PHASES, map[]);
        var p: Phase :| PhaseReason(j.fields, PhaseName(p), v.reason);
      } else {
        PhasesExactly(j.fields);
        EveryPhase(j.fields);
      }
      hide ValidatePhases, PhaseInOrder, Tells;
    }
  }

  // ---- one decision

  /** The dispatch after `n` charged ones is number `n + 1`: the phase's initial one or a correction,
      refused when the dispatches are spent, and else when it is a correction and those are. */
  lemma DecisionExactly(limits: Limits, phase: Phase, n: int)
    ensures if n < 0 then Evaluate(limits, phase, n) == Err(MalformedValue) else Evaluate(limits, phase, n).Ok?
    ensures n >= 0 ==>
              var d, c, v := Slot(phase, Dispatches), Slot(phase, Corrections), Evaluate(limits, phase, n).value;
              && v.ordinal == n + 1 && (v.kind == Initial <==> v.ordinal == 1)
              && v.ordinal == 1 + v.consumedCorrections + (if v.kind == Initial then 0 else 1)
              && (v.refusal == Some(DispatchLimitExhausted) <==> d in limits && n >= limits[d])
              && (v.refusal == Some(CorrectionLimitExhausted) <==>
                    && !(d in limits && n >= limits[d])
                    && v.kind == Correction && c in limits && v.consumedCorrections >= limits[c])
  {
  }
}
