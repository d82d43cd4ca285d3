/**
 Dispatch allocations: the `--dispatch-allocation` grammar, its printer, the readback gate over
 a stored record, and the decision that spends an allocation.
 A limits record is the map of the bounds that are set; a slot it lacks is null in the source.
 */
module Allocation {
  import opened Text
  import opened Candidate

  datatype Phase = Discovery | Planning | Build
  datatype Field = Dispatches | Corrections
  datatype Slot = Slot(phase: Phase, field: Field)
  type Limits = map<Slot, nat>

  datatype Reason = Malformed | Empty | UnknownKey | MalformedValue | DuplicateKey
  datatype Result<+T> = Ok(value: T) | Err(reason: Reason)

  const PHASES: seq<Phase> := [Discovery, Planning, Build]
  const SLOTS: seq<Slot> := [
    Slot(Discovery, Dispatches), Slot(Discovery, Corrections), Slot(Planning, Dispatches),
    Slot(Planning, Corrections), Slot(Build, Dispatches), Slot(Build, Corrections)]

  const MAX_VALUE: nat := 9999999

  function PhaseName(p: Phase): string {
    match p case Discovery => "discovery" case Planning => "planning" case Build => "build"
  }

  function FieldName(f: Field): string {
    if f.Dispatches? then "dispatches" else "corrections"
  }

  function KeyOf(slot: Slot): string {
    if slot.field.Dispatches? then PhaseName(slot.phase) else PhaseName(slot.phase) + "_corrections"
  }

  /** `_SPEC_KEYS`, with its two aliases. */
  function SlotOf(key: string): Option<Slot> {
    if key == "discovery" then Some(Slot(Discovery, Dispatches))
    else if key == "discovery_corrections" then Some(Slot(Discovery, Corrections))
    else if key == "planning" then Some(Slot(Planning, Dispatches))
    else if key == "planning_corrections" then Some(Slot(Planning, Corrections))
    else if key == "build" then Some(Slot(Build, Dispatches))
    else if key == "build_corrections" || key == "correction" || key == "corrections" then
      Some(Slot(Build, Corrections))
    else None
  }

  // ---- text

  /** `s.split(c)`. */
  function Split(s: string, c: char): (parts: seq<string>)
    ensures |parts| > 0
  {
    if s == "" then [""]
    else if s[0] == c then [""] + Split(s[1..], c)
    else
      var rest := Split(s[1..], c);
      [[s[0]] + rest[0]] + rest[1..]
  }

  /** `c.join(parts)`. */
  function Join(parts: seq<string>, c: char): string {
    if parts == [] then "" else if |parts| == 1 then parts[0] else parts[0] + [c] + Join(parts[1..], c)
  }

  /** `str.lower` as far as the key table can tell: no other character lowers into a key. */
  function LowerChar(c: char): char {
    if 'A' <= c <= 'Z' then (c as int + 32) as char else c
  }

  function Lower(s: string): string {
    seq(|s|, i requires 0 <= i < |s| => LowerChar(s[i]))
  }

  /** `0|[1-9][0-9]{0,6}`. */
  predicate IsNumeral(v: string) {
    1 <= |v| <= 7 && AllDigits(v) && (v == "0" || v[0] != '0')
  }

  // ---- the grammar

  /** One `KEY=VALUE` entry. An item has exactly one `=` when it splits there into two parts. */
  function Entry(raw: string): Result<(Slot, nat)> {
    var item := Strip(raw);
    var parts := Split(item, '=');
    if item == "" || |parts| != 2 then Err(Malformed)
    else
      var key, value := Lower(Strip(parts[0])), Strip(parts[1]);
      if SlotOf(key).None? then Err(UnknownKey)
      else if !IsNumeral(value) then Err(MalformedValue)
      else Ok((SlotOf(key).value, Value(value)))
  }

  function ParseItems(items: seq<string>, limits: Limits): Result<Limits> {
    if items == [] then Ok(limits)
    else
      match Entry(items[0])
      case Err(reason) => Err(reason)
      case Ok((slot, n)) =>
        if slot in limits then Err(DuplicateKey) else ParseItems(items[1..], limits[slot := n])
  }

  /** `parse_spec`, ending in the readback gate as the source does. */
  function Parse(spec: string): Result<Limits> {
    var text := Strip(spec);
    if text == "" then Err(Empty)
    else
      match ParseItems(Split(text, ','), map[])
      case Err(reason) => Err(reason)
      case Ok(limits) => if limits == map[] then Err(Empty) else Validate(ToJson(limits))
  }

  /** The loop over the entries. */
  method ParseSpec(spec: string) returns (res: Result<Limits>)
    ensures res == Parse(spec)
  {
    var text := Strip(spec);
    if text == "" { return Err(Empty); }
    var items := Split(text, ',');
    var limits: Limits := map[];
    for i := 0 to |items|
      invariant ParseItems(items, map[]) == ParseItems(items[i..], limits)
    {
      var entry := Entry(items[i]);
      if entry.Err? { return Err(entry.reason); }
      if entry.value.0 in limits { return Err(DuplicateKey); }
      limits := limits[entry.value.0 := entry.value.1];
    }
    if limits == map[] { return Err(Empty); }
    res := ValidateLimits(ToJson(limits));
  }

  // ---- the readback gate

  /** A bound as the ledger stores it. */
  function Bound(limits: Limits, slot: Slot): Json {
    if slot in limits then Num(limits[slot]) else Null
  }

  function Entries(limits: Limits, p: Phase): Json {
    Obj(map["dispatches" := Bound(limits, Slot(p, Dispatches)), "corrections" := Bound(limits, Slot(p, Corrections))])
  }

  /** A limits record as the ledger stores it. */
  function ToJson(limits: Limits): Json {
    Obj(map["discovery" := Entries(limits, Discovery), "planning" := Entries(limits, Planning),
            "build" := Entries(limits, Build)])
  }

  /** What a stored record says of one slot. */
  function Stored(fields: map<string, Json>, slot: Slot): Json {
    var name := PhaseName(slot.phase);
    if name in fields && fields[name].Obj? && FieldName(slot.field) in fields[name].fields
    then fields[name].fields[FieldName(slot.field)] else Null
  }

  /** One phase's entry: its shape, then its two fields. */
  function ValidatePhase(fields: map<string, Json>, p: Phase, limits: Limits): Result<Limits> {
    var name := PhaseName(p);
    if name !in fields || fields[name].Null? then Ok(limits)
    else if !fields[name].Obj? then Err(Malformed)
    else if !(fields[name].fields.Keys <= {"dispatches", "corrections"}) then Err(UnknownKey)
    else
      match ValidateField(fields, Slot(p, Dispatches), limits)
      case Err(reason) => Err(reason)
      case Ok(after) => ValidateField(fields, Slot(p, Corrections), after)
  }

  function ValidateField(fields: map<string, Json>, slot: Slot, limits: Limits): Result<Limits> {
    match Stored(fields, slot)
    case Null => Ok(limits)
    case Num(n) => if n < 0 then Err(MalformedValue) else Ok(limits[slot := n])
    case _ => Err(MalformedValue)
  }

  function ValidatePhases(fields: map<string, Json>, phases: seq<Phase>, limits: Limits): Result<Limits> {
    if phases == [] then Ok(limits)
    else
      match ValidatePhase(fields, phases[0], limits)
      case Err(reason) => Err(reason)
      case Ok(after) => ValidatePhases(fields, phases[1..], after)
  }

  /** `validate_limits`. */
  function Validate(j: Json): Result<Limits> {
    if !j.Obj? then Err(Malformed)
    else if !(j.fields.Keys <= {"discovery", "planning", "build"}) then Err(UnknownKey)
    else
      match ValidatePhases(j.fields, PHASES, map[])
      case Err(reason) => Err(reason)
      case Ok(limits) => if limits == map[] then Err(Empty) else Ok(limits)
  }

  method ValidateLimits(j: Json) returns (res: Result<Limits>)
    ensures res == Validate(j)
  {
    if !j.Obj? { return Err(Malformed); }
    if !(j.fields.Keys <= {"discovery", "planning", "build"}) { return Err(UnknownKey); }
    var limits: Limits := map[];
    for i := 0 to |PHASES|
      invariant ValidatePhases(j.fields, PHASES, map[]) == ValidatePhases(j.fields, PHASES[i..], limits)
    {
      var entry := ValidatePhase(j.fields, PHASES[i], limits);
      if entry.Err? { return Err(entry.reason); }
      limits := entry.value;
    }
    if limits == map[] { return Err(Empty); }
    return Ok(limits);
  }

  // ---- the printer

  function Piece(limits: Limits, slot: Slot): string
    requires slot in limits
  {
    KeyOf(slot) + "=" + Decimal(limits[slot])
  }

  function Pieces(limits: Limits, slots: seq<Slot>): seq<string> {
    if slots == [] then []
    else if slots[0] in limits then [Piece(limits, slots[0])] + Pieces(limits, slots[1..])
    else Pieces(limits, slots[1..])
  }

  /** `describe`: only the bounds that are set, in one fixed order. */
  function Describe(limits: Limits): string {
    Join(Pieces(limits, SLOTS), ',')
  }

  /** The printing loop over the phases. */
  method Print(limits: Limits) returns (text: string)
    ensures text == Describe(limits)
  {
    hide Pieces, Piece, PhaseName, Decimal;
    var parts: seq<string> := [];
    for i := 0 to |PHASES|
      invariant parts + Pieces(limits, SLOTS[2 * i..]) == Pieces(limits, SLOTS)
    {
      var p := PHASES[i];
      ghost var before := parts;
      PieceText(limits, p);
      PhasePieces(limits, i);
      if Slot(p, Dispatches) in limits {
        parts := parts + [PhaseName(p) + "=" + Decimal(limits[Slot(p, Dispatches)])];
      }
      if Slot(p, Corrections) in limits {
        parts := parts + [PhaseName(p) + "_corrections" + "=" + Decimal(limits[Slot(p, Corrections)])];
      }
      assert parts == before + OfPhase(limits, p);
      Reassociate(before, OfPhase(limits, p), Pieces(limits, SLOTS[2 * (i + 1)..]));
    }
    assert Pieces(limits, SLOTS[2 * |PHASES|..]) == [] by { NothingLeft(limits); }
    assert parts + [] == parts;
    text := Join(parts, ',');
  }

  lemma NothingLeft(limits: Limits)
    ensures Pieces(limits, SLOTS[6..]) == []
  {
  }

  lemma Reassociate(a: seq<string>, b: seq<string>, c: seq<string>)
    ensures (a + b) + c == a + (b + c)
  {
  }

  lemma PieceText(limits: Limits, p: Phase)
    ensures Slot(p, Dispatches) in limits ==>
              Piece(limits, Slot(p, Dispatches)) == PhaseName(p) + "=" + Decimal(limits[Slot(p, Dispatches)])
    ensures Slot(p, Corrections) in limits ==>
              Piece(limits, Slot(p, Corrections)) ==
                  PhaseName(p) + "_corrections" + "=" + Decimal(limits[Slot(p, Corrections)])
  {
  }

  function OfPhase(limits: Limits, p: Phase): seq<string> {
    (if Slot(p, Dispatches) in limits then [Piece(limits, Slot(p, Dispatches))] else [])
    + (if Slot(p, Corrections) in limits then [Piece(limits, Slot(p, Corrections))] else [])
  }

  lemma PhasePieces(limits: Limits, i: nat)
    requires i < 3
    ensures Pieces(limits, SLOTS[2 * i..]) == OfPhase(limits, PHASES[i]) + Pieces(limits, SLOTS[2 * (i + 1)..])
  {
    hide Decimal, Piece;
    var s, p := SLOTS[2 * i..], PHASES[i];
    assert s[0] == Slot(p, Dispatches) && s[1..][0] == Slot(p, Corrections);
    assert s[1..][1..] == SLOTS[2 * (i + 1)..];
    assert Pieces(limits, s[1..]) ==
      (if Slot(p, Corrections) in limits then [Piece(limits, Slot(p, Corrections))] else [])
      + Pieces(limits, s[1..][1..]);
  }

  // ---- splitting undoes joining

  lemma {:induction false} SplitApart(a: string, b: string, c: char)
    requires c !in a
    ensures Split(a, c) == [a]
    ensures Split(a + [c] + b, c) == [a] + Split(b, c)
  {
    if a == "" {
      assert ("" + [c] + b)[1..] == b;
    } else {
      SplitApart(a[1..], b, c);
      assert (a + [c] + b)[1..] == a[1..] + [c] + b;
      assert [a[0]] + a[1..] == a;
    }
  }

  lemma {:induction false} SplitJoin(parts: seq<string>, c: char)
    requires parts != [] && forall i :: 0 <= i < |parts| ==> c !in parts[i]
    ensures Split(Join(parts, c), c) == parts
  {
    hide Split;
    if |parts| == 1 {
      SplitApart(parts[0], "", c);
      assert parts == [parts[0]];
    } else {
      var rest := parts[1..];
      assert forall i :: 0 <= i < |rest| ==> rest[i] == parts[i + 1];
      SplitJoin(rest, c);
      SplitApart(parts[0], Join(rest, c), c);
      assert parts == [parts[0]] + rest;
    }
  }

  // ---- how long a numeral is

  lemma {:induction false} DecimalLength(n: nat, k: nat)
    requires k > 0
    ensures |Decimal(n)| <= k <==> n < Pow10(k)
  {
    if n >= 10 {
      if k > 1 { DecimalLength(n / 10, k - 1); } else { assert Pow10(1) == 10 * Pow10(0); }
    } else {
      assert Pow10(k - 1) >= 1 by { PowPositive(k - 1); }
    }
  }

  lemma SevenDigits()
    ensures Pow10(7) == MAX_VALUE + 1
  {
    assert Pow10(1) == 10 && Pow10(2) == 100 && Pow10(3) == 1000;
  }

  /** Every decimal numeral of at most seven digits is in the grammar, and only those. */
  lemma NumeralExactly(n: nat)
    ensures IsNumeral(Decimal(n)) <==> n <= MAX_VALUE
  {
    DecimalLength(n, 7);
    SevenDigits();
  }

  // ---- what the parser accepts

  function SlotAt(items: seq<string>, i: nat): Slot
    requires i < |items| && Entry(items[i]).Ok?
  {
    Entry(items[i]).value.0
  }

  /** Well-formed entries that set no slot twice and none of `limits`. */
  ghost predicate Distinct(items: seq<string>, limits: Limits) {
    && (forall i :: 0 <= i < |items| ==> Entry(items[i]).Ok? && SlotAt(items, i) !in limits)
    && (forall i, j :: 0 <= i < j < |items| ==> SlotAt(items, i) != SlotAt(items, j))
  }

  /** `after` is `before` with exactly what the entries set. */
  ghost predicate Sets(items: seq<string>, before: Limits, after: Limits)
    requires Distinct(items, before)
  {
    && (forall slot :: slot in before ==> slot in after && after[slot] == before[slot])
    && (forall i :: 0 <= i < |items| ==>
        SlotAt(items, i) in after && after[SlotAt(items, i)] == Entry(items[i]).value.1)
    && (forall slot :: slot in after && slot !in before ==> exists i :: 0 <= i < |items| && SlotAt(items, i) == slot)
  }

  lemma {:induction false} ItemsAreSet(items: seq<string>, limits: Limits)
    ensures ParseItems(items, limits).Ok? <==> Distinct(items, limits)
    ensures ParseItems(items, limits).Ok? ==> Sets(items, limits, ParseItems(items, limits).value)
  {
    hide Entry;
    if items != [] {
      var e := Entry(items[0]);
      if e.Ok? && e.value.0 !in limits {
        var next := limits[e.value.0 := e.value.1];
        ItemsAreSet(items[1..], next);
        HeadAndTail(items, limits);
        if Distinct(items, limits) { TailSets(items, limits, ParseItems(items, limits).value); }
      } else {
        FirstEntry(items, limits);
      }
    }
  }

  lemma FirstEntry(items: seq<string>, limits: Limits)
    requires items != []
    ensures Distinct(items, limits) ==> Entry(items[0]).Ok? && Entry(items[0]).value.0 !in limits
  {
    hide Entry;
    if Distinct(items, limits) { assert SlotAt(items, 0) !in limits; }
  }

  lemma HeadAndTail(items: seq<string>, limits: Limits)
    requires items != [] && Entry(items[0]).Ok? && Entry(items[0]).value.0 !in limits
    ensures Distinct(items, limits) <==>
              Distinct(items[1..], limits[Entry(items[0]).value.0 := Entry(items[0]).value.1])
  {
    hide Entry;
    var rest, next := items[1..], limits[Entry(items[0]).value.0 := Entry(items[0]).value.1];
    if Distinct(items, limits) {
      forall i | 0 <= i < |rest| ensures Entry(rest[i]).Ok? && SlotAt(rest, i) !in next {
        assert SlotAt(rest, i) == SlotAt(items, i + 1) && SlotAt(items, 0) != SlotAt(items, i + 1);
      }
      forall i, j | 0 <= i < j < |rest| ensures SlotAt(rest, i) != SlotAt(rest, j) {
        assert SlotAt(items, i + 1) != SlotAt(items, j + 1);
      }
    }
    if Distinct(rest, next) {
      forall i | 0 <= i < |items| ensures Entry(items[i]).Ok? && SlotAt(items, i) !in limits {
        if i > 0 { assert SlotAt(rest, i - 1) !in next; }
      }
      forall i, j | 0 <= i < j < |items| ensures SlotAt(items, i) != SlotAt(items, j) {
        assert SlotAt(rest, j - 1) !in next;
        if i > 0 { assert SlotAt(rest, i - 1) != SlotAt(rest, j - 1); }
      }
    }
  }

  lemma TailSets(items: seq<string>, limits: Limits, after: Limits)
    requires items != [] && Distinct(items, limits)
    requires var next := limits[SlotAt(items, 0) := Entry(items[0]).value.1];
      Distinct(items[1..], next) && Sets(items[1..], next, after)
    ensures Sets(items, limits, after)
  {
    hide Entry;
    var rest := items[1..];
    forall i | 0 <= i < |items|
      ensures SlotAt(items, i) in after && after[SlotAt(items, i)] == Entry(items[i]).value.1
    {
      if i > 0 { assert SlotAt(rest, i - 1) == SlotAt(items, i); }
    }
    forall slot | slot in after && slot !in limits ensures exists i :: 0 <= i < |items| && SlotAt(items, i) == slot {
      if slot != SlotAt(items, 0) {
        var i :| 0 <= i < |rest| && SlotAt(rest, i) == slot;
        assert SlotAt(items, i + 1) == slot;
      }
    }
  }

  /** Everything the parser accepts, whatever the order, spacing, case or aliases: entries that
      are all well formed and set no slot twice; and the result is just what they set. */
  lemma AcceptedExactly(spec: string, limits: Limits)
    ensures var items := Split(Strip(spec), ',');
      Parse(spec) == Ok(limits) <==> Strip(spec) != "" && Distinct(items, map[]) && Sets(items, map[], limits)
  {
    var items := Split(Strip(spec), ',');
    hide Entry, Split, ParseItems;
    ItemsAreSet(items, map[]);
    if Strip(spec) != "" && Distinct(items, map[]) {
      var l := ParseItems(items, map[]).value;
      assert l != map[] by { assert SlotAt(items, 0) in l; }
      ReadbackExactly(l);
      if Sets(items, map[], limits) {
        SameSettings(items, limits, l);
      }
    }
  }

  lemma SameSettings(items: seq<string>, a: Limits, b: Limits)
    requires Distinct(items, map[]) && Sets(items, map[], a) && Sets(items, map[], b)
    ensures a == b
  {
    hide Entry;
    forall slot | slot in a ensures slot in b && a[slot] == b[slot] {
      var i :| 0 <= i < |items| && SlotAt(items, i) == slot;
    }
    forall slot | slot in b ensures slot in a {
      var i :| 0 <= i < |items| && SlotAt(items, i) == slot;
    }
  }

  /** A limits record survives its own storage exactly when it sets a bound. */
  lemma ReadbackExactly(limits: Limits)
    ensures Validate(ToJson(limits)) == if limits == map[] then Err(Empty) else Ok(limits)
  {
    var fields := ToJson(limits).fields;
    var one, two := Restrict(limits, {Discovery}), Restrict(limits, {Discovery, Planning});
    assert Restrict(limits, {}) == map[];
    assert Restrict(limits, {Discovery, Planning, Build}) == limits by {
      forall slot: Slot ensures slot.phase in {Discovery, Planning, Build} {
        if !slot.phase.Discovery? && !slot.phase.Planning? { assert slot.phase == Build; }
      }
    }
    PhaseReads(limits, {}, Discovery);
    PhaseReads(limits, {Discovery}, Planning);
    PhaseReads(limits, {Discovery, Planning}, Build);
    assert {} + {Discovery} == {Discovery} && {Discovery} + {Planning} == {Discovery, Planning};
    assert {Discovery, Planning} + {Build} == {Discovery, Planning, Build};
    hide ValidatePhase, ToJson, Restrict;
    ThreePhases(fields, one, two, limits);
    KnownPhases(limits);
  }

  lemma KnownPhases(limits: Limits)
    ensures ToJson(limits).Obj? && ToJson(limits).fields.Keys == {"discovery", "planning", "build"}
  {
  }

  lemma ThreePhases(fields: map<string, Json>, one: Limits, two: Limits, three: Limits)
    requires ValidatePhase(fields, Discovery, map[]) == Ok(one)
    requires ValidatePhase(fields, Planning, one) == Ok(two) && ValidatePhase(fields, Build, two) == Ok(three)
    ensures ValidatePhases(fields, PHASES, map[]) == Ok(three)
  {
    hide ValidatePhase;
    assert PHASES[1..][0] == Planning && PHASES[1..][1..][0] == Build && PHASES[1..][1..][1..] == [];
    assert ValidatePhases(fields, PHASES[1..][1..], two) == Ok(three);
    assert ValidatePhases(fields, PHASES[1..], one) == Ok(three);
  }

  function Restrict(limits: Limits, phases: set<Phase>): Limits {
    map slot | slot in limits && slot.phase in phases :: limits[slot]
  }

  lemma PhaseReads(limits: Limits, done: set<Phase>, p: Phase)
    ensures ValidatePhase(ToJson(limits).fields, p, Restrict(limits, done)) == Ok(Restrict(limits, done + {p}))
  {
    var fields := ToJson(limits).fields;
    StoredPhase(limits, p);
    StoredFields(limits, p);
    hide ToJson, Stored, PhaseName;
    var before, after := Restrict(limits, done), Restrict(limits, done + {p});
    var mid := ValidateField(fields, Slot(p, Dispatches), before).value;
    var end := ValidateField(fields, Slot(p, Corrections), mid).value;
    forall slot: Slot ensures slot in end <==> slot in after {
      assert slot.phase == p ==> slot == Slot(p, Dispatches) || slot == Slot(p, Corrections);
    }
    assert end == after;
  }

  lemma StoredFields(limits: Limits, p: Phase)
    ensures forall f :: Stored(ToJson(limits).fields, Slot(p, f)) == Bound(limits, Slot(p, f))
    ensures Entries(limits, p).fields.Keys == {"dispatches", "corrections"}
  {
    StoredPhase(limits, p);
    hide ToJson, PhaseName;
    assert "dispatches" != "corrections";
  }

  lemma StoredPhase(limits: Limits, p: Phase)
    ensures var fields := ToJson(limits).fields;
      PhaseName(p) in fields && fields[PhaseName(p)] == Entries(limits, p)
  {
    assert "discovery" != "planning" && "planning" != "build" && "discovery" != "build";
  }

  // ---- printing and parsing undo one another

  /** No character of a canonical key means anything to the grammar. */
  lemma KeyIsPlain(slot: Slot)
    ensures var key := KeyOf(slot);
      key != "" && '=' !in key && ',' !in key && !IsSpace(key[0]) && !IsSpace(key[|key| - 1])
    ensures Lower(KeyOf(slot)) == KeyOf(slot)
  {
    var key := KeyOf(slot);
    assert forall i :: 0 <= i < |key| ==> 'a' <= key[i] <= 'z' || key[i] == '_';
  }

  lemma KeyNamesItsSlot(slot: Slot)
    ensures SlotOf(KeyOf(slot)) == Some(slot)
  {
  }

  lemma NumeralIsPlain(n: nat)
    ensures var d := Decimal(n); '=' !in d && ',' !in d && !IsSpace(d[0]) && !IsSpace(d[|d| - 1])
  {
    var d := Decimal(n);
    assert forall i :: 0 <= i < |d| ==> IsDigit(d[i]);
  }

  lemma PieceIsPlain(limits: Limits, slot: Slot)
    requires slot in limits
    ensures var s := Piece(limits, slot); s != "" && ',' !in s && !IsSpace(s[0]) && !IsSpace(s[|s| - 1])
  {
    hide KeyOf, Decimal, IsSpace;
    KeyIsPlain(slot);
    NumeralIsPlain(limits[slot]);
  }

  /** A printed bound of at most seven digits reads back as itself. */
  lemma PieceReadsBack(limits: Limits, slot: Slot)
    requires slot in limits && limits[slot] <= MAX_VALUE
    ensures Entry(Piece(limits, slot)) == Ok((slot, limits[slot]))
  {
    hide KeyOf, Decimal, IsSpace, Split, Strip, SlotOf, Lower, IsNumeral, Value, Piece;
    var key, d := KeyOf(slot), Decimal(limits[slot]);
    PieceIsPlain(limits, slot);
    StripKeeps(Piece(limits, slot));
    KeyIsPlain(slot);
    KeyNamesItsSlot(slot);
    NumeralIsPlain(limits[slot]);
    SplitPiece(limits, slot);
    StripKeeps(key);
    StripKeeps(d);
    NumeralExactly(limits[slot]);
    ValueOfDecimal(limits[slot]);
  }

  lemma SplitPiece(limits: Limits, slot: Slot)
    requires slot in limits
    ensures Split(Piece(limits, slot), '=') == [KeyOf(slot), Decimal(limits[slot])]
  {
    hide KeyOf, Decimal, IsSpace, Split;
    KeyIsPlain(slot);
    NumeralIsPlain(limits[slot]);
    SplitApart(KeyOf(slot), Decimal(limits[slot]), '=');
    SplitApart(Decimal(limits[slot]), "", '=');
  }

  function Among(limits: Limits, slots: seq<Slot>): Limits {
    map slot | slot in limits && slot in slots :: limits[slot]
  }

  lemma AmongStep(limits: Limits, slots: seq<Slot>, before: Limits)
    requires slots != [] && slots[0] !in before && slots[0] !in slots[1..]
    ensures var rest := Among(limits, slots[1..]);
      before + Among(limits, slots) ==
      if slots[0] in limits then before[slots[0] := limits[slots[0]]] + rest else before + rest
  {
    var rest, all := Among(limits, slots[1..]), Among(limits, slots);
    forall slot | slot in slots ensures slot == slots[0] || slot in slots[1..] {
    }
    if slots[0] in limits {
      assert before + all == before[slots[0] := limits[slots[0]]] + rest;
    } else {
      assert all == rest;
    }
  }

  lemma {:induction false} PiecesReadBack(limits: Limits, slots: seq<Slot>, before: Limits)
    requires forall i :: 0 <= i < |slots| && slots[i] in limits ==> limits[slots[i]] <= MAX_VALUE
    requires forall i :: 0 <= i < |slots| ==> slots[i] !in before
    requires forall i, j :: 0 <= i < j < |slots| ==> slots[i] != slots[j]
    ensures ParseItems(Pieces(limits, slots), before) == Ok(before + Among(limits, slots))
  {
    hide Entry, Piece, Among;
    if slots == [] {
      assert Among(limits, slots) == map[] by { NothingAmong(limits); }
      assert before + map[] == before;
    } else {
      AmongStep(limits, slots, before);
      if slots[0] in limits {
        PieceReadsBack(limits, slots[0]);
        PiecesReadBack(limits, slots[1..], before[slots[0] := limits[slots[0]]]);
        assert Pieces(limits, slots)[1..] == Pieces(limits, slots[1..]);
      } else {
        PiecesReadBack(limits, slots[1..], before);
      }
    }
  }

  lemma NothingAmong(limits: Limits)
    ensures Among(limits, []) == map[]
  {
  }

  lemma {:induction false} PiecesArePlain(limits: Limits, slots: seq<Slot>)
    ensures forall i :: 0 <= i < |Pieces(limits, slots)| ==>
              var s := Pieces(limits, slots)[i]; s != "" && ',' !in s && !IsSpace(s[0]) && !IsSpace(s[|s| - 1])
    ensures Pieces(limits, slots) == [] <==> forall slot :: slot in slots ==> slot !in limits
  {
    hide Piece, IsSpace;
    if slots != [] {
      PiecesArePlain(limits, slots[1..]);
      if slots[0] in limits { PieceIsPlain(limits, slots[0]); }
    }
  }

  lemma {:induction false} JoinKeepsEdges(parts: seq<string>, c: char)
    requires parts != [] && forall i :: 0 <= i < |parts| ==> parts[i] != ""
    ensures var s, last := Join(parts, c), parts[|parts| - 1];
      s != "" && s[0] == parts[0][0] && s[|s| - 1] == last[|last| - 1]
  {
    if |parts| > 1 { JoinKeepsEdges(parts[1..], c); }
  }

  lemma EverySlotIsListed(slot: Slot)
    ensures slot in SLOTS
  {
    var p := if slot.phase.Discovery? then 0 else if slot.phase.Planning? then 2 else 4;
    assert SLOTS[if slot.field.Dispatches? then p else p + 1] == slot;
  }

  /** Whatever the parser accepts sets some bound, and none beyond seven digits. */
  lemma ParsedIsBounded(spec: string, limits: Limits)
    requires Parse(spec) == Ok(limits)
    ensures limits != map[] && forall slot :: slot in limits ==> limits[slot] <= MAX_VALUE
  {
    hide Parse, Entry, Split;
    AcceptedExactly(spec, limits);
    var items := Split(Strip(spec), ',');
    assert SlotAt(items, 0) in limits;
    forall slot | slot in limits ensures limits[slot] <= MAX_VALUE {
      var i :| 0 <= i < |items| && SlotAt(items, i) == slot;
      EntryIsBounded(items[i]);
    }
  }

  lemma EntryIsBounded(raw: string)
    requires Entry(raw).Ok?
    ensures Entry(raw).value.1 <= MAX_VALUE
  {
    var v := Strip(Split(Strip(raw), '=')[1]);
    assert Entry(raw).value.1 == Value(v) && IsNumeral(v);
    ValueBelow(v);
    PowGrows(|v|, 7);
    SevenDigits();
  }

  /** The printed form of a limits record parses back to it exactly when it sets a bound and no
      bound has more than seven digits. */
  lemma RoundTripExactly(limits: Limits)
    ensures Parse(Describe(limits)) == Ok(limits) <==>
            limits != map[] && forall slot :: slot in limits ==> limits[slot] <= MAX_VALUE
  {
    if Parse(Describe(limits)) == Ok(limits) {
      ParsedIsBounded(Describe(limits), limits);
    } else if limits != map[] && forall slot :: slot in limits ==> limits[slot] <= MAX_VALUE {
      PrintedReadsBack(limits);
    }
  }

  /** So eight digits print, and do not parse. */
  lemma EightDigitsDoNotReadBack()
    ensures Parse(Describe(map[Slot(Build, Dispatches) := 10000000])) != Ok(map[Slot(Build, Dispatches) := 10000000])
  {
    hide Parse, Describe;
    var limits: Limits := map[Slot(Build, Dispatches) := 10000000];
    assert limits[Slot(Build, Dispatches)] > MAX_VALUE;
    RoundTripExactly(limits);
  }

  lemma PrintedReadsBack(limits: Limits)
    requires limits != map[] && forall slot :: slot in limits ==> limits[slot] <= MAX_VALUE
    ensures Parse(Describe(limits)) == Ok(limits)
  {
    hide Entry, Split, Strip, Pieces, ParseItems, Validate, IsSpace;
    var parts := Pieces(limits, SLOTS);
    PiecesArePlain(limits, SLOTS);
    var some :| some in limits;
    EverySlotIsListed(some);
    JoinKeepsEdges(parts, ',');
    StripKeeps(Describe(limits));
    SplitJoin(parts, ',');
    PiecesReadBack(limits, SLOTS, map[]);
    var all := Among(limits, SLOTS);
    forall slot | slot in limits ensures slot in all { EverySlotIsListed(slot); }
    assert map[] + all == limits;
    ReadbackExactly(limits);
  }

  /** Printing the result of a parse is a normal form: any accepted spelling, printed and parsed
      again, gives the same limits. */
  lemma SpellingsHaveANormalForm(spec: string)
    requires Parse(spec).Ok?
    ensures Parse(Describe(Parse(spec).value)) == Parse(spec)
  {
    hide Parse;
    ParsedIsBounded(spec, Parse(spec).value);
    RoundTripExactly(Parse(spec).value);
  }

  // ---- spending an allocation

  datatype Refusal = DispatchLimitExhausted | CorrectionLimitExhausted
  datatype Kind = Initial | Correction
  datatype Verdict = Verdict(refusal: Option<Refusal>, ordinal: nat, kind: Kind, consumedCorrections: nat)

  /** `evaluate` for a phase that has been charged `consumed` dispatches; a negative count is
      malformed. */
  function Evaluate(limits: Limits, phase: Phase, consumed: int): Result<Verdict> {
    if consumed < 0 then Err(MalformedValue)
    else
      var d, c := Slot(phase, Dispatches), Slot(phase, Corrections);
      var refusal :=
        if d in limits && consumed + 1 > limits[d] then Some(DispatchLimitExhausted)
        else if c in limits && consumed > 0 && consumed > limits[c] then Some(CorrectionLimitExhausted)
        else None;
      var kind := if consumed == 0 then Initial else Correction;
      Ok(Verdict(refusal, consumed + 1, kind, if consumed > 0 then consumed - 1 else 0))
  }

  /** The charged count after `tries` attempts, each evaluated and charged in one transaction. */
  function Charged(limits: Limits, phase: Phase, tries: nat): nat {
    if tries == 0 then 0
    else
      var before := Charged(limits, phase, tries - 1);
      if Evaluate(limits, phase, before).value.refusal.None? then before + 1 else before
  }

  /** The most dispatches a phase may ever be charged: its bound, and one initial dispatch more
      than its corrections. None is no limit. */
  function Budget(limits: Limits, phase: Phase): Option<nat> {
    var d, c := Slot(phase, Dispatches), Slot(phase, Corrections);
    if d in limits && c in limits then Some(if limits[d] <= limits[c] then limits[d] else limits[c] + 1)
    else if d in limits then Some(limits[d])
    else if c in limits then Some(limits[c] + 1)
    else None
  }

  /** However often a phase is tried, it is charged every try until its budget is spent, and never more. */
  lemma {:induction false} BudgetIsExact(limits: Limits, phase: Phase, tries: nat)
    ensures Charged(limits, phase, tries) ==
            match Budget(limits, phase) case None => tries case Some(b) => if tries <= b then tries else b
  {
    if tries > 0 { BudgetIsExact(limits, phase, tries - 1); }
  }
}
