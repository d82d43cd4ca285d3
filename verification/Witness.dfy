/**
 The witness screen: every marked claim needs, for each of its classes, an executed probe by
 someone other than the builder that tried to break it and did not.
 Everything is read from JSON as it arrives; the evidence reader is a function from paths to
 hashes, None where the file cannot be read.
 */
module Witness {
  import opened Text
  import opened Candidate

  const CLAIM_CLASSES: set<string> := {"source_of_truth", "only", "never", "fail_closed"}
  const ROW_KEYS: set<string> :=
    {"claim_id", "claim_class", "candidate", "probe", "expected_witness", "result", "not_executable_reason"}
  const PROBE_KEYS: set<string> := {"kind", "ref", "author_seat"}
  const RESULT_KEYS: set<string> := {"outcome", "evidence_path", "evidence_sha256"}

  datatype Code =
    | ClaimsMalformed | ClaimClassUnknown | GateCandidateUnavailable | BuilderSeatUnavailable
    | ReaderUnavailable | Missing | Malformed | ClassMismatch | CandidateUnavailable
    | CandidateKindMismatch | CandidateChanged | BuilderAuthored | ResultInconsistent
    | OutcomeInvalid | EvidenceMissing | EvidenceShaMismatch | BypassFound | NotExecutable

  datatype Kind = Found | NotFound | Unexecuted
  datatype Classified = Rejected(code: Code, pinned: Option<string>) | Accepted(cls: string, kind: Kind)
  datatype Status = Approved | Insufficient | Revise
  datatype Override = ReviseOverride | InsufficientEvidence

  type Row = map<string, Json>
  type Reader = string -> Option<string>
  type Reason = (Option<string>, Code)

  /** What a screen is about, besides the claims and the rows. */
  datatype Setting = Setting(gate: Json, builder: string, reader: Reader)

  datatype ScreenResult = ScreenResult(override: Option<Override>, reasons: seq<Reason>)

  // ---- one row

  predicate IsText(j: Json) {
    j.Str? && j.s != ""
  }

  predicate ProbeOk(j: Json) {
    j.Obj? && j.fields.Keys == PROBE_KEYS && forall key :: key in PROBE_KEYS ==> IsText(j.fields[key])
  }

  predicate ResultOk(j: Json) {
    j.Obj? && j.fields.Keys == RESULT_KEYS && IsText(j.fields["evidence_path"])
    && j.fields["evidence_sha256"].Str? && IsHex64(j.fields["evidence_sha256"].s)
  }

  predicate RowShapeOk(row: Row) {
    && ROW_KEYS <= row.Keys <= ROW_KEYS + {"id"}
    && ("id" in row ==> row["id"].Str? || row["id"].Num?)
    && IsText(row["claim_id"]) && IsText(row["claim_class"]) && IsText(row["expected_witness"])
    && ProbeOk(row["probe"])
    && (row["result"].Null? || ResultOk(row["result"]))
    && (row["not_executable_reason"].Null? || row["not_executable_reason"].Str?)
  }

  /** The code of one row, or what it says; the first failing stage wins. */
  function Classify(row: Row, classes: seq<string>, s: Setting): Classified {
    if !RowShapeOk(row) then Rejected(Malformed, None)
    else
      var cls := row["claim_class"].s;
      var why := Compare(row["candidate"], s.gate);
      if cls !in classes then Rejected(ClassMismatch, None)
      else if why.Some? then
        Rejected(match why.value case Unavailable => CandidateUnavailable
                                 case KindMismatch => CandidateKindMismatch
                                 case Changed => CandidateChanged, Some(cls))
      else if row["probe"].fields["author_seat"].s == s.builder then Rejected(BuilderAuthored, Some(cls))
      else ClassifyResult(row["result"], row["not_executable_reason"], cls, s)
  }

  /** The last stages: what was executed, or why nothing was. */
  function ClassifyResult(result: Json, reason: Json, cls: string, s: Setting): Classified
    requires result.Null? || ResultOk(result)
  {
    if result.Null? then
      if IsText(reason) then Accepted(cls, Unexecuted) else Rejected(ResultInconsistent, Some(cls))
    else if !reason.Null? then Rejected(ResultInconsistent, Some(cls))
    else if result.fields["outcome"] !in {Str("bypass_found"), Str("bypass_not_found")} then
      Rejected(OutcomeInvalid, Some(cls))
    else
      var actual := s.reader(result.fields["evidence_path"].s);
      if actual.None? || !IsHex64(actual.value) then Rejected(EvidenceMissing, Some(cls))
      else if actual.value != result.fields["evidence_sha256"].s then Rejected(EvidenceShaMismatch, Some(cls))
      else Accepted(cls, if result.fields["outcome"] == Str("bypass_found") then Found else NotFound)
  }

  // ---- one (claim, class) pair

  predicate Says(rows: seq<Classified>, c: Classified) {
    c in rows
  }

  predicate Rejects(c: Classified, cls: string) {
    c.Rejected? && (c.pinned == None || c.pinned == Some(cls))
  }

  /** The codes of the rows rejected for a class, each once, in row order. */
  function Rejections(rows: seq<Classified>, cls: string): seq<Code> {
    if rows == [] then []
    else
      var before, last := Rejections(rows[..|rows| - 1], cls), rows[|rows| - 1];
      if Rejects(last, cls) && last.code !in before then before + [last.code] else before
  }

  function Decide(rows: seq<Classified>, cls: string): (Status, seq<Code>) {
    var rejected := Rejections(rows, cls);
    if Says(rows, Accepted(cls, Found)) then (Revise, [BypassFound])
    else if Says(rows, Accepted(cls, NotFound)) then (Approved, [])
    else if Says(rows, Accepted(cls, Unexecuted)) then
      if rejected == [] then (Insufficient, [NotExecutable]) else (Revise, rejected + [NotExecutable])
    else if rejected != [] then (Revise, rejected)
    else (Revise, [Missing])
  }

  method DecidePair(rows: seq<Classified>, cls: string) returns (status: Status, codes: seq<Code>)
    ensures (status, codes) == Decide(rows, cls)
  {
    if Says(rows, Accepted(cls, Found)) { return Revise, [BypassFound]; }
    if Says(rows, Accepted(cls, NotFound)) { return Approved, []; }
    var rejected: seq<Code> := [];
    for i := 0 to |rows|
      invariant rejected == Rejections(rows[..i], cls)
    {
      assert rows[..i + 1][..i] == rows[..i];
      if Rejects(rows[i], cls) && rows[i].code !in rejected { rejected := rejected + [rows[i].code]; }
    }
    assert rows[..|rows|] == rows;
    if Says(rows, Accepted(cls, Unexecuted)) {
      if rejected == [] { return Insufficient, [NotExecutable]; }
      return Revise, rejected + [NotExecutable];
    }
    if rejected != [] { return Revise, rejected; }
    return Revise, [Missing];
  }

  // ---- faults

  function IdOf(claim: Json): string {
    if claim.Obj? && "claim_id" in claim.fields && claim.fields["claim_id"].Str? then claim.fields["claim_id"].s else ""
  }

  predicate AllStrings(items: seq<Json>) {
    forall i :: 0 <= i < |items| ==> items[i].Str?
  }

  function Strings(items: seq<Json>): seq<string> {
    seq(|items|, i requires 0 <= i < |items| => if items[i].Str? then items[i].s else "")
  }

  /** The classes of a claim; read only where the claim has no fault. */
  function ClassesOf(claim: Json): seq<string> {
    if claim.Obj? && "claim_classes" in claim.fields && claim.fields["claim_classes"].Arr?
    then Strings(claim.fields["claim_classes"].items) else []
  }

  predicate NoRepeats(s: seq<string>) {
    forall i, j :: 0 <= i < j < |s| ==> s[i] != s[j]
  }

  function ClaimProblem(claim: Json, seen: set<string>): Option<Reason> {
    if !claim.Obj? || IdOf(claim) == "" then Some((None, ClaimsMalformed))
    else
      var id := Some(IdOf(claim));
      if IdOf(claim) in seen then Some((id, ClaimsMalformed))
      else if "claim_classes" !in claim.fields || !claim.fields["claim_classes"].Arr?
              || claim.fields["claim_classes"].items == [] then Some((id, ClaimsMalformed))
      else
        var items := claim.fields["claim_classes"].items;
        if !AllStrings(items) || !NoRepeats(Strings(items)) then Some((id, ClaimsMalformed))
        else if exists c :: c in Strings(items) && c !in CLAIM_CLASSES then Some((id, ClaimClassUnknown))
        else None
  }

  /** The identifiers seen so far; only text identifiers are remembered. */
  function Seen(claims: seq<Json>): set<string> {
    set c | c in claims && IdOf(c) != "" :: IdOf(c)
  }

  lemma NoneSeen()
    ensures Seen([]) == {}
  {
  }

  lemma SeenGrows(claims: seq<Json>, claim: Json)
    ensures Seen(claims + [claim]) == if IdOf(claim) != "" then Seen(claims) + {IdOf(claim)} else Seen(claims)
  {
    hide IdOf;
  }

  function ClaimFaults(claims: seq<Json>): seq<Reason> {
    if claims == [] then []
    else
      var front, last := claims[..|claims| - 1], claims[|claims| - 1];
      ClaimFaults(front) + Opt(ClaimProblem(last, Seen(front)))
  }

  function Opt(r: Option<Reason>): seq<Reason> {
    if r.Some? then [r.value] else []
  }

  /** A row that can be given to a claim. */
  predicate Attributable(row: Json) {
    row.Obj? && "claim_id" in row.fields && row.fields["claim_id"].Str?
  }

  function RowFaults(rows: seq<Json>): seq<Reason> {
    if rows == [] then []
    else RowFaults(rows[..|rows| - 1]) + (if Attributable(rows[|rows| - 1]) then [] else [(None, Malformed)])
  }

  function Unless(ok: bool, code: Code): seq<Reason> {
    if ok then [] else [(None, code)]
  }

  function Faults(claims: Json, witnesses: Json, gate: Json, builder: Json, reader: Option<Reader>): seq<Reason> {
    (if claims.Arr? then ClaimFaults(claims.items) else [(None, ClaimsMalformed)])
    + Unless(Valid(gate), GateCandidateUnavailable)
    + Unless(IsText(builder), BuilderSeatUnavailable)
    + Unless(reader.Some?, ReaderUnavailable)
    + (if witnesses.Arr? then RowFaults(witnesses.items) else [(None, Malformed)])
  }

  method FindClaimFaults(claims: seq<Json>) returns (faults: seq<Reason>)
    ensures faults == ClaimFaults(claims)
  {
    hide ClaimProblem, Seen, IdOf;
    faults := [];
    var seen: set<string> := {};
    NoneSeen();
    for i := 0 to |claims|
      invariant faults == ClaimFaults(claims[..i]) && seen == Seen(claims[..i])
    {
      assert claims[..i + 1][..i] == claims[..i] && claims[..i] + [claims[i]] == claims[..i + 1];
      var problem := ClaimProblem(claims[i], seen);
      if problem.Some? { faults := faults + [problem.value]; }
      SeenGrows(claims[..i], claims[i]);
      if IdOf(claims[i]) != "" { seen := seen + {IdOf(claims[i])}; }
    }
    assert claims[..|claims|] == claims;
  }

  method FindRowFaults(rows: seq<Json>) returns (faults: seq<Reason>)
    ensures faults == RowFaults(rows)
  {
    faults := [];
    for i := 0 to |rows|
      invariant faults == RowFaults(rows[..i])
    {
      assert rows[..i + 1][..i] == rows[..i];
      if !Attributable(rows[i]) { faults := faults + [(None, Malformed)]; }
    }
    assert rows[..|rows|] == rows;
  }

  method FindFaults(claims: Json, witnesses: Json, gate: Json, builder: Json, reader: Option<Reader>)
    returns (faults: seq<Reason>)
    ensures faults == Faults(claims, witnesses, gate, builder, reader)
  {
    hide ClaimFaults, RowFaults, Valid, IsText, Unless;
    var ofClaims, ofRows := [(None, ClaimsMalformed)], [(None, Malformed)];
    if claims.Arr? { ofClaims := FindClaimFaults(claims.items); }
    if witnesses.Arr? { ofRows := FindRowFaults(witnesses.items); }
    faults := ofClaims
      + Unless(Valid(gate), GateCandidateUnavailable)
      + Unless(IsText(builder), BuilderSeatUnavailable)
      + Unless(reader.Some?, ReaderUnavailable)
      + ofRows;
  }

  // ---- the screen

  function RowsFor(id: string, rows: seq<Json>): seq<Row> {
    if rows == [] then []
    else
      var before, last := RowsFor(id, rows[..|rows| - 1]), rows[|rows| - 1];
      if Attributable(last) && last.fields["claim_id"].s == id then before + [last.fields] else before
  }

  function ClassifyAll(rows: seq<Row>, classes: seq<string>, s: Setting): seq<Classified> {
    seq(|rows|, i requires 0 <= i < |rows| => Classify(rows[i], classes, s))
  }

  /** One claim's rows, as the screen reads them. */
  function Heard(claim: Json, rows: seq<Json>, s: Setting): seq<Classified> {
    ClassifyAll(RowsFor(IdOf(claim), rows), ClassesOf(claim), s)
  }

  datatype Tally = Tally(revise: bool, insufficient: bool, reasons: seq<Reason>)

  function AddCodes(reasons: seq<Reason>, id: string, codes: seq<Code>): seq<Reason> {
    if codes == [] then reasons
    else
      var before := AddCodes(reasons, id, codes[..|codes| - 1]);
      var reason := (Some(id), codes[|codes| - 1]);
      if reason in before then before else before + [reason]
  }

  function TallyPairs(t: Tally, id: string, heard: seq<Classified>, classes: seq<string>): Tally {
    if classes == [] then t
    else
      var before := TallyPairs(t, id, heard, classes[..|classes| - 1]);
      var (status, codes) := Decide(heard, classes[|classes| - 1]);
      Tally(before.revise || status == Revise, before.insufficient || status == Insufficient,
            AddCodes(before.reasons, id, codes))
  }

  function TallyClaims(claims: seq<Json>, rows: seq<Json>, s: Setting): Tally {
    if claims == [] then Tally(false, false, [])
    else
      var last := claims[|claims| - 1];
      TallyPairs(TallyClaims(claims[..|claims| - 1], rows, s), IdOf(last), Heard(last, rows, s), ClassesOf(last))
  }

  /** `screen_witnesses`. */
  function Screen(claims: Json, witnesses: Json, gate: Json, builder: Json, reader: Option<Reader>): ScreenResult {
    var faults := Faults(claims, witnesses, gate, builder, reader);
    if faults != [] || !claims.Arr? || !witnesses.Arr? || !builder.Str? || reader.None? then
      ScreenResult(Some(ReviseOverride), faults)
    else
      var t := TallyClaims(claims.items, witnesses.items, Setting(gate, builder.s, reader.value));
      if t.revise then ScreenResult(Some(ReviseOverride), t.reasons)
      else if t.insufficient then ScreenResult(Some(InsufficientEvidence), t.reasons)
      else ScreenResult(None, [])
  }

  /** The rows grouped by claim, and the pairs decided one after another. */
  method ScreenWitnesses(claims: Json, witnesses: Json, gate: Json, builder: Json, reader: Option<Reader>)
    returns (res: ScreenResult)
    ensures res == Screen(claims, witnesses, gate, builder, reader)
  {
    hide Decide, Classify, Faults, AddCodes, TallyPairs, ClassesOf, IdOf, ClassifyAll;
    var faults := FindFaults(claims, witnesses, gate, builder, reader);
    if faults != [] || !claims.Arr? || !witnesses.Arr? || !builder.Str? || reader.None? {
      return ScreenResult(Some(ReviseOverride), faults);
    }
    var s := Setting(gate, builder.s, reader.value);
    var buckets := Bucket(claims.items, witnesses.items);
    var t := Tally(false, false, []);
    for i := 0 to |claims.items|
      invariant t == TallyClaims(claims.items[..i], witnesses.items, s)
    {
      var claim := claims.items[i];
      assert claims.items[..i + 1][..i] == claims.items[..i];
      assert claim in claims.items;
      var id, classes := IdOf(claim), ClassesOf(claim);
      var heard := ClassifyAll(buckets[id], classes, s);
      t := CountPairs(t, id, heard, classes);
    }
    assert claims.items[..|claims.items|] == claims.items;
    if t.revise { return ScreenResult(Some(ReviseOverride), t.reasons); }
    if t.insufficient { return ScreenResult(Some(InsufficientEvidence), t.reasons); }
    return ScreenResult(None, []);
  }

  function Ids(claims: seq<Json>): set<string> {
    set claim | claim in claims :: IdOf(claim)
  }

  /** The pairs of one claim, decided one after another. */
  method CountPairs(t: Tally, id: string, heard: seq<Classified>, classes: seq<string>) returns (after: Tally)
    ensures after == TallyPairs(t, id, heard, classes)
  {
    hide Decide, AddCodes;
    after := t;
    for k := 0 to |classes|
      invariant after == TallyPairs(t, id, heard, classes[..k])
    {
      assert classes[..k + 1][..k] == classes[..k];
      var status, codes := DecidePair(heard, classes[k]);
      var reasons := Note(after.reasons, id, codes);
      after := Tally(after.revise || status == Revise, after.insufficient || status == Insufficient, reasons);
    }
    assert classes[..|classes|] == classes;
  }

  method Bucket(claims: seq<Json>, rows: seq<Json>) returns (buckets: map<string, seq<Row>>)
    ensures buckets.Keys == Ids(claims)
    ensures forall id :: id in buckets ==> buckets[id] == RowsFor(id, rows)
  {
    hide Ids, IdOf;
    buckets := map id | id in Ids(claims) :: [];
    for i := 0 to |rows|
      invariant buckets.Keys == Ids(claims)
      invariant forall id :: id in buckets ==> buckets[id] == RowsFor(id, rows[..i])
    {
      assert rows[..i + 1][..i] == rows[..i];
      if Attributable(rows[i]) && rows[i].fields["claim_id"].s in buckets {
        var id := rows[i].fields["claim_id"].s;
        buckets := buckets[id := buckets[id] + [rows[i].fields]];
      }
    }
    assert rows[..|rows|] == rows;
  }

  method Note(reasons: seq<Reason>, id: string, codes: seq<Code>) returns (after: seq<Reason>)
    ensures after == AddCodes(reasons, id, codes)
  {
    after := reasons;
    for i := 0 to |codes|
      invariant after == AddCodes(reasons, id, codes[..i])
    {
      assert codes[..i + 1][..i] == codes[..i];
      if (Some(id), codes[i]) !in after { after := after + [(Some(id), codes[i])]; }
    }
    assert codes[..|codes|] == codes;
  }

  // ---- what one row can say

  /** An executed probe of the class against exactly the gate candidate, written by someone other
      than the builder, whose evidence file still has the recorded hash. */
  predicate Executed(row: Row, cls: string, outcome: string, s: Setting) {
    && RowShapeOk(row) && row["claim_class"] == Str(cls)
    && Valid(s.gate) && row["candidate"] == s.gate
    && row["probe"].fields["author_seat"] != Str(s.builder)
    && row["not_executable_reason"].Null? && row["result"].Obj?
    && row["result"].fields["outcome"] == Str(outcome)
    && s.reader(row["result"].fields["evidence_path"].s) == Some(row["result"].fields["evidence_sha256"].s)
  }

  /** A row is accepted as an executed probe of a class exactly when it is one. */
  lemma AcceptedIsExecuted(row: Row, classes: seq<string>, cls: string, s: Setting)
    ensures Classify(row, classes, s) == Accepted(cls, NotFound) <==>
              cls in classes && Executed(row, cls, "bypass_not_found", s)
    ensures Classify(row, classes, s) == Accepted(cls, Found) <==>
              cls in classes && Executed(row, cls, "bypass_found", s)
  {
    hide Valid, Compare;
    if RowShapeOk(row) { SameIsValidIdentity(row["candidate"], s.gate); }
  }

  // ---- one pair, by what its rows say

  lemma {:induction false} RejectionsSome(rows: seq<Classified>, cls: string)
    ensures Rejections(rows, cls) == [] <==> forall r :: r in rows ==> !Rejects(r, cls)
  {
    if rows != [] {
      var front, last := rows[..|rows| - 1], rows[|rows| - 1];
      RejectionsSome(front, cls);
      assert rows == front + [last];
    }
  }

  /** A pair's verdict depends only on which rows there are; a code is always given unless approved. */
  lemma DecideMeans(rows: seq<Classified>, cls: string)
    ensures var (status, codes) := Decide(rows, cls);
      && (status == Approved <==> Accepted(cls, NotFound) in rows && Accepted(cls, Found) !in rows)
      && (status == Insufficient <==>
            && Accepted(cls, Found) !in rows && Accepted(cls, NotFound) !in rows && Accepted(cls, Unexecuted) in rows
            && forall r :: r in rows ==> !Rejects(r, cls))
      && (codes == [] <==> status == Approved)
  {
    RejectionsSome(rows, cls);
  }

  // ---- the tally, by its pairs

  predicate HasStatus(heard: seq<Classified>, cls: string, status: Status) {
    Decide(heard, cls).0 == status
  }

  /** Some of the classes is decided so. */
  ghost predicate SomeClass(heard: seq<Classified>, classes: seq<string>, status: Status) {
    exists cls :: cls in classes && HasStatus(heard, cls, status)
  }

  lemma SomeClassSnoc(heard: seq<Classified>, classes: seq<string>, cls: string, status: Status)
    ensures SomeClass(heard, classes + [cls], status) <==>
            SomeClass(heard, classes, status) || HasStatus(heard, cls, status)
  {
    hide HasStatus;
    if c :| c in classes && HasStatus(heard, c, status) { assert c in classes + [cls]; }
    if HasStatus(heard, cls, status) { assert cls in classes + [cls]; }
  }

  lemma {:induction false} TallyPairsMeans(t: Tally, id: string, heard: seq<Classified>, classes: seq<string>)
    ensures var after := TallyPairs(t, id, heard, classes);
      && (after.revise <==> t.revise || SomeClass(heard, classes, Revise))
      && (after.insufficient <==> t.insufficient || SomeClass(heard, classes, Insufficient))
  {
    hide Decide, AddCodes;
    if classes != [] {
      var front, last := classes[..|classes| - 1], classes[|classes| - 1];
      TallyPairsMeans(t, id, heard, front);
      hide SomeClass;
      assert classes == front + [last];
      SomeClassSnoc(heard, front, last, Revise);
      SomeClassSnoc(heard, front, last, Insufficient);
    }
  }

  /** Some pair of these claims is decided so. */
  ghost predicate SomePair(claims: seq<Json>, rows: seq<Json>, s: Setting, status: Status) {
    exists claim, cls :: claim in claims && cls in ClassesOf(claim) && HasStatus(Heard(claim, rows, s), cls, status)
  }

  lemma SomePairSnoc(claims: seq<Json>, claim: Json, rows: seq<Json>, s: Setting, status: Status)
    ensures SomePair(claims + [claim], rows, s, status) <==>
            SomePair(claims, rows, s, status) || SomeClass(Heard(claim, rows, s), ClassesOf(claim), status)
  {
    hide HasStatus, ClassesOf, Heard;
    var all := claims + [claim];
    if SomePair(all, rows, s, status) {
      var c, cls :| c in all && cls in ClassesOf(c) && HasStatus(Heard(c, rows, s), cls, status);
      assert c in claims || c == claim;
    }
    if SomePair(claims, rows, s, status) {
      var c, cls :| c in claims && cls in ClassesOf(c) && HasStatus(Heard(c, rows, s), cls, status);
      assert c in all;
    }
    if SomeClass(Heard(claim, rows, s), ClassesOf(claim), status) {
      assert claim in all;
    }
  }

  lemma {:induction false} TallyMeans(claims: seq<Json>, rows: seq<Json>, s: Setting)
    ensures var t := TallyClaims(claims, rows, s);
      && (t.revise <==> SomePair(claims, rows, s, Revise))
      && (t.insufficient <==> SomePair(claims, rows, s, Insufficient))
  {
    hide Decide, Heard, ClassesOf, HasStatus, TallyPairs, SomeClass;
    if claims != [] {
      var front, last := claims[..|claims| - 1], claims[|claims| - 1];
      TallyMeans(front, rows, s);
      hide SomePair;
      TallyPairsMeans(TallyClaims(front, rows, s), IdOf(last), Heard(last, rows, s), ClassesOf(last));
      assert claims == front + [last];
      SomePairSnoc(front, last, rows, s, Revise);
      SomePairSnoc(front, last, rows, s, Insufficient);
    }
  }

  // ---- a claim's rows

  lemma {:induction false} RowsForExactly(id: string, rows: seq<Json>, row: Row)
    ensures row in RowsFor(id, rows) <==> Obj(row) in rows && "claim_id" in row && row["claim_id"] == Str(id)
  {
    if rows != [] {
      var front, last := rows[..|rows| - 1], rows[|rows| - 1];
      RowsForExactly(id, front, row);
      assert rows == front + [last];
    }
  }

  lemma HeardExactly(claim: Json, rows: seq<Json>, s: Setting, c: Classified)
    ensures c in Heard(claim, rows, s) <==>
            exists row :: Obj(row) in rows && OfClaim(row, claim) && Classify(row, ClassesOf(claim), s) == c
  {
    hide Classify;
    var mine := RowsFor(IdOf(claim), rows);
    if c in Heard(claim, rows, s) {
      var i :| 0 <= i < |mine| && Classify(mine[i], ClassesOf(claim), s) == c;
      RowsForExactly(IdOf(claim), rows, mine[i]);
    }
    if row :| Obj(row) in rows && OfClaim(row, claim) && Classify(row, ClassesOf(claim), s) == c {
      RowsForExactly(IdOf(claim), rows, row);
      var i :| 0 <= i < |mine| && mine[i] == row;
      assert Heard(claim, rows, s)[i] == c;
    }
  }

  predicate OfClaim(row: Row, claim: Json) {
    "claim_id" in row && row["claim_id"] == Str(IdOf(claim))
  }

  // ---- what is not at fault

  /** A claim with an identifier and a nonempty list of distinct, known classes. */
  predicate WellMarked(claim: Json) {
    && claim.Obj? && IdOf(claim) != ""
    && "claim_classes" in claim.fields && claim.fields["claim_classes"].Arr?
    && var items := claim.fields["claim_classes"].items;
    && items != [] && (forall i :: 0 <= i < |items| ==> items[i].Str? && items[i].s in CLAIM_CLASSES)
    && forall i, j :: 0 <= i < j < |items| ==> items[i] != items[j]
  }

  /** Claims that are all well marked, no two with one identifier. */
  predicate AllMarked(claims: seq<Json>) {
    && (forall i :: 0 <= i < |claims| ==> WellMarked(claims[i]))
    && forall i, j :: 0 <= i < j < |claims| ==> IdOf(claims[i]) != IdOf(claims[j])
  }

  lemma {:induction false} ClaimFaultsSome(claims: seq<Json>)
    ensures ClaimFaults(claims) == [] <==> AllMarked(claims)
  {
    hide ClaimProblem, WellMarked, IdOf, Seen;
    if claims != [] {
      var front, last := claims[..|claims| - 1], claims[|claims| - 1];
      ClaimFaultsSome(front);
      NoProblemExactly(last, Seen(front));
      hide AllMarked;
      AllMarkedSnoc(front, last);
      assert claims == front + [last];
    }
  }

  lemma AllMarkedSnoc(claims: seq<Json>, claim: Json)
    ensures AllMarked(claims + [claim]) <==> AllMarked(claims) && WellMarked(claim) && IdOf(claim) !in Seen(claims)
  {
    hide WellMarked, IdOf, Seen;
    var all := claims + [claim];
    SeenExactly(claims, IdOf(claim));
    NoProblemExactly(claim, {});
    assert all[|claims|] == claim && forall i :: 0 <= i < |claims| ==> all[i] == claims[i];
  }

  lemma NoProblemExactly(claim: Json, seen: set<string>)
    ensures ClaimProblem(claim, seen).None? <==> WellMarked(claim) && IdOf(claim) !in seen
    ensures WellMarked(claim) ==> IdOf(claim) != ""
  {
    if claim.Obj? && "claim_classes" in claim.fields && claim.fields["claim_classes"].Arr? {
      var items := claim.fields["claim_classes"].items;
      if AllStrings(items) {
        assert forall i :: 0 <= i < |items| ==> Strings(items)[i] == items[i].s;
        assert NoRepeats(Strings(items)) <==> forall i, j :: 0 <= i < j < |items| ==> items[i] != items[j];
      }
    }
    hide NoRepeats;
  }

  lemma SeenExactly(claims: seq<Json>, id: string)
    ensures id in Seen(claims) <==> id != "" && exists i :: 0 <= i < |claims| && IdOf(claims[i]) == id
  {
    hide IdOf;
  }

  lemma {:induction false} RowFaultsSome(rows: seq<Json>)
    ensures RowFaults(rows) == [] <==> forall row :: row in rows ==> Attributable(row)
  {
    hide Attributable;
    if rows != [] {
      var front, last := rows[..|rows| - 1], rows[|rows| - 1];
      RowFaultsSome(front);
      assert rows == front + [last];
    }
  }

  /** Marked claims with distinct identifiers, rows that can be given to a claim, a valid
      candidate, a builder's seat and a reader. */
  predicate WellPosed(claims: Json, witnesses: Json, gate: Json, builder: Json, reader: Option<Reader>) {
    && claims.Arr? && AllMarked(claims.items)
    && witnesses.Arr? && (forall i :: 0 <= i < |witnesses.items| ==> Attributable(witnesses.items[i]))
    && Valid(gate) && IsText(builder) && reader.Some?
  }

  /** Nothing is faulty exactly when the question is well posed. */
  lemma FaultlessExactly(claims: Json, witnesses: Json, gate: Json, builder: Json, reader: Option<Reader>)
    ensures Faults(claims, witnesses, gate, builder, reader) == [] <==>
              WellPosed(claims, witnesses, gate, builder, reader)
  {
    hide ClaimFaults, RowFaults, AllMarked, Attributable, Valid;
    if claims.Arr? { ClaimFaultsSome(claims.items); }
    if witnesses.Arr? { RowFaultsSome(witnesses.items); }
  }

  // ---- what the screen decides

  /** Some row is an executed probe of the claim's class with this outcome. */
  ghost predicate Probed(rows: seq<Json>, claim: Json, cls: string, outcome: string, s: Setting) {
    exists row :: Obj(row) in rows && OfClaim(row, claim) && Executed(row, cls, outcome, s)
  }

  lemma HeardProbed(claim: Json, rows: seq<Json>, s: Setting, cls: string)
    requires cls in ClassesOf(claim)
    ensures Accepted(cls, NotFound) in Heard(claim, rows, s) <==> Probed(rows, claim, cls, "bypass_not_found", s)
    ensures Accepted(cls, Found) in Heard(claim, rows, s) <==> Probed(rows, claim, cls, "bypass_found", s)
  {
    hide Classify, Executed, Heard, ClassesOf, OfClaim;
    forall row: Row ensures
      && (Classify(row, ClassesOf(claim), s) == Accepted(cls, NotFound) <==> Executed(row, cls, "bypass_not_found", s))
      && (Classify(row, ClassesOf(claim), s) == Accepted(cls, Found) <==> Executed(row, cls, "bypass_found", s))
    {
      AcceptedIsExecuted(row, ClassesOf(claim), cls, s);
    }
    HeardExactly(claim, rows, s, Accepted(cls, NotFound));
    HeardExactly(claim, rows, s, Accepted(cls, Found));
  }

  /** Every pair has a probe that found no bypass, and none has one that did. */
  ghost predicate Cleared(claims: seq<Json>, rows: seq<Json>, s: Setting) {
    forall claim, cls :: claim in claims && cls in ClassesOf(claim) ==>
      Probed(rows, claim, cls, "bypass_not_found", s) && !Probed(rows, claim, cls, "bypass_found", s)
  }

  /** The screen approves exactly when it is well posed and every (claim, class) pair is cleared. */
  lemma ApprovesExactly(claims: Json, witnesses: Json, gate: Json, builder: Json, reader: Option<Reader>)
    ensures Screen(claims, witnesses, gate, builder, reader).override.None? <==>
            && WellPosed(claims, witnesses, gate, builder, reader)
            && Cleared(claims.items, witnesses.items, Setting(gate, builder.s, reader.value))
  {
    hide Faults, TallyClaims, ClassesOf, Heard, Decide, Probed, AllMarked, Attributable, IdOf, Valid;
    FaultlessExactly(claims, witnesses, gate, builder, reader);
    if Faults(claims, witnesses, gate, builder, reader) == [] {
      var s := Setting(gate, builder.s, reader.value);
      TallyMeans(claims.items, witnesses.items, s);
      forall claim, cls | claim in claims.items && cls in ClassesOf(claim)
        ensures HasStatus(Heard(claim, witnesses.items, s), cls, Approved) <==>
                Probed(witnesses.items, claim, cls, "bypass_not_found", s)
                && !Probed(witnesses.items, claim, cls, "bypass_found", s)
      {
        DecideMeans(Heard(claim, witnesses.items, s), cls);
        HeardProbed(claim, witnesses.items, s, cls);
      }
      ClearedByStatus(claims.items, witnesses.items, s);
    }
  }

  lemma ClearedByStatus(claims: seq<Json>, rows: seq<Json>, s: Setting)
    ensures !SomePair(claims, rows, s, Revise) && !SomePair(claims, rows, s, Insufficient) <==>
            forall claim, cls :: claim in claims && cls in ClassesOf(claim) ==>
                HasStatus(Heard(claim, rows, s), cls, Approved)
  {
    hide ClassesOf, Heard, Decide;
    if !SomePair(claims, rows, s, Revise) && !SomePair(claims, rows, s, Insufficient) {
      forall claim, cls | claim in claims && cls in ClassesOf(claim)
        ensures HasStatus(Heard(claim, rows, s), cls, Approved)
      {
        assert !HasStatus(Heard(claim, rows, s), cls, Revise) && !HasStatus(Heard(claim, rows, s), cls, Insufficient);
      }
    }
  }

  // ---- what the order of the rows, and a row more, can change

  ghost predicate SameRows(a: seq<Json>, b: seq<Json>) {
    forall row :: row in a <==> row in b
  }

  lemma HeardSame(claim: Json, a: seq<Json>, b: seq<Json>, s: Setting, c: Classified)
    requires SameRows(a, b)
    ensures c in Heard(claim, a, s) <==> c in Heard(claim, b, s)
  {
    HeardExactly(claim, a, s, c);
    HeardExactly(claim, b, s, c);
  }

  lemma StatusSame(claim: Json, a: seq<Json>, b: seq<Json>, s: Setting, cls: string)
    requires SameRows(a, b)
    ensures Decide(Heard(claim, a, s), cls).0 == Decide(Heard(claim, b, s), cls).0
  {
    forall c ensures c in Heard(claim, a, s) <==> c in Heard(claim, b, s) { HeardSame(claim, a, b, s, c); }
    hide Heard, Decide, Rejects, SameRows;
    DecideMeans(Heard(claim, a, s), cls);
    DecideMeans(Heard(claim, b, s), cls);
  }

  lemma SomePairSame(claims: seq<Json>, a: seq<Json>, b: seq<Json>, s: Setting, status: Status)
    requires SameRows(a, b)
    ensures SomePair(claims, a, s, status) <==> SomePair(claims, b, s, status)
  {
    hide Heard, Decide, SameRows, ClassesOf;
    forall claim, cls
      ensures HasStatus(Heard(claim, a, s), cls, status) <==> HasStatus(Heard(claim, b, s), cls, status)
    {
      StatusSame(claim, a, b, s, cls);
    }
  }

  /** The verdict depends on which rows there are, never on their order or how often each is given. */
  lemma OrderNeverMatters(claims: Json, a: seq<Json>, b: seq<Json>, gate: Json, builder: Json, reader: Option<Reader>)
    requires SameRows(a, b)
    ensures Screen(claims, Arr(a), gate, builder, reader).override ==
              Screen(claims, Arr(b), gate, builder, reader).override
  {
    hide TallyClaims, RowFaults, ClaimFaults, Valid, Attributable;
    RowFaultsSome(a);
    RowFaultsSome(b);
    if claims.Arr? && builder.Str? && reader.Some? {
      var s := Setting(gate, builder.s, reader.value);
      TallyMeans(claims.items, a, s);
      TallyMeans(claims.items, b, s);
      SomePairSame(claims.items, a, b, s, Revise);
      SomePairSame(claims.items, a, b, s, Insufficient);
    }
  }

  /** One more row undoes an approval exactly when it cannot be given to any claim, or is an
      executed probe that found a bypass of a claim's class. No rejected row ever does. */
  lemma OneMoreRow(claims: Json, rows: seq<Json>, row: Json, gate: Json, builder: Json, reader: Option<Reader>)
    requires Screen(claims, Arr(rows), gate, builder, reader).override.None?
    ensures claims.Arr? && builder.Str? && reader.Some?
    ensures Screen(claims, Arr(rows + [row]), gate, builder, reader).override.None? <==>
            && Attributable(row)
            && !exists claim, cls :: claim in claims.items && cls in ClassesOf(claim)
                 && Probed([row], claim, cls, "bypass_found", Setting(gate, builder.s, reader.value))
  {
    hide Screen, Probed, ClassesOf, ClaimFaults, RowFaults, Valid, Attributable;
    ApprovesExactly(claims, Arr(rows), gate, builder, reader);
    ApprovesExactly(claims, Arr(rows + [row]), gate, builder, reader);
    RowFaultsSome(rows);
    RowFaultsSome(rows + [row]);
    var s := Setting(gate, builder.s, reader.value);
    forall claim, cls, outcome
      ensures Probed(rows + [row], claim, cls, outcome, s) <==>
              Probed(rows, claim, cls, outcome, s) || Probed([row], claim, cls, outcome, s)
    {
      ProbedByOneMore(rows, row, claim, cls, outcome, s);
    }
  }

  lemma ProbedByOneMore(rows: seq<Json>, row: Json, claim: Json, cls: string, outcome: string, s: Setting)
    ensures Probed(rows + [row], claim, cls, outcome, s) <==>
            Probed(rows, claim, cls, outcome, s) || Probed([row], claim, cls, outcome, s)
  {
    hide Executed, OfClaim;
  }

  /** `insufficient_evidence` exactly when nothing is faulty, no pair asks for a revision, and some
      pair has only probes that could not be executed. */
  lemma InsufficientExactly(claims: Json, witnesses: Json, gate: Json, builder: Json, reader: Option<Reader>)
    ensures Screen(claims, witnesses, gate, builder, reader).override == Some(InsufficientEvidence) <==>
            && WellPosed(claims, witnesses, gate, builder, reader)
            && (var s := Setting(gate, builder.s, reader.value);
                !SomePair(claims.items, witnesses.items, s, Revise)
                && SomePair(claims.items, witnesses.items, s, Insufficient))
  {
    hide Faults, TallyClaims, AllMarked, Attributable, IdOf, Valid, SomePair;
    FaultlessExactly(claims, witnesses, gate, builder, reader);
    if claims.Arr? && witnesses.Arr? && builder.Str? && reader.Some? {
      TallyMeans(claims.items, witnesses.items, Setting(gate, builder.s, reader.value));
    }
  }

  // ---- the reasons given

  predicate Unrepeated(reasons: seq<Reason>) {
    forall i, j :: 0 <= i < j < |reasons| ==> reasons[i] != reasons[j]
  }

  lemma {:induction false} CodesNamed(reasons: seq<Reason>, id: string, codes: seq<Code>)
    ensures var after := AddCodes(reasons, id, codes);
      && (forall r :: r in after <==> r in reasons || (r.0 == Some(id) && r.1 in codes))
      && (Unrepeated(reasons) ==> Unrepeated(after))
  {
    if codes != [] {
      var front, last := codes[..|codes| - 1], codes[|codes| - 1];
      CodesNamed(reasons, id, front);
      assert codes == front + [last];
    }
  }

  /** A reason is the code of a class of a claim, with that claim's identifier. */
  predicate Names(r: Reason, id: string, heard: seq<Classified>, cls: string) {
    r.0 == Some(id) && r.1 in Decide(heard, cls).1
  }

  lemma {:induction false} PairReasons(t: Tally, id: string, heard: seq<Classified>, classes: seq<string>)
    ensures var after := TallyPairs(t, id, heard, classes).reasons;
      && (forall r :: r in after <==> r in t.reasons || exists cls :: cls in classes && Names(r, id, heard, cls))
      && (Unrepeated(t.reasons) ==> Unrepeated(after))
  {
    hide Decide, AddCodes, Unrepeated;
    if classes != [] {
      var front, last := classes[..|classes| - 1], classes[|classes| - 1];
      PairReasons(t, id, heard, front);
      CodesNamed(TallyPairs(t, id, heard, front).reasons, id, Decide(heard, last).1);
      forall r: Reason ensures Names(r, id, heard, last) <==> r.0 == Some(id) && r.1 in Decide(heard, last).1 {
      }
      assert classes == front + [last];
    }
  }

  ghost predicate NamedBySome(r: Reason, claims: seq<Json>, rows: seq<Json>, s: Setting) {
    exists claim, cls :: claim in claims && cls in ClassesOf(claim) && Names(r, IdOf(claim), Heard(claim, rows, s), cls)
  }

  lemma {:induction false} ClaimReasons(claims: seq<Json>, rows: seq<Json>, s: Setting)
    ensures var t := TallyClaims(claims, rows, s);
      Unrepeated(t.reasons) && forall r :: r in t.reasons <==> NamedBySome(r, claims, rows, s)
  {
    hide Decide, Heard, ClassesOf, Names, Unrepeated, IdOf;
    if claims == [] {
      assert Unrepeated([]) by { NothingRepeats(); }
    } else {
      var front, last := claims[..|claims| - 1], claims[|claims| - 1];
      ClaimReasons(front, rows, s);
      PairReasons(TallyClaims(front, rows, s), IdOf(last), Heard(last, rows, s), ClassesOf(last));
      assert claims == front + [last];
    }
  }

  lemma NothingRepeats()
    ensures Unrepeated([])
  {
  }

  /** Without faults the reasons of a refusal are, each once, exactly the codes of the pairs that
      are not approved; so a refusal always gives one, and an approval gives none. */
  lemma ReasonsExplain(claims: Json, witnesses: Json, gate: Json, builder: Json, reader: Option<Reader>)
    requires claims.Arr? && witnesses.Arr? && builder.Str? && reader.Some?
    requires Faults(claims, witnesses, gate, builder, reader) == []
    ensures var res, s := Screen(claims, witnesses, gate, builder, reader), Setting(gate, builder.s, reader.value);
      && (res.reasons == [] <==> res.override.None?)
      && Unrepeated(res.reasons)
      && forall r :: r in res.reasons <==> NamedBySome(r, claims.items, witnesses.items, s)
  {
    hide Faults, TallyClaims, Heard, ClassesOf, Decide, Unrepeated;
    var s := Setting(gate, builder.s, reader.value);
    TallyMeans(claims.items, witnesses.items, s);
    ClaimReasons(claims.items, witnesses.items, s);
    NothingRepeats();
    forall claim, cls ensures Decide(Heard(claim, witnesses.items, s), cls).1 == [] <==>
                              HasStatus(Heard(claim, witnesses.items, s), cls, Approved)
    {
      DecideMeans(Heard(claim, witnesses.items, s), cls);
    }
    UnapprovedIsNamed(claims.items, witnesses.items, s);
  }

  lemma UnapprovedIsNamed(claims: seq<Json>, rows: seq<Json>, s: Setting)
    requires forall claim, cls :: Decide(Heard(claim, rows, s), cls).1 == [] <==>
               HasStatus(Heard(claim, rows, s), cls, Approved)
    ensures (exists r :: NamedBySome(r, claims, rows, s)) <==>
              SomePair(claims, rows, s, Revise) || SomePair(claims, rows, s, Insufficient)
  {
    hide Heard, ClassesOf, Decide;
    if claim, cls :| claim in claims && cls in ClassesOf(claim) && !HasStatus(Heard(claim, rows, s), cls, Approved) {
      var r := (Some(IdOf(claim)), Decide(Heard(claim, rows, s), cls).1[0]);
      assert Names(r, IdOf(claim), Heard(claim, rows, s), cls);
      assert NamedBySome(r, claims, rows, s);
      assert HasStatus(Heard(claim, rows, s), cls, Revise) || HasStatus(Heard(claim, rows, s), cls, Insufficient);
    }
  }
}
