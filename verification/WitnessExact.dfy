/**
 The rows of a witness screen told field by field: what a row must look like, which code each row
 gets, and which codes each (claim, class) pair is given.
 */
module WitnessExact {
  import opened Text
  import opened Candidate
  import opened Witness

  // ---- the shape of a row

  predicate WordAt(m: map<string, Json>, key: string) {
    key in m && m[key].Str? && |m[key].s| > 0
  }

  predicate DigestAt(m: map<string, Json>, key: string) {
    key in m && m[key].Str? && IsDigest(m[key].s)
  }

  /** Who tried to break the claim, and how. */
  predicate ProbeShaped(j: Json) {
    && j.Obj? && WordAt(j.fields, "kind") && WordAt(j.fields, "ref") && WordAt(j.fields, "author_seat")
    && forall key :: key in j.fields ==> key == "kind" || key == "ref" || key == "author_seat"
  }

  predicate ResultShaped(j: Json) {
    && j.Obj? && "outcome" in j.fields && WordAt(j.fields, "evidence_path") && DigestAt(j.fields, "evidence_sha256")
    && forall key :: key in j.fields ==> key == "outcome" || key == "evidence_path" || key == "evidence_sha256"
  }

  predicate KnownKey(key: string) {
    || key == "claim_id" || key == "claim_class" || key == "candidate" || key == "probe"
    || key == "expected_witness" || key == "result" || key == "not_executable_reason" || key == "id"
  }

  predicate Shaped(row: Row) {
    && (forall key :: key in row ==> KnownKey(key))
    && ("id" in row ==> row["id"].Str? || row["id"].Num?)
    && WordAt(row, "claim_id") && WordAt(row, "claim_class") && WordAt(row, "expected_witness")
    && "candidate" in row && "probe" in row && "result" in row && "not_executable_reason" in row
    && ProbeShaped(row["probe"])
    && (row["result"] == Null || ResultShaped(row["result"]))
    && (row["not_executable_reason"] == Null || row["not_executable_reason"].Str?)
  }

  lemma ProbeExactly(j: Json)
    ensures ProbeOk(j) <==> ProbeShaped(j)
  {
    if ProbeOk(j) {
      assert forall key :: key in PROBE_KEYS ==> IsText(j.fields[key]);
      assert "kind" in PROBE_KEYS && "ref" in PROBE_KEYS && "author_seat" in PROBE_KEYS;
    }
    if ProbeShaped(j) { assert j.fields.Keys == PROBE_KEYS; }
  }

  lemma ResultExactly(j: Json)
    ensures ResultOk(j) <==> ResultShaped(j)
  {
    if ResultOk(j) {
      assert "outcome" in RESULT_KEYS && forall key :: key in j.fields <==> key in RESULT_KEYS;
    }
    if ResultShaped(j) { assert j.fields.Keys == RESULT_KEYS; }
  }

  lemma KeysExactly(row: Row)
    ensures ROW_KEYS <= row.Keys <= ROW_KEYS + {"id"} <==>
            && (forall key :: key in row ==> KnownKey(key))
            && "claim_id" in row && "claim_class" in row && "candidate" in row && "probe" in row
            && "expected_witness" in row && "result" in row && "not_executable_reason" in row
  {
    assert forall key :: KnownKey(key) <==> key in ROW_KEYS + {"id"};
  }

  lemma ShapedExactly(row: Row)
    ensures RowShapeOk(row) <==> Shaped(row)
  {
    hide ProbeOk, ResultOk, ProbeShaped, ResultShaped, KnownKey;
    KeysExactly(row);
    if "probe" in row { ProbeExactly(row["probe"]); }
    if "result" in row { ResultExactly(row["result"]); }
  }

  // ---- the code of a row

  ghost predicate IsCandidate(j: Json) {
    IsReceipt(j) || IsArtifact(j)
  }

  predicate IsOutcome(j: Json) {
    j == Str("bypass_found") || j == Str("bypass_not_found")
  }

  predicate HasEvidence(path: string, s: Setting) {
    s.reader(path).Some? && IsDigest(s.reader(path).value)
  }

  /** What a row with a result, or the reason for none, is accepted or rejected as. */
  ghost predicate ResultCoded(row: Row, cls: string, s: Setting, c: Classified)
    requires Shaped(row)
  {
    if row["result"] == Null then
      c == if WordAt(row, "not_executable_reason") then Accepted(cls, Unexecuted)
           else Rejected(ResultInconsistent, Some(cls))
    else
      var result := row["result"].fields;
      var path, sha := result["evidence_path"].s, result["evidence_sha256"].s;
      c == if row["not_executable_reason"] != Null then Rejected(ResultInconsistent, Some(cls))
           else if !IsOutcome(result["outcome"]) then Rejected(OutcomeInvalid, Some(cls))
           else if !HasEvidence(path, s) then Rejected(EvidenceMissing, Some(cls))
           else if s.reader(path) != Some(sha) then Rejected(EvidenceShaMismatch, Some(cls))
           else if result["outcome"] == Str("bypass_found") then Accepted(cls, Found)
           else Accepted(cls, NotFound)
  }

  lemma ResultCodedExactly(row: Row, cls: string, s: Setting)
    requires Shaped(row) && ResultOk(row["result"]) == (row["result"] != Null)
    ensures ResultCoded(row, cls, s, ClassifyResult(row["result"], row["not_executable_reason"], cls, s))
  {
    assert forall text :: IsHex64(text) <==> IsDigest(text);
    hide IsHex64, IsDigest, ProbeShaped, KnownKey, ResultOk;
  }

  lemma ShapedParts(row: Row)
    requires Shaped(row)
    ensures "claim_class" in row && row["claim_class"].Str? && "candidate" in row
    ensures "result" in row && ResultOk(row["result"]) == (row["result"] != Null)
    ensures "probe" in row && row["probe"].Obj? && "author_seat" in row["probe"].fields
    ensures row["probe"].fields["author_seat"].Str?
  {
    ResultExactly(row["result"]);
    hide ResultOk, KnownKey;
  }

  /** The code of a row. It is rejected, for every class, when its shape is wrong or its class is not
      one of the claim's; for its own class, when it is about no candidate, one of another kind or
      another one, when the builder wrote it, or when its result is not in order; and otherwise it
      is accepted for its class with what it says. */
  lemma CodedExactly(row: Row, classes: seq<string>, s: Setting)
    ensures var c := Classify(row, classes, s);
      if !Shaped(row) then c == Rejected(Malformed, None)
      else if row["claim_class"].s !in classes then c == Rejected(ClassMismatch, None)
      else
        var cls := row["claim_class"].s;
        if !IsCandidate(row["candidate"]) || !IsCandidate(s.gate) then c == Rejected(CandidateUnavailable, Some(cls))
        else if IsReceipt(row["candidate"]) != IsReceipt(s.gate) then c == Rejected(CandidateKindMismatch, Some(cls))
        else if row["candidate"] != s.gate then c == Rejected(CandidateChanged, Some(cls))
        else if row["probe"].fields["author_seat"] == Str(s.builder) then c == Rejected(BuilderAuthored, Some(cls))
        else ResultCoded(row, cls, s, c)
  {
    ShapedExactly(row);
    hide ClassifyResult, RowShapeOk, ResultCoded, Shaped;
    if Shaped(row) {
      ShapedParts(row);
      ResultCodedExactly(row, row["claim_class"].s, s);
      ComparedExactly(row["candidate"], s.gate);
      hide IsReceipt, IsArtifact, Compare, Valid, ResultOk;
    }
  }

  // ---- the codes of a pair

  /** A row that counts against the pair: rejected with this code, for this class or for no class. */
  ghost predicate Against(rows: seq<Classified>, cls: string, code: Code) {
    Rejected(code, None) in rows || Rejected(code, Some(cls)) in rows
  }

  lemma {:induction false} RejectionsExactly(rows: seq<Classified>, cls: string)
    ensures forall code :: code in Rejections(rows, cls) <==> Against(rows, cls, code)
    ensures forall i, j :: 0 <= i < j < |Rejections(rows, cls)| ==> Rejections(rows, cls)[i] != Rejections(rows, cls)[j]
  {
    if rows != [] {
      var front, last := rows[..|rows| - 1], rows[|rows| - 1];
      RejectionsExactly(front, cls);
      assert rows == front + [last];
      forall code ensures code in Rejections(rows, cls) <==> Against(rows, cls, code) {
        assert Against(rows, cls, code) <==>
          Against(front, cls, code) || last == Rejected(code, None) || last == Rejected(code, Some(cls));
      }
    }
  }

  ghost predicate AnyAgainst(rows: seq<Classified>, cls: string) {
    exists code :: Against(rows, cls, code)
  }

  /** Which codes a pair is given. A probe that found a bypass is the only code; one that found none
      clears the pair; without either, every code of a row that counts against it is given once,
      after which an unexecuted row is told; and a pair no row speaks to is told to be missing. */
  lemma CodesExactly(rows: seq<Classified>, cls: string)
    ensures var (status, codes) := Decide(rows, cls);
      && (forall i, j :: 0 <= i < j < |codes| ==> codes[i] != codes[j] || codes[i] == NotExecutable)
      && (status == Revise <==>
            || Accepted(cls, Found) in rows
            || (Accepted(cls, NotFound) !in rows
                && (AnyAgainst(rows, cls) || Accepted(cls, Unexecuted) !in rows)))
      && forall code :: code in codes <==>
           if Accepted(cls, Found) in rows then code == BypassFound
           else if Accepted(cls, NotFound) in rows then false
           else
             || Against(rows, cls, code)
             || (code == NotExecutable && Accepted(cls, Unexecuted) in rows)
             || (code == Missing && Accepted(cls, Unexecuted) !in rows && !AnyAgainst(rows, cls))
  {
    RejectionsExactly(rows, cls);
    hide Against, Rejects, Rejections;
    var rejected := Rejections(rows, cls);
    if rejected != [] { assert rejected[0] in rejected; }
  }

  // ---- the fault of a claim

  predicate ClassesShaped(m: map<string, Json>) {
    && "claim_classes" in m && m["claim_classes"].Arr?
    && var items := m["claim_classes"].items;
    && items != [] && (forall i :: 0 <= i < |items| ==> items[i].Str?)
    && forall i, j :: 0 <= i < j < |items| ==> items[i] != items[j]
  }

  predicate KnownClass(j: Json) {
    j == Str("source_of_truth") || j == Str("only") || j == Str("never") || j == Str("fail_closed")
  }

  /** What is wrong with a marked claim after those before it: it has no identifier, and is told
      without one; an identifier it repeats or a list of classes out of shape; or an unknown class. */
  lemma ClaimFaultExactly(claims: seq<Json>, claim: Json)
    ensures var fault := ClaimProblem(claim, Seen(claims));
      if !claim.Obj? || !WordAt(claim.fields, "claim_id") then fault == Some((None, ClaimsMalformed))
      else
        var id := claim.fields["claim_id"];
        var repeated := exists i :: 0 <= i < |claims| && claims[i].Obj? && WordAt(claims[i].fields, "claim_id")
                                    && claims[i].fields["claim_id"] == id;
        if repeated || !ClassesShaped(claim.fields) then fault == Some((Some(id.s), ClaimsMalformed))
        else if exists i :: 0 <= i < |claim.fields["claim_classes"].items|
                            && !KnownClass(claim.fields["claim_classes"].items[i])
             then fault == Some((Some(id.s), ClaimClassUnknown))
        else fault == None
  {
    if claim.Obj? && WordAt(claim.fields, "claim_id") {
      SeenIsRepeated(claims, claim.fields["claim_id"].s);
      if "claim_classes" in claim.fields && claim.fields["claim_classes"].Arr? { ClassesOfShape(claim); }
      hide Seen, ClassesShaped, KnownClass, AllStrings, NoRepeats, Strings;
    }
  }

  lemma SeenIsRepeated(claims: seq<Json>, id: string)
    requires id != ""
    ensures id in Seen(claims) <==>
            exists i :: 0 <= i < |claims| && claims[i].Obj? && WordAt(claims[i].fields, "claim_id")
                        && claims[i].fields["claim_id"] == Str(id)
  {
    SeenExactly(claims, id);
  }

  lemma ClassesOfShape(claim: Json)
    requires claim.Obj? && "claim_classes" in claim.fields && claim.fields["claim_classes"].Arr?
    ensures var items := claim.fields["claim_classes"].items;
      && (ClassesShaped(claim.fields) <==> items != [] && AllStrings(items) && NoRepeats(Strings(items)))
      && (AllStrings(items) ==>
            ((exists c :: c in Strings(items) && c !in CLAIM_CLASSES) <==>
             exists i :: 0 <= i < |items| && !KnownClass(items[i])))
  {
    var items := claim.fields["claim_classes"].items;
    if AllStrings(items) {
      assert forall i :: 0 <= i < |items| ==> Strings(items)[i] == items[i].s;
      forall i | 0 <= i < |items| ensures KnownClass(items[i]) <==> Strings(items)[i] in CLAIM_CLASSES { }
      if i :| 0 <= i < |items| && !KnownClass(items[i]) { assert Strings(items)[i] in Strings(items); }
      assert NoRepeats(Strings(items)) <==> forall i, j :: 0 <= i < j < |items| ==> items[i] != items[j];
    }
  }

  // ---- all faults

  lemma {:induction false} ClaimFaultsExactly(claims: seq<Json>, r: Reason)
    ensures r in ClaimFaults(claims) <==>
            exists i :: 0 <= i < |claims| && ClaimProblem(claims[i], Seen(claims[..i])) == Some(r)
  {
    hide ClaimProblem, Seen;
    if claims != [] {
      var front, n := claims[..|claims| - 1], |claims| - 1;
      ClaimFaultsExactly(front, r);
      assert forall i :: 0 <= i < n ==> front[i] == claims[i] && front[..i] == claims[..i];
    }
  }

  predicate ToldOfClaim(row: Json) {
    row.Obj? && "claim_id" in row.fields && row.fields["claim_id"].Str?
  }

  lemma {:induction false} RowFaultsExactly(rows: seq<Json>, r: Reason)
    ensures r in RowFaults(rows) <==> r == (None, Malformed) && exists i :: 0 <= i < |rows| && !ToldOfClaim(rows[i])
  {
    if rows != [] {
      var front, n := rows[..|rows| - 1], |rows| - 1;
      RowFaultsExactly(front, r);
      hide ToldOfClaim;
      assert forall i :: 0 <= i < n ==> front[i] == rows[i];
      assert Attributable(rows[n]) <==> ToldOfClaim(rows[n]) by { Told(rows[n]); }
    }
  }

  lemma Told(row: Json)
    ensures Attributable(row) <==> ToldOfClaim(row)
  {
  }

  /** The faults of a question, each with its code. */
  lemma FaultsExactly(claims: Json, witnesses: Json, gate: Json, builder: Json, reader: Option<Reader>, r: Reason)
    ensures r in Faults(claims, witnesses, gate, builder, reader) <==>
            || (r == (None, ClaimsMalformed) && !claims.Arr?)
            || (claims.Arr? && exists i :: 0 <= i < |claims.items|
                                           && ClaimProblem(claims.items[i], Seen(claims.items[..i])) == Some(r))
            || (r == (None, GateCandidateUnavailable) && !IsCandidate(gate))
            || (r == (None, BuilderSeatUnavailable) && !(builder.Str? && |builder.s| > 0))
            || (r == (None, ReaderUnavailable) && reader.None?)
            || (r == (None, Malformed)
                && (witnesses.Arr? ==> exists i :: 0 <= i < |witnesses.items| && !ToldOfClaim(witnesses.items[i])))
  {
    if claims.Arr? { ClaimFaultsExactly(claims.items, r); }
    if witnesses.Arr? { RowFaultsExactly(witnesses.items, r); }
    ComparedExactly(gate, gate);
    hide ClaimFaults, RowFaults, ClaimProblem, Seen, ToldOfClaim, IsReceipt, IsArtifact, Valid, Compare;
  }
}
