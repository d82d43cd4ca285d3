/**
 JSON values and the one candidate object the authority chain, the gate, and the
 witness screen compare by.
 */
module Candidate {
  import opened Text

  datatype Json =
    | Null
    | Bool(b: bool)
    | Num(n: int)
    | Str(s: string)
    | Arr(items: seq<Json>)
    | Obj(fields: map<string, Json>)

  datatype CompareReason = Unavailable | KindMismatch | Changed

  const OWNED_RECEIPT_KEYS: set<string> := {"kind", "manifest_digest", "index_digest"}
  const STATUS_ARTIFACT_KEYS: set<string> := {"kind", "status_sha256"}

  predicate HexField(fields: map<string, Json>, key: string) {
    key in fields && fields[key].Str? && IsHex64(fields[key].s)
  }

  /** `validate_candidate(obj)[0]`. */
  predicate Valid(j: Json) {
    j.Obj? && "kind" in j.fields && j.fields["kind"].Str? &&
    var kind := j.fields["kind"].s;
    if kind == "owned_receipt" then
      j.fields.Keys == OWNED_RECEIPT_KEYS
      && HexField(j.fields, "manifest_digest") && HexField(j.fields, "index_digest")
    else
      kind == "status_artifact"
      && j.fields.Keys == STATUS_ARTIFACT_KEYS
      && HexField(j.fields, "status_sha256")
  }

  /** `candidate_compare`: None when equal, else the reason, field by field. */
  function Compare(a: Json, b: Json): Option<CompareReason> {
    if !Valid(a) || !Valid(b) then Some(Unavailable)
    else if a.fields["kind"] != b.fields["kind"] then Some(KindMismatch)
    else if a.fields["kind"].s == "owned_receipt" then
      if a.fields["manifest_digest"] != b.fields["manifest_digest"]
         || a.fields["index_digest"] != b.fields["index_digest"]
      then Some(Changed) else None
    else if a.fields["status_sha256"] != b.fields["status_sha256"] then Some(Changed)
    else None
  }

  predicate Same(a: Json, b: Json) {
    Compare(a, b).None?
  }

  /** Candidate equality is exactly identity of two valid objects: the digest keys leave
      nothing out, and nothing outside them is ever compared. */
  lemma SameIsValidIdentity(a: Json, b: Json)
    ensures Same(a, b) <==> Valid(a) && a == b
  {
    if Same(a, b) {
      assert a.fields["kind"].s == b.fields["kind"].s;
      assert a.fields.Keys == b.fields.Keys;
      forall k | k in a.fields ensures a.fields[k] == b.fields[k] {
        if k == "kind" {
        } else if a.fields["kind"].s == "owned_receipt" {
          assert k in OWNED_RECEIPT_KEYS;
        } else {
          assert k in STATUS_ARTIFACT_KEYS;
        }
      }
      assert a.fields == b.fields;
    }
  }

  /** Why two candidates differ never depends on the side they stand on. */
  lemma CompareSymmetric(a: Json, b: Json)
    ensures Compare(a, b) == Compare(b, a)
  {
  }

  // ---- the two shapes

  predicate IsDigest(s: string) {
    |s| == 64 && forall i :: 0 <= i < 64 ==> '0' <= s[i] <= '9' || 'a' <= s[i] <= 'f'
  }

  function OwnedReceipt(manifest: string, index: string): Json {
    Obj(map["kind" := Str("owned_receipt"), "manifest_digest" := Str(manifest), "index_digest" := Str(index)])
  }

  function StatusArtifact(sha: string): Json {
    Obj(map["kind" := Str("status_artifact"), "status_sha256" := Str(sha)])
  }

  ghost predicate IsReceipt(j: Json) {
    exists m, i :: IsDigest(m) && IsDigest(i) && j == OwnedReceipt(m, i)
  }

  ghost predicate IsArtifact(j: Json) {
    exists sha :: IsDigest(sha) && j == StatusArtifact(sha)
  }

  lemma ReceiptExactly(j: Json)
    ensures IsReceipt(j) <==> Valid(j) && j.fields["kind"].s == "owned_receipt"
  {
    if Valid(j) && j.fields["kind"].s == "owned_receipt" {
      var m, i := j.fields["manifest_digest"].s, j.fields["index_digest"].s;
      assert j.fields == OwnedReceipt(m, i).fields by {
        assert forall k :: k in j.fields.Keys <==> k in OWNED_RECEIPT_KEYS;
      }
      assert IsDigest(m) && IsDigest(i);
    }
    if m, i :| IsDigest(m) && IsDigest(i) && j == OwnedReceipt(m, i) {
      assert j.fields["manifest_digest"] == Str(m) && j.fields["index_digest"] == Str(i);
      assert j.fields["kind"] == Str("owned_receipt") && j.fields.Keys == OWNED_RECEIPT_KEYS;
    }
  }

  lemma ArtifactExactly(j: Json)
    ensures IsArtifact(j) <==> Valid(j) && j.fields["kind"].s == "status_artifact"
  {
    if Valid(j) && j.fields["kind"].s == "status_artifact" {
      var sha := j.fields["status_sha256"].s;
      assert j.fields == StatusArtifact(sha).fields by {
        assert forall k :: k in j.fields.Keys <==> k in STATUS_ARTIFACT_KEYS;
      }
      assert IsDigest(sha);
    }
    if sha :| IsDigest(sha) && j == StatusArtifact(sha) {
      assert j.fields["status_sha256"] == Str(sha);
      assert j.fields["kind"] == Str("status_artifact") && j.fields.Keys == STATUS_ARTIFACT_KEYS;
    }
  }

  /** A candidate is one of the two shapes and nothing else; two compare equal, differ in kind, differ
      in a digest, or cannot be compared because one is no candidate. */
  lemma ComparedExactly(a: Json, b: Json)
    ensures Valid(a) <==> IsReceipt(a) || IsArtifact(a)
    ensures Compare(a, b) ==
            if !(IsReceipt(a) || IsArtifact(a)) || !(IsReceipt(b) || IsArtifact(b)) then Some(Unavailable)
            else if IsReceipt(a) != IsReceipt(b) then Some(KindMismatch)
            else if a != b then Some(Changed)
            else None
  {
    ReceiptExactly(a);
    ArtifactExactly(a);
    ReceiptExactly(b);
    ArtifactExactly(b);
    SameIsValidIdentity(a, b);
    hide IsReceipt, IsArtifact;
  }
}
