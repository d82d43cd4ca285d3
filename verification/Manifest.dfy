/**
 Staleness of a dispatch manifest: the paths at which a stored binding and a new one differ.
 */
module Manifest {
  import opened Candidate
  import opened PythonEquality

  // ---- sorted keys

  /** Code-point order on strings. */
  predicate Before(s: string, t: string) {
    t != "" && (s == "" || s[0] < t[0] || (s[0] == t[0] && Before(s[1..], t[1..])))
  }

  lemma {:induction false} BeforeIsTotal(s: string, t: string)
    ensures s == t || Before(s, t) || Before(t, s)
    ensures !(Before(s, t) && Before(t, s)) && !Before(s, s)
  {
    if s != "" { BeforeIsTotal(s[1..], s[1..]); }
    if s != "" && t != "" && s[0] == t[0] {
      BeforeIsTotal(s[1..], t[1..]);
      assert s == [s[0]] + s[1..] && t == [t[0]] + t[1..];
    }
  }

  lemma {:induction false} BeforeTransitive(s: string, t: string, u: string)
    requires Before(s, t) && Before(t, u)
    ensures Before(s, u)
  {
    if s != "" && s[0] == t[0] == u[0] { BeforeTransitive(s[1..], t[1..], u[1..]); }
  }

  predicate IsLeast(k: string, keys: set<string>) {
    k in keys && forall o :: o in keys ==> o == k || Before(k, o)
  }

  lemma {:induction false} LeastExists(keys: set<string>) returns (k: string)
    requires keys != {}
    ensures IsLeast(k, keys)
  {
    var c :| c in keys;
    if keys == {c} {
      k := c;
    } else {
      var m := LeastExists(keys - {c});
      BeforeIsTotal(c, m);
      if Before(m, c) {
        k := m;
      } else {
        k := c;
        forall o | o in keys ensures o == c || Before(c, o) {
          if o != c && o != m { BeforeTransitive(c, m, o); }
        }
      }
    }
  }

  /** `sorted(keys)`. */
  function Sorted(keys: set<string>): seq<string> {
    if keys == {} then []
    else
      assert exists k :: IsLeast(k, keys) by { var k := LeastExists(keys); }
      assert forall j, k :: IsLeast(j, keys) && IsLeast(k, keys) ==> j == k by { LeastUnique(keys); }
      var k :| IsLeast(k, keys);
      [k] + Sorted(keys - {k})
  }

  lemma LeastUnique(keys: set<string>)
    ensures forall j, k :: IsLeast(j, keys) && IsLeast(k, keys) ==> j == k
  {
    forall j, k | IsLeast(j, keys) && IsLeast(k, keys) ensures j == k { BeforeIsTotal(j, k); }
  }

  /** Sorting loses no key, adds none, and puts each before every later one. */
  lemma {:induction false} SortedMeans(keys: set<string>)
    ensures var s := Sorted(keys);
      (forall k :: k in s <==> k in keys) && forall i, j :: 0 <= i < j < |s| ==> Before(s[i], s[j])
  {
    if keys != {} {
      SortedMeans(keys - {Sorted(keys)[0]});
    }
  }

  // ---- the differences

  function Child(path: string, key: string): string {
    if path != "" then path + "." + key else key
  }

  /** `_binding_difference_paths`, as what it appends. */
  function Diff(a: Json, b: Json, path: string): seq<string>
    decreases a, 1, 0
  {
    if a.Obj? && b.Obj? then DiffKeys(a, b, Sorted(a.fields.Keys + b.fields.Keys), path)
    else if PyEq(a, b) then []
    else [if path != "" then path else "binding"]
  }

  function DiffKeys(a: Json, b: Json, keys: seq<string>, path: string): seq<string>
    requires a.Obj? && b.Obj?
    decreases a, 0, |keys|
  {
    if keys == [] then []
    else DiffKeys(a, b, keys[..|keys| - 1], path) + DiffKey(a, b, keys[|keys| - 1], path)
  }

  function DiffKey(a: Json, b: Json, key: string, path: string): seq<string>
    requires a.Obj? && b.Obj?
    decreases a, 0, 0
  {
    if key in a.fields && key in b.fields then Diff(a.fields[key], b.fields[key], Child(path, key))
    else [Child(path, key)]
  }

  method DifferencePaths(a: Json, b: Json, path: string, reasons: seq<string>) returns (after: seq<string>)
    ensures after == reasons + Diff(a, b, path)
    decreases a
  {
    hide PyEq, Sorted, DiffKeys, Diff;
    after := reasons;
    DiffByKeys(a, b, path);
    if a.Obj? && b.Obj? {
      var keys := Sorted(a.fields.Keys + b.fields.Keys);
      assert DiffKeys(a, b, keys[..0], path) == [] by { DiffKeysStep(a, b, keys, 0, path); }
      for i := 0 to |keys|
        invariant after == reasons + DiffKeys(a, b, keys[..i], path)
      {
        var key := keys[i];
        DiffKeysStep(a, b, keys, i, path);
        if key !in a.fields || key !in b.fields {
          after := after + [Child(path, key)];
        } else {
          after := DifferencePaths(a.fields[key], b.fields[key], Child(path, key), after);
        }
      }
      assert keys[..|keys|] == keys;
    } else if !PyEq(a, b) {
      after := after + [if path != "" then path else "binding"];
    }
  }

  lemma DiffByKeys(a: Json, b: Json, path: string)
    ensures Diff(a, b, path) ==
            if a.Obj? && b.Obj? then DiffKeys(a, b, Sorted(a.fields.Keys + b.fields.Keys), path)
            else if PyEq(a, b) then [] else [if path != "" then path else "binding"]
  {
    hide DiffKeys, Sorted, PyEq;
  }

  lemma DiffKeysStep(a: Json, b: Json, keys: seq<string>, i: nat, path: string)
    requires a.Obj? && b.Obj? && i <= |keys|
    ensures i < |keys| ==>
              DiffKeys(a, b, keys[..i + 1], path) == DiffKeys(a, b, keys[..i], path) + DiffKey(a, b, keys[i], path)
    ensures i == 0 ==> DiffKeys(a, b, keys[..i], path) == []
  {
    hide DiffKey, Diff;
    if i < |keys| { assert keys[..i + 1][..i] == keys[..i]; }
  }

  predicate Falsy(j: Json) {
    match j
    case Null => true
    case Bool(b) => !b
    case Num(n) => n == 0
    case Str(s) => s == ""
    case Arr(items) => items == []
    case Obj(fields) => fields == map[]
  }

  function StaleReasons(manifest: Json, binding: Json): seq<string> {
    if Falsy(manifest) then ["manifest_missing"]
    else if !manifest.Obj? || "binding" !in manifest.fields || !manifest.fields["binding"].Obj? then ["binding"]
    else Diff(manifest.fields["binding"], if binding.Obj? then binding else Obj(map[]), "")
  }

  /** `manifest_stale_reasons`. */
  method FindStaleReasons(manifest: Json, binding: Json) returns (reasons: seq<string>)
    ensures reasons == StaleReasons(manifest, binding)
  {
    if Falsy(manifest) { return ["manifest_missing"]; }
    if !manifest.Obj? || "binding" !in manifest.fields || !manifest.fields["binding"].Obj? { return ["binding"]; }
    var other := if binding.Obj? then binding else Obj(map[]);
    reasons := DifferencePaths(manifest.fields["binding"], other, "", []);
  }

  // ---- no difference is reported exactly when the values are equal

  lemma {:induction false} DiffKeysExactly(a: Json, b: Json, keys: seq<string>, path: string, r: string)
    requires a.Obj? && b.Obj?
    ensures r in DiffKeys(a, b, keys, path) <==> exists k :: k in keys && r in DiffKey(a, b, k, path)
    ensures DiffKeys(a, b, keys, path) == [] <==> forall k :: k in keys ==> DiffKey(a, b, k, path) == []
  {
    hide Diff, DiffKey;
    if keys != [] {
      var front, last := keys[..|keys| - 1], keys[|keys| - 1];
      DiffKeysExactly(a, b, front, path, r);
      assert DiffKeys(a, b, keys, path) == DiffKeys(a, b, front, path) + DiffKey(a, b, last, path);
      assert forall k :: k in keys <==> k in front || k == last;
    }
  }

  /** Over bindings nested to any depth, nothing is reported exactly when they are equal. */
  lemma {:induction false} SilentExactly(a: Json, b: Json, path: string)
    ensures Diff(a, b, path) == [] <==> PyEq(a, b)
    decreases a
  {
    if a.Obj? && b.Obj? {
      forall k | k in a.fields && k in b.fields
        ensures DiffKey(a, b, k, path) == [] <==> PyEq(a.fields[k], b.fields[k])
      {
        SilentExactly(a.fields[k], b.fields[k], Child(path, k));
      }
      SilentByKeys(a, b, path);
    }
  }

  lemma SilentByKeys(a: Json, b: Json, path: string)
    requires a.Obj? && b.Obj?
    requires forall k :: k in a.fields && k in b.fields ==>
               (DiffKey(a, b, k, path) == [] <==> PyEq(a.fields[k], b.fields[k]))
    ensures Diff(a, b, path) == [] <==> PyEq(a, b)
  {
    hide Diff, DiffKey, Sorted;
    SilentKeys(a, b, path);
    var all := a.fields.Keys + b.fields.Keys;
    if Diff(a, b, path) == [] {
      forall k | k in all ensures k in a.fields && k in b.fields { MissingIsTold(a, b, k, path); }
      assert a.fields.Keys == all == b.fields.Keys;
    }
  }

  lemma SilentKeys(a: Json, b: Json, path: string)
    requires a.Obj? && b.Obj?
    ensures Diff(a, b, path) == [] <==> forall k :: k in a.fields.Keys + b.fields.Keys ==> DiffKey(a, b, k, path) == []
  {
    hide DiffKey, DiffKeys, Sorted, PyEq;
    var all := a.fields.Keys + b.fields.Keys;
    SortedMeans(all);
    DiffKeysExactly(a, b, Sorted(all), path, "");
  }

  lemma MissingIsTold(a: Json, b: Json, k: string, path: string)
    requires a.Obj? && b.Obj? && DiffKey(a, b, k, path) == []
    ensures k in a.fields && k in b.fields
  {
    hide Diff, Sorted;
  }

  // ---- which paths are reported

  /** The place `keys` leads to through objects both values have, and there they differ: one of
      them lacks the last key, or both have values that are not both objects and not equal. */
  predicate DiffersAt(a: Json, b: Json, keys: seq<string>)
    decreases |keys|
  {
    if keys == [] then !(a.Obj? && b.Obj?) && !PyEq(a, b)
    else
      a.Obj? && b.Obj? &&
      if keys[0] in a.fields && keys[0] in b.fields then DiffersAt(a.fields[keys[0]], b.fields[keys[0]], keys[1..])
      else |keys| == 1 && (keys[0] in a.fields || keys[0] in b.fields)
  }

  /** How that place is written. */
  function PathOf(a: Json, b: Json, path: string, keys: seq<string>): string
    requires DiffersAt(a, b, keys)
    decreases |keys|
  {
    if keys == [] then if path != "" then path else "binding"
    else if keys[0] in a.fields && keys[0] in b.fields then
      PathOf(a.fields[keys[0]], b.fields[keys[0]], Child(path, keys[0]), keys[1..])
    else Child(path, keys[0])
  }

  ghost predicate NamesADifference(a: Json, b: Json, path: string, r: string) {
    exists keys :: DiffersAt(a, b, keys) && PathOf(a, b, path, keys) == r
  }

  /** The reported paths are exactly those of the places where the two bindings differ. */
  lemma {:induction false} ReportedExactly(a: Json, b: Json, path: string, r: string)
    ensures r in Diff(a, b, path) <==> NamesADifference(a, b, path, r)
    decreases a
  {
    if a.Obj? && b.Obj? {
      var keys := Sorted(a.fields.Keys + b.fields.Keys);
      SortedMeans(a.fields.Keys + b.fields.Keys);
      DiffKeysExactly(a, b, keys, path, r);
      forall k | k in keys
        ensures r in DiffKey(a, b, k, path) <==> NamesADifferenceUnder(a, b, path, r, k)
      {
        if k in a.fields && k in b.fields {
          ReportedExactly(a.fields[k], b.fields[k], Child(path, k), r);
          OneLevelDown(a, b, path, r, k);
        } else {
          assert DiffersAt(a, b, [k]) && PathOf(a, b, path, [k]) == Child(path, k);
        }
      }
      SomeFirstKey(a, b, path, r);
    } else if !PyEq(a, b) {
      assert DiffersAt(a, b, []);
    }
  }

  ghost predicate NamesADifferenceUnder(a: Json, b: Json, path: string, r: string, k: string) {
    exists keys :: |keys| > 0 && keys[0] == k && DiffersAt(a, b, keys) && PathOf(a, b, path, keys) == r
  }

  lemma OneLevelDown(a: Json, b: Json, path: string, r: string, k: string)
    requires a.Obj? && b.Obj? && k in a.fields && k in b.fields
    ensures NamesADifferenceUnder(a, b, path, r, k) <==> NamesADifference(a.fields[k], b.fields[k], Child(path, k), r)
  {
    if NamesADifferenceUnder(a, b, path, r, k) {
      var keys :| |keys| > 0 && keys[0] == k && DiffersAt(a, b, keys) && PathOf(a, b, path, keys) == r;
      assert DiffersAt(a.fields[k], b.fields[k], keys[1..]);
    }
    if NamesADifference(a.fields[k], b.fields[k], Child(path, k), r) {
      var rest :| DiffersAt(a.fields[k], b.fields[k], rest)
        && PathOf(a.fields[k], b.fields[k], Child(path, k), rest) == r;
      assert ([k] + rest)[1..] == rest;
      assert DiffersAt(a, b, [k] + rest) && PathOf(a, b, path, [k] + rest) == r;
    }
  }

  lemma SomeFirstKey(a: Json, b: Json, path: string, r: string)
    requires a.Obj? && b.Obj?
    ensures NamesADifference(a, b, path, r) <==>
            exists k :: k in a.fields.Keys + b.fields.Keys && NamesADifferenceUnder(a, b, path, r, k)
  {
    if NamesADifference(a, b, path, r) {
      var keys :| DiffersAt(a, b, keys) && PathOf(a, b, path, keys) == r;
      assert keys != [];
      assert NamesADifferenceUnder(a, b, path, r, keys[0]);
    }
  }

  // ---- how a place is written

  function Dotted(keys: seq<string>): string {
    if keys == [] then "" else if |keys| == 1 then keys[0] else keys[0] + "." + Dotted(keys[1..])
  }

  /** The keys without the empty ones in front. */
  function Inner(keys: seq<string>): seq<string> {
    if keys != [] && keys[0] == "" then Inner(keys[1..]) else keys
  }

  /** Both values have the place. */
  predicate Shared(a: Json, b: Json, keys: seq<string>)
    decreases |keys|
  {
    keys == [] || (a.Obj? && b.Obj? && keys[0] in a.fields && keys[0] in b.fields
                   && Shared(a.fields[keys[0]], b.fields[keys[0]], keys[1..]))
  }

  lemma {:induction false} PathGoesOn(a: Json, b: Json, path: string, keys: seq<string>)
    requires DiffersAt(a, b, keys) && path != ""
    ensures PathOf(a, b, path, keys) == Dotted([path] + keys)
    decreases |keys|
  {
    if keys == [] {
      assert [path] + keys == [path];
    } else {
      var child, rest := path + "." + keys[0], keys[1..];
      assert ([path] + keys)[1..] == keys;
      if keys[0] in a.fields && keys[0] in b.fields {
        PathGoesOn(a.fields[keys[0]], b.fields[keys[0]], child, rest);
        assert ([child] + rest)[1..] == rest;
        if rest == [] {
          assert Dotted(keys) == keys[0];
        } else {
          assert Dotted([path] + keys) == path + "." + (keys[0] + "." + Dotted(rest));
          assert Dotted([child] + rest) == child + "." + Dotted(rest);
        }
      }
    }
  }

  /** A place is written as its keys with a dot between any two; empty keys in front leave nothing,
      and where only such lead to it, it is called the binding if both have it and nothing if not. */
  function Written(a: Json, b: Json, keys: seq<string>): string {
    if Inner(keys) != [] then Dotted(Inner(keys)) else if Shared(a, b, keys) then "binding" else ""
  }

  lemma {:induction false} PathExactly(a: Json, b: Json, keys: seq<string>)
    requires DiffersAt(a, b, keys)
    ensures PathOf(a, b, "", keys) == Written(a, b, keys)
    decreases |keys|
  {
    if keys != [] {
      var k, rest := keys[0], keys[1..];
      if k in a.fields && k in b.fields {
        if k == "" {
          PathExactly(a.fields[k], b.fields[k], rest);
        } else {
          PathGoesOn(a.fields[k], b.fields[k], k, rest);
          assert [k] + rest == keys;
        }
      } else {
        assert keys == [k] && rest == [];
        assert Inner(keys) == if k == "" then [] else [k];
      }
    }
  }

  ghost predicate DiffersThere(a: Json, b: Json, r: string) {
    exists keys :: DiffersAt(a, b, keys) && Written(a, b, keys) == r
  }

  lemma NamedThere(a: Json, b: Json, r: string)
    ensures NamesADifference(a, b, "", r) <==> DiffersThere(a, b, r)
  {
    hide DiffersAt, Written;
    if NamesADifference(a, b, "", r) {
      var keys :| DiffersAt(a, b, keys) && PathOf(a, b, "", keys) == r;
      PathExactly(a, b, keys);
    }
    if keys :| DiffersAt(a, b, keys) && Written(a, b, keys) == r { PathExactly(a, b, keys); }
  }

  /** What a stale check tells: that there is no manifest, that it holds no binding, or the paths of just
      the places where the binding it holds and the new one differ. */
  lemma ToldExactly(manifest: Json, binding: Json, r: string)
    ensures var told := StaleReasons(manifest, binding);
      if manifest in {Null, Bool(false), Num(0), Str(""), Arr([]), Obj(map[])} then told == ["manifest_missing"]
      else if !(manifest.Obj? && "binding" in manifest.fields && manifest.fields["binding"].Obj?) then
        told == ["binding"]
      else
        r in told <==>
        DiffersThere(manifest.fields["binding"], if binding.Obj? then binding else Obj(map[]), r)
  {
    hide Diff, DiffersThere, NamesADifference;
    if manifest.Obj? && "binding" in manifest.fields && manifest.fields["binding"].Obj? {
      var a, b := manifest.fields["binding"], if binding.Obj? then binding else Obj(map[]);
      ReportedExactly(a, b, "", r);
      NamedThere(a, b, r);
    }
  }

  // ---- what staleness leaves out

  /** A manifest is not stale exactly when it holds a binding that is the new one, up to truth
      values written as numbers; a new binding that is no object counts as the empty one. */
  lemma StaleExactly(manifest: Json, binding: Json)
    ensures StaleReasons(manifest, binding) == [] <==>
            && manifest.Obj? && "binding" in manifest.fields && manifest.fields["binding"].Obj?
            && Numeric(manifest.fields["binding"]) == Numeric(if binding.Obj? then binding else Obj(map[]))
  {
    if manifest.Obj? && "binding" in manifest.fields && manifest.fields["binding"].Obj? {
      var other := if binding.Obj? then binding else Obj(map[]);
      SilentExactly(manifest.fields["binding"], other, "");
      EqualUpToNumbers(manifest.fields["binding"], other);
    }
  }

  /** So a binding that changes True into 1 is not reported. */
  lemma TruthAndOneAreNotTold()
    ensures var was, now := Obj(map["x" := Bool(true)]), Obj(map["x" := Num(1)]);
      was != now && StaleReasons(Obj(map["binding" := was]), now) == []
  {
    var was, now := Obj(map["x" := Bool(true)]), Obj(map["x" := Num(1)]);
    assert was.fields["x"] != now.fields["x"];
    StaleExactly(Obj(map["binding" := was]), now);
    assert Numeric(was) == Obj(map["x" := Num(1)]) == Numeric(now);
  }
}
