/**
 Equality of JSON values as Python's `==` decides it, where True equals 1 and False equals 0.
 */
module PythonEquality {
  import opened Candidate

  function NumberOf(j: Json): int
    requires j.Bool? || j.Num?
  {
    if j.Num? then j.n else if j.b then 1 else 0
  }

  /** `a == b`. */
  predicate PyEq(a: Json, b: Json)
    decreases a
  {
    if (a.Bool? || a.Num?) && (b.Bool? || b.Num?) then NumberOf(a) == NumberOf(b)
    else if a.Arr? && b.Arr? then
      |a.items| == |b.items| && forall i :: 0 <= i < |a.items| ==> PyEq(a.items[i], b.items[i])
    else if a.Obj? && b.Obj? then
      a.fields.Keys == b.fields.Keys && forall k :: k in a.fields ==> PyEq(a.fields[k], b.fields[k])
    else a == b
  }

  /** A value with every truth value written as the number Python takes it for. */
  function Numeric(j: Json): Json
    decreases j
  {
    match j
    case Bool(b) => Num(if b then 1 else 0)
    case Arr(items) => Arr(seq(|items|, i requires 0 <= i < |items| => Numeric(items[i])))
    case Obj(fields) => Obj(map k | k in fields :: Numeric(fields[k]))
    case _ => j
  }

  /** Python's equality is identity up to writing truth values as numbers. */
  lemma {:induction false} EqualUpToNumbers(a: Json, b: Json)
    ensures PyEq(a, b) <==> Numeric(a) == Numeric(b)
    decreases a
  {
    if a.Arr? && b.Arr? && |a.items| == |b.items| {
      forall i | 0 <= i < |a.items|
        ensures PyEq(a.items[i], b.items[i]) <==> Numeric(a.items[i]) == Numeric(b.items[i])
      {
        EqualUpToNumbers(a.items[i], b.items[i]);
      }
      ItemsUpToNumbers(a, b);
    } else if a.Obj? && b.Obj? && a.fields.Keys == b.fields.Keys {
      forall k | k in a.fields
        ensures PyEq(a.fields[k], b.fields[k]) <==> Numeric(a.fields[k]) == Numeric(b.fields[k])
      {
        EqualUpToNumbers(a.fields[k], b.fields[k]);
      }
      FieldsUpToNumbers(a, b);
    } else {
      assert Numeric(a).Arr? ==> a.Arr? && |Numeric(a).items| == |a.items|;
      assert Numeric(b).Arr? ==> b.Arr? && |Numeric(b).items| == |b.items|;
      assert Numeric(a).Obj? ==> a.Obj? && Numeric(a).fields.Keys == a.fields.Keys;
      assert Numeric(b).Obj? ==> b.Obj? && Numeric(b).fields.Keys == b.fields.Keys;
    }
  }

  lemma ItemsUpToNumbers(a: Json, b: Json)
    requires a.Arr? && b.Arr? && |a.items| == |b.items|
    ensures Numeric(a) == Numeric(b) <==> forall i :: 0 <= i < |a.items| ==> Numeric(a.items[i]) == Numeric(b.items[i])
  {
    var x, y := Numeric(a).items, Numeric(b).items;
    assert forall i :: 0 <= i < |a.items| ==> x[i] == Numeric(a.items[i]) && y[i] == Numeric(b.items[i]);
    if forall i :: 0 <= i < |a.items| ==> Numeric(a.items[i]) == Numeric(b.items[i]) { assert x == y; }
  }

  lemma FieldsUpToNumbers(a: Json, b: Json)
    requires a.Obj? && b.Obj? && a.fields.Keys == b.fields.Keys
    ensures Numeric(a) == Numeric(b) <==> forall k :: k in a.fields ==> Numeric(a.fields[k]) == Numeric(b.fields[k])
  {
    var x, y := Numeric(a).fields, Numeric(b).fields;
    assert forall k :: k in a.fields ==> x[k] == Numeric(a.fields[k]) && y[k] == Numeric(b.fields[k]);
    if forall k :: k in a.fields ==> Numeric(a.fields[k]) == Numeric(b.fields[k]) { assert x == y; }
  }
}
