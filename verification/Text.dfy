/**
 Strings as the repository's modules read and print them: lowercase hex digests,
 decimal numerals, and the whitespace that Python's `strip` removes.
 */
module Text {

  datatype Option<+T> = None | Some(value: T)

  predicate IsHexDigit(c: char) {
    '0' <= c <= '9' || 'a' <= c <= 'f'
  }

  /** Exactly 64 lowercase hex characters, as `re.fullmatch` decides it. */
  predicate IsHex64(s: string) {
    |s| == 64 && forall i :: 0 <= i < |s| ==> IsHexDigit(s[i])
  }

  /** What `re.match` with a trailing `$` accepts: `$` also matches before one final newline. */
  predicate MatchesHex64Dollar(s: string) {
    IsHex64(s) || (|s| == 65 && s[64] == '\n' && IsHex64(s[..64]))
  }

  predicate IsDigit(c: char) {
    '0' <= c <= '9'
  }

  predicate AllDigits(s: string) {
    forall i :: 0 <= i < |s| ==> IsDigit(s[i])
  }

  function DigitOf(d: nat): (c: char)
    requires d < 10
    ensures IsDigit(c) && c as int - '0' as int == d
  {
    "0123456789"[d]
  }

  /** `%d` of a non-negative integer. */
  function Decimal(n: nat): (s: string)
    ensures s != "" && AllDigits(s)
    ensures n > 0 ==> s[0] != '0'
    ensures n == 0 ==> s == "0"
  {
    if n < 10 then [DigitOf(n)] else Decimal(n / 10) + [DigitOf(n % 10)]
  }

  /** `int(s)` of a run of decimal digits. */
  function Value(s: string): nat
    requires AllDigits(s)
  {
    if s == "" then 0
    else 10 * Value(s[..|s| - 1]) + (s[|s| - 1] as int - '0' as int)
  }

  lemma {:induction false} ValueOfDecimal(n: nat)
    ensures Value(Decimal(n)) == n
  {
    if n >= 10 {
      ValueOfDecimal(n / 10);
      assert Decimal(n)[..|Decimal(n)| - 1] == Decimal(n / 10);
    }
  }

  function Pow10(k: nat): nat {
    if k == 0 then 1 else 10 * Pow10(k - 1)
  }

  lemma {:induction false} ValueBelow(s: string)
    requires AllDigits(s)
    ensures Value(s) < Pow10(|s|)
  {
    if s != "" { ValueBelow(s[..|s| - 1]); }
  }

  lemma {:induction false} PowPositive(k: nat)
    ensures Pow10(k) >= 1
  {
    if k > 0 { PowPositive(k - 1); }
  }

  lemma {:induction false} PowGrows(j: nat, k: nat)
    requires j <= k
    ensures Pow10(j) <= Pow10(k)
  {
    if j < k { PowGrows(j, k - 1); }
  }

  function Zeros(k: nat): (s: string)
    ensures |s| == k && AllDigits(s)
    ensures forall i :: 0 <= i < k ==> s[i] == '0'
  {
    if k == 0 then "" else Zeros(k - 1) + "0"
  }

  lemma {:induction false} LeadingZerosAddNothing(k: nat, s: string)
    requires AllDigits(s)
    ensures Value(Zeros(k) + s) == Value(s)
  {
    if s == "" {
      assert Zeros(k) + s == Zeros(k);
      if k > 0 {
        LeadingZerosAddNothing(k - 1, "");
        assert Zeros(k)[..k - 1] == Zeros(k - 1) == Zeros(k - 1) + "";
      }
    } else {
      LeadingZerosAddNothing(k, s[..|s| - 1]);
      assert (Zeros(k) + s)[..k + |s| - 1] == Zeros(k) + s[..|s| - 1];
    }
  }

  /** `%04d`: the decimal numeral, padded with zeros to at least four characters. */
  function Pad4(n: nat): (s: string)
    ensures AllDigits(s)
  {
    var d := Decimal(n);
    if |d| < 4 then Zeros(4 - |d|) + d else d
  }

  lemma Pad4Injective(m: nat, n: nat)
    requires Pad4(m) == Pad4(n)
    ensures m == n
  {
    ValueOfDecimal(m);
    ValueOfDecimal(n);
    if |Decimal(m)| < 4 { LeadingZerosAddNothing(4 - |Decimal(m)|, Decimal(m)); }
    if |Decimal(n)| < 4 { LeadingZerosAddNothing(4 - |Decimal(n)|, Decimal(n)); }
  }

  /** The characters `str.strip` and `str.isspace` treat as whitespace. */
  predicate IsSpace(c: char) {
    var k := c as int;
    9 <= k <= 13 || 28 <= k <= 32 || k == 0x85 || k == 0xA0 || k == 0x1680
    || 0x2000 <= k <= 0x200A || k == 0x2028 || k == 0x2029 || k == 0x202F
    || k == 0x205F || k == 0x3000
  }

  function StripLeft(s: string): (t: string)
    ensures t != "" ==> !IsSpace(t[0])
  {
    if s != "" && IsSpace(s[0]) then StripLeft(s[1..]) else s
  }

  function StripRight(s: string): (t: string)
    ensures t != "" ==> !IsSpace(t[|t| - 1])
    ensures t <= s
  {
    if s != "" && IsSpace(s[|s| - 1]) then StripRight(s[..|s| - 1]) else s
  }

  /** `str.strip()`. */
  function Strip(s: string): (t: string)
    ensures t != "" ==> !IsSpace(t[0]) && !IsSpace(t[|t| - 1])
  {
    StripRight(StripLeft(s))
  }

  lemma StripKeeps(s: string)
    requires s != "" && !IsSpace(s[0]) && !IsSpace(s[|s| - 1])
    ensures Strip(s) == s
  {
    assert StripLeft(s) == s;
  }

  predicate AllSpace(s: string) {
    forall i :: 0 <= i < |s| ==> IsSpace(s[i])
  }

  lemma {:induction false} StripLeftConcat(p: string, x: string)
    ensures StripLeft(p + x) == if AllSpace(p) then StripLeft(x) else StripLeft(p) + x
    ensures AllSpace(p) <==> StripLeft(p) == ""
  {
    hide IsSpace;
    if p == "" {
      assert p + x == x;
    } else {
      assert (p + x)[1..] == p[1..] + x;
      StripLeftConcat(p[1..], x);
      assert AllSpace(p) <==> IsSpace(p[0]) && AllSpace(p[1..]) by { assert p == [p[0]] + p[1..]; }
    }
  }

  lemma {:induction false} StripRightConcat(x: string, q: string)
    ensures StripRight(x + q) == if AllSpace(q) then StripRight(x) else x + StripRight(q)
    ensures AllSpace(q) <==> StripRight(q) == ""
  {
    hide IsSpace;
    if q == "" {
      assert x + q == x;
    } else {
      var front := q[..|q| - 1];
      assert (x + q)[..|x + q| - 1] == x + front;
      StripRightConcat(x, front);
      assert AllSpace(q) <==> AllSpace(front) && IsSpace(q[|q| - 1]) by { assert q == front + [q[|q| - 1]]; }
    }
  }

  lemma {:induction false} StripLeftCuts(s: string)
    ensures exists a :: AllSpace(a) && s == a + StripLeft(s)
  {
    hide IsSpace;
    if s != "" && IsSpace(s[0]) {
      StripLeftCuts(s[1..]);
      var a :| AllSpace(a) && s[1..] == a + StripLeft(s[1..]);
      assert AllSpace([s[0]] + a) && s == [s[0]] + a + StripLeft(s);
    } else {
      assert AllSpace("") && s == "" + StripLeft(s);
    }
  }

  lemma {:induction false} StripRightCuts(s: string)
    ensures exists d :: AllSpace(d) && s == StripRight(s) + d
  {
    hide IsSpace;
    if s != "" && IsSpace(s[|s| - 1]) {
      var front := s[..|s| - 1];
      StripRightCuts(front);
      var d :| AllSpace(d) && front == StripRight(front) + d;
      assert AllSpace(d + [s[|s| - 1]]) && s == StripRight(s) + (d + [s[|s| - 1]]);
    } else {
      assert AllSpace("") && s == StripRight(s) + "";
    }
  }

  /** The text starts and ends with something else than whitespace. */
  predicate Trimmed(t: string) {
    t != "" && !IsSpace(t[0]) && !IsSpace(t[|t| - 1])
  }

  /** `a` and `d` are the whitespace around `t` in `s`. */
  predicate Around(s: string, a: string, t: string, d: string) {
    AllSpace(a) && AllSpace(d) && s == a + t + d
  }

  /** A nonempty text is what stripping leaves exactly when it is trimmed and the rest is whitespace
      around it. */
  lemma StripExactly(s: string, t: string)
    requires t != ""
    ensures Strip(s) == t <==> Trimmed(t) && exists a, d :: Around(s, a, t, d)
  {
    hide IsSpace;
    if Strip(s) == t {
      StripLeftCuts(s);
      StripRightCuts(StripLeft(s));
      var a :| AllSpace(a) && s == a + StripLeft(s);
      var d :| AllSpace(d) && StripLeft(s) == StripRight(StripLeft(s)) + d;
      assert s == a + t + d;
      assert Around(s, a, t, d);
    }
    if Trimmed(t) {
      if a, d :| Around(s, a, t, d) {
        assert s == a + (t + d);
        StripLeftConcat(a, t + d);
        assert (t + d)[0] == t[0];
        StripRightConcat(t, d);
      }
    }
  }
}
