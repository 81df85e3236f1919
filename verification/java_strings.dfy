// The handful of java.lang.String / Integer operations that the table
// splitter and the extension filter rely on, with Java's semantics:
// `contains`, `lastIndexOf`, `replace(CharSequence, CharSequence)` and the
// decimal rendering used by string concatenation of an int.
module JavaStrings {

  /** `t` occurs in `s` starting at index `i`. */
  ghost predicate OccursAt(s: string, i: int, t: string)
  {
    0 <= i && i + |t| <= |s| && s[i..i + |t|] == t
  }

  /** `s.contains(t)`: some occurrence of `t` starts somewhere in `s`. */
  predicate Contains(s: string, t: string)
    decreases |s|
  {
    if |t| > |s| then false
    else if s[..|t|] == t then true
    else Contains(s[1..], t)
  }

  /** The scanning definition of Contains agrees with the existence of an occurrence. */
  lemma {:induction false} ContainsIff(s: string, t: string)
    ensures Contains(s, t) <==> exists i :: OccursAt(s, i, t)
    decreases |s|
  {
    if |t| > |s| {
    } else if s[..|t|] == t {
      assert OccursAt(s, 0, t);
    } else {
      ContainsIff(s[1..], t);
      if Contains(s[1..], t) {
        var i :| OccursAt(s[1..], i, t);
        assert s[1..][i..i + |t|] == s[i + 1..i + 1 + |t|];
        assert OccursAt(s, i + 1, t);
      }
      if i :| OccursAt(s, i, t) {
        assert i != 0;
        assert s[1..][i - 1..i - 1 + |t|] == s[i..i + |t|];
        assert OccursAt(s[1..], i - 1, t);
      }
    }
  }

  /** A one-character needle is found exactly when that character is in the string. */
  lemma ContainsChar(s: string, c: char)
    ensures Contains(s, [c]) <==> c in s
  {
    ContainsIff(s, [c]);
    if c in s {
      var i :| 0 <= i < |s| && s[i] == c;
      assert s[i..i + 1] == [c];
      assert OccursAt(s, i, [c]);
    }
    if i :| OccursAt(s, i, [c]) {
      assert s[i] == s[i..i + 1][0];
    }
  }

  /** `s.lastIndexOf(c)`: the index of the last `c` in `s`, or -1 when there is none. */
  function LastIndexOf(s: string, c: char): (r: int)
    ensures -1 <= r < |s|
    ensures r == -1 ==> c !in s
    ensures 0 <= r ==> s[r] == c && forall j :: r < j < |s| ==> s[j] != c
  {
    if |s| == 0 then -1
    else if s[|s| - 1] == c then |s| - 1
    else LastIndexOf(s[..|s| - 1], c)
  }

  /**
   * `s.replace(t, r)` for a non-empty `t`: every occurrence of `t`, found
   * left to right and without overlap, is replaced by `r`.
   */
  function ReplaceAll(s: string, t: string, r: string): (res: string)
    requires |t| > 0
    ensures !Contains(s, t) ==> res == s
    decreases |s|
  {
    if |s| < |t| then s
    else if s[..|t|] == t then r + ReplaceAll(s[|t|..], t, r)
    else [s[0]] + ReplaceAll(s[1..], t, r)
  }

  /** A prefix in which no occurrence of `t` starts passes through `replace` unchanged. */
  lemma {:induction false} ReplaceAllSkipsPrefix(a: string, b: string, t: string, r: string)
    requires |t| > 0
    requires forall i :: 0 <= i < |a| ==> !OccursAt(a + b, i, t)
    ensures ReplaceAll(a + b, t, r) == a + ReplaceAll(b, t, r)
    decreases |a|
  {
    if a != [] {
      var c := a + b;
      assert !OccursAt(c, 0, t);
      if |c| >= |t| {
        assert c[..|t|] == c[0..|t|];
        var d := a[1..] + b;
        assert c[1..] == d;
        forall i | 0 <= i < |a[1..]|
          ensures !OccursAt(d, i, t)
        {
          assert !OccursAt(c, i + 1, t);
          if i + |t| <= |d| {
            assert d[i..i + |t|] == c[1..][i..i + |t|];
            assert c[1..][i..i + |t|] == c[i + 1..i + 1 + |t|];
          }
        }
        ReplaceAllSkipsPrefix(a[1..], b, t, r);
        assert ReplaceAll(c, t, r) == [c[0]] + ReplaceAll(d, t, r);
        assert [a[0]] + a[1..] == a;
      } else {
        assert !Contains(b, t);
      }
    } else {
      assert a + b == b;
    }
  }

  /** The character for a decimal digit. */
  function DigitChar(d: nat): (c: char)
    requires d < 10
    ensures '0' <= c <= '9'
  {
    ('0' as int + d) as char
  }

  /** The value of a decimal digit character; the inverse of DigitChar. */
  function DigitValue(c: char): (d: nat)
    requires '0' <= c <= '9'
    ensures d < 10 && DigitChar(d) == c
  {
    c as int - '0' as int
  }

  predicate IsDigits(s: string)
  {
    forall i :: 0 <= i < |s| ==> '0' <= s[i] <= '9'
  }

  /** The decimal text of `n`, as Java renders an int in `"_" + n`. */
  function Decimal(n: nat): (s: string)
    ensures 0 < |s| && IsDigits(s)
    ensures s[0] == '0' ==> n == 0
  {
    if n < 10 then [DigitChar(n)] else Decimal(n / 10) + [DigitChar(n % 10)]
  }

  /** The value denoted by a string of decimal digits. */
  function ParseDecimal(s: string): nat
    requires IsDigits(s)
  {
    if s == [] then 0 else ParseDecimal(s[..|s| - 1]) * 10 + DigitValue(s[|s| - 1])
  }

  lemma {:induction false} DecimalRoundTrip(n: nat)
    ensures ParseDecimal(Decimal(n)) == n
  {
    if n >= 10 {
      var s := Decimal(n);
      assert s[..|s| - 1] == Decimal(n / 10);
      DecimalRoundTrip(n / 10);
    }
  }

  /** Different numbers have different decimal texts. */
  lemma DecimalInjective(m: nat, n: nat)
    requires Decimal(m) == Decimal(n)
    ensures m == n
  {
    DecimalRoundTrip(m);
    DecimalRoundTrip(n);
  }
}
