/**
 * Go's `strconv.Atoi` on a 64-bit platform: an optional sign followed by
 * one or more decimal digits, whose value must fit a signed 64-bit integer.
 * The implementation mirrors the library's two paths (a fast path for
 * strings shorter than 19 bytes, and `ParseInt`/`ParseUint` otherwise) and
 * is proved against a positional reading of the digits.
 */
module Strconv {
  import opened Wrappers

  const MaxInt64: int := 0x7FFF_FFFF_FFFF_FFFF
  const MinInt64: int := -0x8000_0000_0000_0000
  const MaxUint64: int := 0xFFFF_FFFF_FFFF_FFFF

  predicate IsDigit(c: char) {
    '0' <= c <= '9'
  }

  function DigitVal(c: char): nat
    requires IsDigit(c)
  {
    c as int - '0' as int
  }

  predicate AllDigits(s: string) {
    forall i :: 0 <= i < |s| ==> IsDigit(s[i])
  }

  function Pow10(n: nat): nat {
    if n == 0 then 1 else 10 * Pow10(n - 1)
  }

  /** The value of a digit string, most significant digit first. */
  function DigitsValue(s: string): nat
    requires AllDigits(s)
  {
    if s == [] then 0 else 10 * DigitsValue(s[..|s| - 1]) + DigitVal(s[|s| - 1])
  }

  /** The digits of `s` once a leading `+` or `-` is removed. */
  function Unsigned(s: string): string {
    if |s| > 0 && (s[0] == '+' || s[0] == '-') then s[1..] else s
  }

  /** An optional sign followed by at least one decimal digit. */
  predicate IsDecimal(s: string) {
    |Unsigned(s)| > 0 && AllDigits(Unsigned(s))
  }

  /** The integer a decimal string denotes. */
  function DecimalValue(s: string): int
    requires IsDecimal(s)
  {
    var v: int := DigitsValue(Unsigned(s));
    if s[0] == '-' then -v else v
  }

  predicate InInt64(n: int) {
    MinInt64 <= n <= MaxInt64
  }

  lemma {:induction false} DigitsValueBound(s: string)
    requires AllDigits(s)
    ensures DigitsValue(s) < Pow10(|s|)
  {
    if s != [] {
      DigitsValueBound(s[..|s| - 1]);
    }
  }

  /** Two digit strings one after the other are a digit string. */
  lemma AllDigitsConcat(a: string, b: string)
    requires AllDigits(a) && AllDigits(b)
    ensures AllDigits(a + b)
  {
    forall i | 0 <= i < |a + b| ensures IsDigit((a + b)[i]) {
      if i < |a| { assert (a + b)[i] == a[i]; } else { assert (a + b)[i] == b[i - |a|]; }
    }
  }

  /** Appending a digit to a number made of a front part and a back part appends it to the back part. */
  lemma ShiftDigit(x: int, p: int, y: int, d: int)
    ensures 10 * (x * p + y) + d == x * (10 * p) + (10 * y + d)
  {
  }

  /** Splitting a digit string: the front part is worth `Pow10(|b|)` times its own value. */
  lemma {:induction false} DigitsValueConcat(a: string, b: string)
    requires AllDigits(a) && AllDigits(b)
    ensures AllDigits(a + b)
    ensures DigitsValue(a + b) == DigitsValue(a) * Pow10(|b|) + DigitsValue(b)
  {
    AllDigitsConcat(a, b);
    if b == [] {
      assert a + b == a;
    } else {
      var b' := b[..|b| - 1];
      assert (a + b)[..|a + b| - 1] == a + b';
      assert (a + b)[|a + b| - 1] == b[|b| - 1];
      DigitsValueConcat(a, b');
      ShiftDigit(DigitsValue(a), Pow10(|b'|), DigitsValue(b'), DigitVal(b[|b| - 1]));
      assert DigitsValue(a + b) == 10 * DigitsValue(a + b') + DigitVal(b[|b| - 1]);
      assert DigitsValue(b) == 10 * DigitsValue(b') + DigitVal(b[|b| - 1]);
    }
  }

  lemma AllDigitsStep(s: string, i: nat)
    requires i < |s|
    ensures AllDigits(s[i..]) <==> IsDigit(s[i]) && AllDigits(s[i + 1..])
  {
    assert s[i..][0] == s[i];
    if IsDigit(s[i]) && AllDigits(s[i + 1..]) {
      forall k | 0 <= k < |s[i..]| ensures IsDigit(s[i..][k]) {
        if k > 0 { assert s[i..][k] == s[i + 1..][k - 1]; }
      }
    }
    if AllDigits(s[i..]) {
      var t := s[i + 1..];
      forall k | 0 <= k < |t| ensures IsDigit(t[k]) {
        assert t[k] == s[i..][k + 1];
      }
    }
  }

  lemma Pow10Eighteen()
    ensures Pow10(18) == 1_000_000_000_000_000_000
  {
    assert Pow10(3) == 1000;
    assert Pow10(6) == 1000 * Pow10(3) by {
      assert Pow10(6) == 10 * Pow10(5) == 100 * Pow10(4) == 1000 * Pow10(3);
    }
    assert Pow10(9) == 1000 * Pow10(6) by {
      assert Pow10(9) == 10 * Pow10(8) == 100 * Pow10(7) == 1000 * Pow10(6);
    }
    assert Pow10(12) == 1000 * Pow10(9) by {
      assert Pow10(12) == 10 * Pow10(11) == 100 * Pow10(10) == 1000 * Pow10(9);
    }
    assert Pow10(15) == 1000 * Pow10(12) by {
      assert Pow10(15) == 10 * Pow10(14) == 100 * Pow10(13) == 1000 * Pow10(12);
    }
    assert Pow10(18) == 1000 * Pow10(15) by {
      assert Pow10(18) == 10 * Pow10(17) == 100 * Pow10(16) == 1000 * Pow10(15);
    }
  }

  /** Moving a digit from the back part of a number to its front part. */
  lemma Regroup(n: int, d: int, p: int, v: int)
    ensures n * (10 * p) + (d * p + v) == (10 * n + d) * p + v
  {
    assert (10 * n + d) * p == 10 * n * p + d * p;
    assert n * (10 * p) == 10 * n * p;
  }

  /** Reading one more digit `s[i]` after the accumulated value `n`. */
  lemma StepDigit(n: nat, s: string, i: nat)
    requires i < |s| && AllDigits(s[i..])
    ensures AllDigits(s[i + 1..])
    ensures n * Pow10(|s| - i) + DigitsValue(s[i..])
         == (10 * n + DigitVal(s[i])) * Pow10(|s| - i - 1) + DigitsValue(s[i + 1..])
  {
    assert s[i..] == [s[i]] + s[i + 1..];
    assert IsDigit(s[i..][0]);
    AllDigitsStep(s, i);
    DigitsValueConcat([s[i]], s[i + 1..]);
    assert DigitsValue([s[i]]) == DigitVal(s[i]) by {
      assert [s[i]][..0] == [];
    }
    var p := Pow10(|s| - i - 1);
    assert Pow10(|s| - i) == 10 * p;
    Regroup(n, DigitVal(s[i]), p, DigitsValue(s[i + 1..]));
  }

  /**
   * The digit loop of Atoi's fast path: no range check, so it is only
   * used on strings of at most 18 digits.
   */
  function FastDigits(s: string, i: nat, n: nat): (r: Option<nat>)
    requires i <= |s|
    ensures r.Some? <==> AllDigits(s[i..])
    ensures r.Some? ==> r.value == n * Pow10(|s| - i) + DigitsValue(s[i..])
    decreases |s| - i
  {
    if i == |s| then Some(n)
    else if !IsDigit(s[i]) then None
    else
      var r := FastDigits(s, i + 1, 10 * n + DigitVal(s[i]));
      AllDigitsStep(s, i);
      if r.Some? then StepDigit(n, s, i); r else r
  }

  /** What `ParseUint` permits before multiplying by 10 (`maxUint64 / 10 + 1`). */
  const Cutoff: int := MaxUint64 / 10 + 1

  /** Any digit string at least `Pow10(k)` times `m` is at least that big. */
  lemma AccumulatedAtLeast(n: nat, s: string, i: nat)
    requires i <= |s| && AllDigits(s[i..])
    ensures n * Pow10(|s| - i) + DigitsValue(s[i..]) >= n
  {
    assert Pow10(|s| - i) >= 1 by { Pow10Positive(|s| - i); }
  }

  lemma {:induction false} Pow10Positive(k: nat)
    ensures Pow10(k) >= 1
  {
    if k > 0 { Pow10Positive(k - 1); }
  }

  /** The digit loop of `strconv.ParseUint` in base 10 with a 64-bit result. */
  function ParseUintFrom(s: string, i: nat, n: nat): (r: Option<nat>)
    requires i <= |s| && n <= MaxUint64
    ensures r.Some? <==> AllDigits(s[i..]) && n * Pow10(|s| - i) + DigitsValue(s[i..]) <= MaxUint64
    ensures r.Some? ==> r.value == n * Pow10(|s| - i) + DigitsValue(s[i..])
    decreases |s| - i
  {
    if i == |s| then Some(n)
    else if !IsDigit(s[i]) then
      assert !IsDigit(s[i..][0]);
      None
    else if n >= Cutoff then
      if AllDigits(s[i..]) then
        StepDigit(n, s, i);
        AccumulatedAtLeast(10 * n + DigitVal(s[i]), s, i + 1);
        None
      else None
    else
      var n1 := 10 * n + DigitVal(s[i]);
      AllDigitsStep(s, i);
      if n1 > MaxUint64 then
        if AllDigits(s[i..]) then
          StepDigit(n, s, i);
          AccumulatedAtLeast(n1, s, i + 1);
          None
        else None
      else
        if AllDigits(s[i..]) then StepDigit(n, s, i); ParseUintFrom(s, i + 1, n1)
        else ParseUintFrom(s, i + 1, n1)
  }

  /** `strconv.ParseUint(s, 10, 64)`: digits only, at most `MaxUint64`. */
  function ParseUint(s: string): (r: Option<nat>)
    ensures r.Some? <==> |s| > 0 && AllDigits(s) && DigitsValue(s) <= MaxUint64
    ensures r.Some? ==> r.value == DigitsValue(s)
  {
    if s == "" then None
    else
      var r := ParseUintFrom(s, 0, 0);
      assert s[0..] == s;
      r
  }

  /** `strconv.ParseInt(s, 10, 64)`: a sign, then `ParseUint`, then the signed range check. */
  function ParseInt(s: string): (r: Option<int>)
    ensures r.Some? <==> IsDecimal(s) && InInt64(DecimalValue(s))
    ensures r.Some? ==> r.value == DecimalValue(s)
  {
    if s == "" then None
    else
      var neg := s[0] == '-';
      match ParseUint(Unsigned(s))
      case None => None
      case Some(un) =>
        if !neg && un >= 0x8000_0000_0000_0000 then None
        else if neg && un > 0x8000_0000_0000_0000 then None
        else
          var v: int := un;
          if neg then Some(-v) else Some(v)
  }

  /** `strconv.Atoi`: the integer `s` spells, or `None` when it is malformed or out of range. */
  function Atoi(s: string): (r: Option<int>)
    ensures r.Some? <==> IsDecimal(s) && InInt64(DecimalValue(s))
    ensures r.Some? ==> r.value == DecimalValue(s)
  {
    if 0 < |s| < 19 then
      var digits := Unsigned(s);
      if |digits| < 1 then None
      else
        match FastDigits(digits, 0, 0)
        case None =>
          assert digits[0..] == digits;
          None
        case Some(n) =>
          assert digits[0..] == digits;
          DigitsValueBound(digits);
          Pow10Eighteen();
          Pow10Monotone(|digits|, 18);
          var v: int := n;
          if s[0] == '-' then Some(-v) else Some(v)
    else ParseInt(s)
  }

  lemma {:induction false} Pow10Monotone(a: nat, b: nat)
    requires a <= b
    ensures Pow10(a) <= Pow10(b)
  {
    if a < b {
      Pow10Monotone(a, b - 1);
    }
  }
}
