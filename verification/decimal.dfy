/** Decimal integers as family_tree.cc reads them (`std::stoi`) and writes
    them (`cout << int`). The program's ids are C++ `int`s: 32 bits wide. */
module Decimal {
  import opened Wrappers

  const IntMin: int := -0x8000_0000
  const IntMax: int := 0x7FFF_FFFF

  predicate InIntRange(n: int)
  {
    IntMin <= n <= IntMax
  }

  predicate IsDigit(c: char)
  {
    '0' <= c <= '9'
  }

  /** `isspace` in the C locale: space, tab, newline, vertical tab, form feed,
      carriage return. */
  predicate IsSpace(c: char)
  {
    c == ' ' || '\t' <= c <= '\r'
  }

  predicate AllDigits(s: string)
  {
    forall i | 0 <= i < |s| :: IsDigit(s[i])
  }

  function DigitValue(c: char): (v: nat)
    requires IsDigit(c)
    ensures v < 10
  {
    (c as int) - ('0' as int)
  }

  function DigitChar(v: nat): (c: char)
    requires v < 10
    ensures IsDigit(c) && DigitValue(c) == v
  {
    (v + '0' as int) as char
  }

  /** The number a run of digits denotes. */
  function Value(s: string): nat
    requires AllDigits(s)
  {
    if s == [] then 0 else Value(s[..|s| - 1]) * 10 + DigitValue(s[|s| - 1])
  }

  /** The shortest decimal digits of `n`. */
  function Digits(n: nat): (s: string)
    ensures |s| >= 1 && AllDigits(s)
  {
    if n < 10 then [DigitChar(n)] else Digits(n / 10) + [DigitChar(n % 10)]
  }

  lemma {:induction false} ValueOfDigits(n: nat)
    ensures Value(Digits(n)) == n
  {
    if n >= 10 {
      var s := Digits(n);
      assert s[..|s| - 1] == Digits(n / 10);
      ValueOfDigits(n / 10);
    }
  }

  /** What `cout << n` writes for an int. */
  function IntToString(n: int): (s: string)
    ensures |s| >= 1
    ensures IsDigit(s[0]) || s[0] == '-'
    ensures s[0] == '-' <==> n < 0
  {
    if n < 0 then "-" + Digits(-n) else Digits(n)
  }

  /** `cout << n` writes only digits and a minus sign. */
  lemma IntToStringAvoids(n: int, c: char)
    requires !IsDigit(c) && c != '-'
    ensures c !in IntToString(n)
  {
    var s := IntToString(n);
    if n < 0 {
      var ds := Digits(-n);
      assert s == "-" + ds;
      forall i | 0 <= i < |s| ensures s[i] != c {
        if i > 0 { assert s[i] == ds[i - 1]; }
      }
    }
  }

  /** Index of the first non-space character at or after `i`. */
  function SkipSpace(s: string, i: nat): (j: nat)
    requires i <= |s|
    ensures i <= j <= |s|
    ensures j < |s| ==> !IsSpace(s[j])
    decreases |s| - i
  {
    if i < |s| && IsSpace(s[i]) then SkipSpace(s, i + 1) else i
  }

  /** Index just past the run of digits starting at `i`. */
  function DigitEnd(s: string, i: nat): (j: nat)
    requires i <= |s|
    ensures i <= j <= |s|
    ensures AllDigits(s[i..j])
    ensures j < |s| ==> !IsDigit(s[j])
    decreases |s| - i
  {
    if i < |s| && IsDigit(s[i]) then
      var j := DigitEnd(s, i + 1);
      assert s[i..j] == [s[i]] + s[i + 1..j];
      j
    else i
  }

  /** The two exceptions `std::stoi` throws. */
  datatype StoiError = InvalidArgument | OutOfRange

  /** `std::stoi(s)` in base 10: skip leading white space, read an optional
      sign and at least one digit, ignore whatever follows, and refuse a value
      that does not fit an int. */
  function Stoi(s: string): (r: Result<int, StoiError>)
    ensures r.Success? ==> InIntRange(r.value)
  {
    var i := SkipSpace(s, 0);
    var signed := i < |s| && (s[i] == '-' || s[i] == '+');
    var j := if signed then i + 1 else i;
    var k := DigitEnd(s, j);
    if k == j then Failure(InvalidArgument)
    else
      var magnitude: int := Value(s[j..k]);
      var v: int := if signed && s[i] == '-' then -magnitude else magnitude;
      if InIntRange(v) then Success(v) else Failure(OutOfRange)
  }

  /** Reading back what `cout << n` wrote gives `n`, whatever text follows it,
      as long as that text does not begin with a digit. */
  lemma StoiIntToString(n: int, rest: string)
    requires InIntRange(n)
    requires rest == [] || !IsDigit(rest[0])
    ensures Stoi(IntToString(n) + rest) == Success(n)
  {
    if n < 0 {
      assert IntToString(n) == "-" + Digits(-n);
      StoiDigits("-", Digits(-n), rest, n);
    } else {
      assert IntToString(n) == [] + Digits(n);
      StoiDigits([], Digits(n), rest, n);
    }
  }

  lemma StoiDigits(pre: string, ds: string, rest: string, n: int)
    requires InIntRange(n)
    requires rest == [] || !IsDigit(rest[0])
    requires n < 0 ==> pre == "-" && ds == Digits(-n)
    requires n >= 0 ==> pre == [] && ds == Digits(n)
    ensures Stoi(pre + ds + rest) == Success(n)
  {
    var s := pre + ds + rest;
    var j, k := |pre|, |pre| + |ds|;
    assert !IsSpace(s[0]) && (s[0] == '-' <==> n < 0) && s[0] != '+' by {
      assert s[0] == (pre + ds)[0];
    }
    assert DigitEnd(s, j) == k by {
      DigitRun(pre, ds, rest);
    }
    assert s[j..k] == ds;
    assert Value(ds) == (if n < 0 then -n else n) by {
      ValueOfDigits(if n < 0 then -n else n);
    }
    StoiParts(s, j, k, n);
  }

  /** Stoi once the sign and the digits have been located. */
  lemma StoiParts(s: string, j: nat, k: nat, n: int)
    requires InIntRange(n)
    requires 0 < |s| && !IsSpace(s[0]) && (s[0] == '-' <==> n < 0) && s[0] != '+'
    requires j == (if n < 0 then 1 else 0) && j < k <= |s|
    requires DigitEnd(s, j) == k && AllDigits(s[j..k])
    requires Value(s[j..k]) == (if n < 0 then -n else n)
    ensures Stoi(s) == Success(n)
  {
    assert SkipSpace(s, 0) == 0;
  }

  lemma {:induction false} DigitRun(pre: string, ds: string, rest: string)
    requires AllDigits(ds)
    requires rest == [] || !IsDigit(rest[0])
    ensures DigitEnd(pre + ds + rest, |pre|) == |pre| + |ds|
    decreases |ds|
  {
    var s := pre + ds + rest;
    if ds == [] {
      assert s == pre + rest;
      if rest != [] { assert s[|pre|] == rest[0]; }
    } else {
      assert s[|pre|] == ds[0];
      assert s == (pre + [ds[0]]) + ds[1..] + rest;
      DigitRun(pre + [ds[0]], ds[1..], rest);
    }
  }

  /** The word `null` is not a number: stoi would throw. */
  lemma NullIsNotANumber()
    ensures Stoi("null") == Failure(InvalidArgument)
  {
  }
}
