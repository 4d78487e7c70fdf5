/** Sequential record identifiers: `f"{prefix}{n:04d}"`. */
module Ids {

  function DigitChar(d: nat): (c: char)
    requires d < 10
    ensures '0' <= c <= '9'
  {
    ('0' as int + d) as char
  }

  function DigitValue(c: char): nat
    requires '0' <= c <= '9'
  {
    c as int - '0' as int
  }

  /** Decimal representation of `n` without leading zeros (`str(n)`). */
  function Digits(n: nat): (r: string)
    ensures |r| >= 1
    ensures forall i :: 0 <= i < |r| ==> '0' <= r[i] <= '9'
  {
    if n < 10 then [DigitChar(n)] else Digits(n / 10) + [DigitChar(n % 10)]
  }

  function Zeros(k: nat): (r: string)
    ensures |r| == k
    ensures forall i :: 0 <= i < k ==> r[i] == '0'
  {
    if k == 0 then "" else "0" + Zeros(k - 1)
  }

  /** `f"{n:04d}"`: `n` in decimal, left-padded with zeros to at least four digits. */
  function PadId(n: nat): (r: string)
    ensures |r| >= 4
    ensures forall i :: 0 <= i < |r| ==> '0' <= r[i] <= '9'
  {
    var d := Digits(n);
    if |d| >= 4 then d else Zeros(4 - |d|) + d
  }

  /** The identifier `prefix` followed by the padded number, e.g. `ERR_0007`. */
  function Label(prefix: string, n: nat): string {
    prefix + PadId(n)
  }

  /** The number a string of decimal digits denotes (leading zeros allowed). */
  function Value(s: string): nat
    requires forall i :: 0 <= i < |s| ==> '0' <= s[i] <= '9'
  {
    if s == [] then 0 else Value(s[..|s| - 1]) * 10 + DigitValue(s[|s| - 1])
  }

  lemma {:induction false} DigitsValue(n: nat)
    ensures Value(Digits(n)) == n
  {
    if n >= 10 {
      DigitsValue(n / 10);
      var d := Digits(n);
      assert d[..|d| - 1] == Digits(n / 10);
      assert DigitValue(d[|d| - 1]) == n % 10;
    }
  }

  lemma {:induction false} ZerosValue(k: nat, d: string)
    requires forall i :: 0 <= i < |d| ==> '0' <= d[i] <= '9'
    ensures Value(Zeros(k) + d) == Value(d)
    decreases k + |d|
  {
    var s := Zeros(k) + d;
    if d == [] {
      assert s == Zeros(k);
      if k > 0 {
        assert s[..|s| - 1] == Zeros(k - 1) + [];
        ZerosValue(k - 1, []);
      }
    } else {
      assert s[..|s| - 1] == Zeros(k) + d[..|d| - 1];
      ZerosValue(k, d[..|d| - 1]);
    }
  }

  /** Reading the padded identifier back gives the number it was built from. */
  lemma PadIdValue(n: nat)
    ensures Value(PadId(n)) == n
  {
    DigitsValue(n);
    var d := Digits(n);
    if |d| < 4 {
      ZerosValue(4 - |d|, d);
    }
  }

  /** Distinct numbers give distinct padded identifiers. */
  lemma PadIdInjective(a: nat, b: nat)
    requires PadId(a) == PadId(b)
    ensures a == b
  {
    PadIdValue(a);
    PadIdValue(b);
  }

  /** Two labels with the same prefix are equal only when their numbers are. */
  lemma LabelInjective(prefix: string, a: nat, b: nat)
    ensures Label(prefix, a) == Label(prefix, b) <==> a == b
  {
    if Label(prefix, a) == Label(prefix, b) {
      assert PadId(a) == Label(prefix, a)[|prefix|..];
      assert PadId(b) == Label(prefix, b)[|prefix|..];
      PadIdInjective(a, b);
    }
  }
}
