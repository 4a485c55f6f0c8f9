/** Positional notation: the value of a big-endian digit sequence in a given base,
    its canonical digits, and the two uniqueness facts the codecs rest on. */
module Numerals {

  function Pow(b: nat, e: nat): nat {
    if e == 0 then 1 else b * Pow(b, e - 1)
  }

  ghost predicate Digits(s: seq<int>, base: nat) {
    forall i :: 0 <= i < |s| ==> 0 <= s[i] < base
  }

  /** Value of a digit sequence, most significant digit first. */
  function Value(s: seq<int>, base: nat): int {
    if s == [] then 0 else Value(s[..|s| - 1], base) * base + s[|s| - 1]
  }

  /** The digits of n without leading zeros; zero has no digits. */
  function Canonical(n: nat, base: nat): (s: seq<int>)
    requires base >= 2
    ensures Digits(s, base)
    decreases n
  {
    if n == 0 then [] else
      DivSmaller(n, base);
      Canonical(n / base, base) + [n % base]
  }

  /** Exactly width digits of n (the low ones, if n does not fit). */
  function Fixed(n: nat, base: nat, width: nat): (s: seq<int>)
    requires base >= 2
    ensures |s| == width && Digits(s, base)
    decreases width
  {
    if width == 0 then [] else Fixed(n / base, base, width - 1) + [n % base]
  }

  function LeadingZeros(s: seq<int>): (z: nat)
    ensures z <= |s|
    ensures forall i :: 0 <= i < z ==> s[i] == 0
    ensures z < |s| ==> s[z] != 0
  {
    if s == [] || s[0] != 0 then 0 else 1 + LeadingZeros(s[1..])
  }

  lemma DivSmaller(n: nat, base: nat)
    requires n > 0 && base >= 2
    ensures n / base < n
  {
    assert n == base * (n / base) + n % base;
    if n / base >= n {
      MulMonotone(base, 2, n / base);
    }
  }

  lemma MulMonotone(a: int, b: int, k: int)
    requires b <= a && 0 <= k
    ensures b * k <= a * k
  {}

  lemma MulBoth(a: nat, b: nat, x: nat, y: nat)
    requires a <= b && x <= y
    ensures a * x <= b * y
  {
    MulMonotone(b, a, x);
    MulMonotone(y, x, b);
  }

  lemma Horner(v: int, p: int, w: int, base: int)
    ensures (v * p + w) * base == v * (base * p) + w * base
  {}

  lemma {:induction false} PowPositive(b: nat, e: nat)
    requires b > 0
    ensures Pow(b, e) > 0
  {
    if e > 0 { PowPositive(b, e - 1); }
  }

  lemma {:induction false} PowAdd(b: nat, d: nat, e: nat)
    ensures Pow(b, d + e) == Pow(b, d) * Pow(b, e)
  {
    if d > 0 {
      PowAdd(b, d - 1, e);
      assert b * (Pow(b, d - 1) * Pow(b, e)) == (b * Pow(b, d - 1)) * Pow(b, e);
    }
  }

  lemma {:induction false} PowMul(b: nat, d: nat, e: nat)
    ensures Pow(b, d * e) == Pow(Pow(b, d), e)
  {
    if e > 0 {
      PowMul(b, d, e - 1);
      assert d * e == d + d * (e - 1);
      PowAdd(b, d, d * (e - 1));
    }
  }

  lemma {:induction false} PowMonotoneBase(a: nat, b: nat, e: nat)
    requires a <= b
    ensures Pow(a, e) <= Pow(b, e)
  {
    if e > 0 {
      PowMonotoneBase(a, b, e - 1);
      MulBoth(a, b, Pow(a, e - 1), Pow(b, e - 1));
    }
  }

  lemma {:induction false} PowStrictBase(a: nat, b: nat, e: nat)
    requires a < b && e > 0
    ensures Pow(a, e) < Pow(b, e)
  {
    PowMonotoneBase(a, b, e - 1);
    PowPositive(b, e - 1);
    var x, y := Pow(a, e - 1), Pow(b, e - 1);
    assert a * x <= a * y;
    assert a * y < b * y;
  }

  lemma Root(a: nat, b: nat, e: nat)
    requires e > 0 && Pow(a, e) <= Pow(b, e)
    ensures a <= b
  {
    if b < a { PowStrictBase(b, a, e); }
  }

  lemma {:induction false} PowMonotoneExp(b: nat, d: nat, e: nat)
    requires b > 0 && d <= e
    ensures Pow(b, d) <= Pow(b, e)
  {
    PowAdd(b, d, e - d);
    PowPositive(b, e - d);
    PowPositive(b, d);
    var x, y := Pow(b, d), Pow(b, e - d);
    assert x * 1 <= x * y;
  }

  /** Peeling the most significant digit instead of the least significant one. */
  lemma {:induction false} ValueHead(d: int, s: seq<int>, base: nat)
    ensures Value([d] + s, base) == d * Pow(base, |s|) + Value(s, base)
  {
    var t := [d] + s;
    if s == [] {
      assert t[..|t| - 1] == [];
    } else {
      var s' := s[..|s| - 1];
      assert t[..|t| - 1] == [d] + s';
      ValueHead(d, s', base);
      Horner(d, Pow(base, |s'|), Value(s', base), base);
    }
  }

  lemma {:induction false} ValueConcat(s: seq<int>, t: seq<int>, base: nat)
    ensures Value(s + t, base) == Value(s, base) * Pow(base, |t|) + Value(t, base)
  {
    if t == [] {
      assert s + t == s;
    } else {
      var t', u := t[..|t| - 1], s + t;
      assert u[..|u| - 1] == s + t';
      ValueConcat(s, t', base);
      Horner(Value(s, base), Pow(base, |t'|), Value(t', base), base);
    }
  }

  lemma {:induction false} ValueZeros(s: seq<int>, z: nat, base: nat)
    requires z <= |s| && forall i :: 0 <= i < z ==> s[i] == 0
    ensures Value(s, base) == Value(s[z..], base)
  {
    if z > 0 {
      ValueHead(0, s[1..], base);
      assert s == [0] + s[1..];
      ValueZeros(s[1..], z - 1, base);
      assert s[1..][z - 1..] == s[z..];
    } else {
      assert s[0..] == s;
    }
  }

  lemma {:induction false} ValueBound(s: seq<int>, base: nat)
    requires Digits(s, base)
    ensures 0 <= Value(s, base) < Pow(base, |s|)
  {
    if s != [] {
      var s' := s[..|s| - 1];
      ValueBound(s', base);
      var v, p := Value(s', base), Pow(base, |s'|);
      MulMonotone(p, v + 1, base);
      MulMonotone(v, 0, base);
      assert (v + 1) * base == v * base + base;
      assert p * base == Pow(base, |s|);
      assert 0 <= s[|s| - 1] < base;
    }
  }

  lemma CanonicalAppend(v: nat, d: nat, base: nat)
    requires base >= 2 && d < base && v + d > 0
    ensures v * base + d >= 0 && Canonical(v * base + d, base) == Canonical(v, base) + [d]
  {
    DivMod(v, d, base);
    if v > 0 { MulMonotone(base, 1, v); }
  }

  /** A digit sequence without leading zero is the canonical one of its value. */
  lemma {:induction false} CanonicalUnique(s: seq<int>, base: nat)
    requires base >= 2 && Digits(s, base)
    requires s != [] ==> s[0] != 0
    ensures 0 <= Value(s, base)
    ensures s == Canonical(Value(s, base), base)
  {
    hide Value, Canonical;
    NoDigits(base);
    if s != [] {
      var s', d := s[..|s| - 1], s[|s| - 1];
      assert s == s' + [d];
      CanonicalUnique(s', base);
      ValueAppend(s', d, base);
      CanonicalAppend(Value(s', base), d, base);
    }
  }

  lemma {:induction false} CanonicalValue(n: nat, base: nat)
    requires base >= 2
    ensures Value(Canonical(n, base), base) == n
    ensures n > 0 ==> Canonical(n, base) != [] && Canonical(n, base)[0] != 0
    decreases n
  {
    hide Value, Canonical;
    var q, r := Split(n, base);
    if n == 0 {
      NoDigits(base);
    } else {
      CanonicalValue(q, base);
      ValueAppend(Canonical(q, base), r, base);
      if q == 0 { NoDigits(base); }
    }
  }

  lemma Split(n: nat, base: nat) returns (q: nat, r: nat)
    requires base >= 2
    ensures q * base + r == n && (q == 0 ==> r == n) && (n > 0 ==> q < n && Canonical(n, base) == Canonical(q, base) + [r])
  {
    q, r := n / base, n % base;
    if n > 0 { DivSmaller(n, base); }
  }

  lemma NoDigits(base: nat)
    requires base >= 2
    ensures Canonical(0, base) == [] && Value([], base) == 0
  {}

  lemma ValueAppend(s: seq<int>, d: int, base: nat)
    ensures Value(s + [d], base) == Value(s, base) * base + d
  {
    assert (s + [d])[..|s|] == s;
  }

  lemma DivMod(v: int, d: int, base: int)
    requires 0 <= d < base
    ensures (v * base + d) / base == v && (v * base + d) % base == d
  {
    var n := v * base + d;
    var q, r := n / base, n % base;
    assert n == q * base + r;
    assert (q - v) * base == d - r && (v - q) * base == r - d;
    if q > v { MulMonotone(q - v, 1, base); }
    if q < v { MulMonotone(v - q, 1, base); }
  }

  /** Two digit sequences of the same width and value are the same sequence. */
  lemma {:induction false} FixedUnique(s: seq<int>, base: nat)
    requires base >= 2 && Digits(s, base)
    ensures 0 <= Value(s, base)
    ensures s == Fixed(Value(s, base), base, |s|)
  {
    hide Value;
    ValueBound(s, base);
    if s != [] {
      var s', d := s[..|s| - 1], s[|s| - 1];
      assert s == s' + [d];
      FixedUnique(s', base);
      ValueAppend(s', d, base);
      DivMod(Value(s', base), d, base);
    }
  }

  lemma {:induction false} FixedValue(n: nat, base: nat, width: nat)
    requires base >= 2 && n < Pow(base, width)
    ensures Value(Fixed(n, base, width), base) == n
    decreases width
  {
    hide Value, Fixed, Pow;
    if width == 0 {
      NoWidth(n, base);
    } else {
      var q, r := FixedSplits(n, base, width);
      FixedValue(q, base, width - 1);
      ValueAppend(Fixed(q, base, width - 1), r, base);
    }
  }

  lemma NoWidth(n: nat, base: nat)
    requires base >= 2 && n < Pow(base, 0)
    ensures Value(Fixed(n, base, 0), base) == n
  {}

  lemma FixedSplits(n: nat, base: nat, width: nat) returns (q: nat, r: nat)
    requires base >= 2 && width > 0 && n < Pow(base, width)
    ensures q * base + r == n && q < Pow(base, width - 1) && Fixed(n, base, width) == Fixed(q, base, width - 1) + [r]
  {
    hide Value;
    q, r := n / base, n % base;
    Recomposed(n, base);
    var p := Pow(base, width - 1);
    if q >= p { MulMonotone(q, p, base); }
  }

  lemma Recomposed(n: nat, base: nat)
    requires base >= 2
    ensures (n / base) * base + n % base == n
  {}
}
