/** Positional numerals, most significant digit first, with explicit leading zeros. */
module Radix {

  predicate Digits(ds: seq<nat>, base: nat) {
    forall i :: 0 <= i < |ds| ==> ds[i] < base
  }

  function Value(ds: seq<nat>, base: nat): nat {
    if ds == [] then 0 else Value(ds[..|ds| - 1], base) * base + ds[|ds| - 1]
  }

  /** The numeral of `n` without leading zeros; zero has no digits. */
  function Numeral(n: nat, base: nat): (ds: seq<nat>)
    requires base >= 2
    ensures Digits(ds, base)
    ensures Value(ds, base) == n
    ensures ds != [] ==> ds[0] != 0
    decreases n
  {
    if n == 0 then [] else
      QuotientBelow(n, base);
      var high := Numeral(n / base, base);
      ValueSnoc(high, n % base, base);
      high + [n % base]
  }

  lemma QuotientBelow(n: nat, base: nat)
    requires n >= 1 && base >= 2
    ensures n / base < n && n / base * base + n % base == n
  {
    var q := n / base;
    assert q * base + n % base == n;
    if q >= 1 { assert q * (base - 2) >= 0; }
  }

  lemma ValueSnoc(ds: seq<nat>, d: nat, base: nat)
    ensures Value(ds + [d], base) == Value(ds, base) * base + d
  {
    assert (ds + [d])[..|ds|] == ds;
  }

  function LeadingZeros(ds: seq<nat>): (z: nat)
    ensures z <= |ds|
    ensures forall i :: 0 <= i < z ==> ds[i] == 0
    ensures z < |ds| ==> ds[z] != 0
  {
    if ds != [] && ds[0] == 0 then 1 + LeadingZeros(ds[1..]) else 0
  }

  function Zeros(n: nat): seq<nat> {
    seq(n, _ => 0)
  }

  lemma LeadingZerosUnique(ds: seq<nat>, z: nat)
    requires z <= |ds| && (forall i :: 0 <= i < z ==> ds[i] == 0) && (z < |ds| ==> ds[z] != 0)
    ensures LeadingZeros(ds) == z
  {
  }

  lemma {:induction false} ValueIgnoresZeros(z: nat, ds: seq<nat>, base: nat)
    ensures Value(Zeros(z) + ds, base) == Value(ds, base)
    decreases z + |ds|
  {
    var padded := Zeros(z) + ds;
    if ds != [] {
      assert padded[..|padded| - 1] == Zeros(z) + ds[..|ds| - 1];
      ValueIgnoresZeros(z, ds[..|ds| - 1], base);
    } else if z > 0 {
      assert padded[..|padded| - 1] == Zeros(z - 1) + ds;
      ValueIgnoresZeros(z - 1, ds, base);
    }
  }

  lemma DivMod(q: nat, r: nat, base: nat)
    requires r < base
    ensures (q * base + r) / base == q && (q * base + r) % base == r
  {
    var n := q * base + r;
    assert (n / base - q) * base == r - n % base;
    if n / base != q {
      Product(n / base - q, base);
    }
  }

  lemma Product(d: int, base: int)
    requires d != 0 && base >= 0
    ensures d * base >= base || d * base <= -base
  {
    if d > 0 { assert (d - 1) * base >= 0; } else { assert (-d - 1) * base >= 0; }
  }

  /** A digit string without a leading zero is the numeral of its value. */
  lemma {:induction false} NumeralOfValue(ds: seq<nat>, base: nat)
    requires base >= 2 && Digits(ds, base) && (ds != [] ==> ds[0] != 0)
    ensures Numeral(Value(ds, base), base) == ds
  {
    if ds != [] {
      var high, low := ds[..|ds| - 1], ds[|ds| - 1];
      NumeralOfValue(high, base);
      var v := Value(high, base);
      DivMod(v, low, base);
      if high != [] {
        assert v != 0;
        Product(v, base);
      }
      assert ds == high + [low];
    }
  }

  /** Re-expresses a digit string in another base, keeping its leading zeros. */
  function Convert(ds: seq<nat>, from: nat, to: nat): (r: seq<nat>)
    requires to >= 2
    ensures Digits(r, to)
  {
    Zeros(LeadingZeros(ds)) + Numeral(Value(ds, from), to)
  }

  lemma ConvertBack(ds: seq<nat>, from: nat, to: nat)
    requires from >= 2 && to >= 2 && Digits(ds, from)
    ensures Convert(Convert(ds, from, to), to, from) == ds
  {
    var r := Convert(ds, from, to);
    var z := LeadingZeros(ds);
    LeadingZerosUnique(r, z);
    ValueIgnoresZeros(z, Numeral(Value(ds, from), to), to);
    var significant := ds[z..];
    assert ds == Zeros(z) + significant;
    ValueIgnoresZeros(z, significant, from);
    NumeralOfValue(significant, from);
  }

  // --- lengths --------------------------------------------------------------------------------

  function Pow(base: nat, e: nat): nat {
    if e == 0 then 1 else base * Pow(base, e - 1)
  }

  lemma {:induction false} PowAdd(base: nat, a: nat, b: nat)
    ensures Pow(base, a + b) == Pow(base, a) * Pow(base, b)
  {
    if a > 0 {
      PowAdd(base, a - 1, b);
      assert Pow(base, a + b) == base * (Pow(base, a - 1) * Pow(base, b));
      assert Pow(base, a) * Pow(base, b) == base * Pow(base, a - 1) * Pow(base, b);
    }
  }

  lemma {:induction false} PowMonotone(small: nat, large: nat, e: nat)
    requires 1 <= small <= large
    ensures 1 <= Pow(small, e) <= Pow(large, e)
  {
    if e > 0 {
      PowMonotone(small, large, e - 1);
      Times(small, large, Pow(small, e - 1), Pow(large, e - 1));
    }
  }

  lemma Times(a: nat, a': nat, b: nat, b': nat)
    requires 1 <= a <= a' && 1 <= b <= b'
    ensures 1 <= a * b <= a' * b'
  {
    assert a * b <= a' * b && a' * b <= a' * b';
    assert 1 * 1 <= a * 1 <= a * b;
  }

  lemma {:induction false} ValueBelow(ds: seq<nat>, base: nat)
    requires base >= 2 && Digits(ds, base)
    ensures Value(ds, base) < Pow(base, |ds|)
  {
    if ds != [] {
      var high := ds[..|ds| - 1];
      ValueBelow(high, base);
      Times(Value(high, base) + 1, Pow(base, |high|), base, base);
      assert (Value(high, base) + 1) * base == Value(high, base) * base + base;
    }
  }

  lemma {:induction false} ValueAtLeast(ds: seq<nat>, base: nat)
    requires base >= 2 && ds != [] && ds[0] != 0
    ensures Value(ds, base) >= Pow(base, |ds| - 1)
  {
    if |ds| == 1 {
      assert Value(ds[..0], base) == 0;
    } else {
      var high := ds[..|ds| - 1];
      ValueAtLeast(high, base);
      PowGrows(base, 0, |high| - 1);
      Times(Pow(base, |high| - 1), Value(high, base), base, base);
    }
  }

  /** Growing the exponent cannot shrink a power. */
  lemma PowGrows(base: nat, a: nat, b: nat)
    requires base >= 1 && a <= b
    ensures 1 <= Pow(base, a) <= Pow(base, b)
  {
    PowAdd(base, a, b - a);
    PowMonotone(base, base, b - a);
    PowMonotone(base, base, a);
    Times(Pow(base, a), Pow(base, a), 1, Pow(base, b - a));
  }

  /** In a smaller base a digit string gets no shorter, and it fits wherever its power fits. */
  lemma ConvertLength(ds: seq<nat>, from: nat, to: nat, bound: nat)
    requires 2 <= to <= from && Digits(ds, from) && |ds| <= bound
    requires Pow(from, |ds|) <= Pow(to, bound)
    ensures |ds| <= |Convert(ds, from, to)| <= bound
  {
    var z := LeadingZeros(ds);
    SplitZeros(ds, from);
    if z < |ds| {
      assert |ds[z..]| + z == |ds|;
      NumeralLength(ds[z..], from, to, z, bound);
    }
  }

  lemma SplitZeros(ds: seq<nat>, base: nat)
    requires base >= 2 && Digits(ds, base)
    ensures var z := LeadingZeros(ds);
            && Digits(ds[z..], base) && Value(ds[z..], base) == Value(ds, base)
            && (z < |ds| ==> ds[z..][0] != 0)
  {
    var z := LeadingZeros(ds);
    assert ds == Zeros(z) + ds[z..];
    ValueIgnoresZeros(z, ds[z..], base);
  }

  lemma NumeralLength(ds: seq<nat>, from: nat, to: nat, z: nat, bound: nat)
    requires 2 <= to <= from && Digits(ds, from) && ds != [] && ds[0] != 0 && z <= bound
    requires Pow(from, |ds| + z) <= Pow(to, bound)
    ensures |ds| <= |Numeral(Value(ds, from), to)| <= bound - z
  {
    var n := Value(ds, from);
    var r := Numeral(n, to);
    assert Pow(from, |ds| - 1) <= n < Pow(from, |ds|) by { ValueAtLeast(ds, from); ValueBelow(ds, from); }
    assert r != [] by { PowGrows(from, 0, |ds| - 1); }
    assert Pow(to, |r| - 1) <= n < Pow(to, |r|) by { ValueAtLeast(r, to); ValueBelow(r, to); }
    if |r| < |ds| {
      PowGrows(to, |r|, |ds| - 1);
      PowMonotone(to, from, |ds| - 1);
    } else if |r| > bound - z {
      PowGrows(to, bound - z, |r| - 1);
      TooLong(from, to, |ds|, z, bound - z);
    }
  }

  lemma TooLong(from: nat, to: nat, a: nat, z: nat, b: nat)
    requires 1 <= to <= from && Pow(to, b) < Pow(from, a)
    ensures Pow(to, b + z) < Pow(from, a + z)
  {
    PowAdd(to, b, z);
    PowAdd(from, a, z);
    PowMonotone(to, from, z);
    Times(Pow(to, b) + 1, Pow(from, a), Pow(to, z), Pow(from, z));
    assert (Pow(to, b) + 1) * Pow(to, z) == Pow(to, b) * Pow(to, z) + Pow(to, z);
  }
}
