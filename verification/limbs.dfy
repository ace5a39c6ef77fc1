/**
 The limb layer of the big integer: the limb base, the number of decimal
 digits per limb, the abstraction function from a limb sequence (least
 significant limb first) to the number it denotes, and the representation
 invariant every big integer keeps.
 */
module Limbs {

  /** The limb base; every limb holds a value in [0, Base). */
  const Base: nat := 10

  /** Base raised to the k-th power. */
  function Pow10(k: nat): (r: nat)
    ensures r >= 1
  {
    if k == 0 then 1 else Base * Pow10(k - 1)
  }

  /**
   The digit-count helper used to size limbs: it divides by ten while the
   number is still above ten. For a number n the result r is the least
   r >= 1 with n < 11 * 10^(r-1); for a power of ten this is its exponent.
   */
  function Logarithm10(n: int): (r: nat)
    ensures r >= 1
    ensures n < 11 * Pow10(r - 1)
    ensures r > 1 ==> 11 * Pow10(r - 2) <= n
    decreases if n > 10 then n else 0
  {
    if n > 10 then 1 + Logarithm10(n / 10) else 1
  }

  /** How many decimal digits one limb holds. */
  const NumberOfZeros: nat := Logarithm10(Base)

  /** On a power of ten the helper returns the exponent. */
  lemma {:induction false} Logarithm10OfPowerOfTen(m: nat)
    requires m >= 1
    ensures Logarithm10(Pow10(m)) == m
  {
    if m > 1 {
      assert Pow10(m) == 10 * Pow10(m - 1);
      Pow10Monotone(1, m - 1);
      assert Pow10(m) / 10 == Pow10(m - 1);
      Logarithm10OfPowerOfTen(m - 1);
    }
  }

  /** Each limb holds exactly one decimal digit. */
  lemma NumberOfZerosIsOne()
    ensures NumberOfZeros == 1
  {
    Logarithm10OfPowerOfTen(1);
  }

  lemma {:induction false} Pow10Monotone(i: nat, j: nat)
    requires i <= j
    ensures Pow10(i) <= Pow10(j)
    decreases j - i
  {
    if i < j {
      Pow10Monotone(i, j - 1);
    }
  }

  /** The number a limb sequence denotes: the sum of limbs[i] * Base^i. */
  function LimbsValue(s: seq<nat>): nat
  {
    if |s| == 0 then 0 else s[0] + Base * LimbsValue(s[1..])
  }

  /** Every limb lies in [0, Base). */
  predicate InRange(s: seq<nat>)
  {
    forall i | 0 <= i < |s| :: s[i] < Base
  }

  /**
   The representation invariant: at least one limb, every limb in range,
   and no zero most significant limb except for the single-limb zero.
   */
  predicate Canonical(s: seq<nat>)
  {
    && |s| >= 1
    && InRange(s)
    && (|s| == 1 || s[|s| - 1] != 0)
  }

  /** A run of k zero limbs. */
  function Zeros(k: nat): seq<nat>
  {
    seq(k, _ => 0)
  }

  /** The big integer value: its limb sequence, least significant first. */
  datatype BigInt = BigInt(limbs: seq<nat>)
  {
    predicate Valid()
    {
      Canonical(limbs)
    }

    function Value(): nat
    {
      LimbsValue(limbs)
    }
  }

  /** Appending limbs above a sequence shifts their value by Base^|a|. */
  lemma {:induction false} ValueConcat(a: seq<nat>, b: seq<nat>)
    ensures LimbsValue(a + b) == LimbsValue(a) + Pow10(|a|) * LimbsValue(b)
  {
    if |a| == 0 {
      assert a + b == b;
    } else {
      assert (a + b)[1..] == a[1..] + b;
      ValueConcat(a[1..], b);
      var rest := LimbsValue(a[1..]);
      var p := Pow10(|a| - 1);
      calc {
        LimbsValue(a + b);
        a[0] + Base * LimbsValue(a[1..] + b);
        a[0] + Base * (rest + p * LimbsValue(b));
        a[0] + Base * rest + (Base * p) * LimbsValue(b);
        LimbsValue(a) + Pow10(|a|) * LimbsValue(b);
      }
    }
  }

  /** The value of a sequence is its prefix plus its top limb in place. */
  lemma ValueSplitTop(s: seq<nat>)
    requires |s| >= 1
    ensures LimbsValue(s) == LimbsValue(s[..|s| - 1]) + Pow10(|s| - 1) * s[|s| - 1]
  {
    assert s == s[..|s| - 1] + [s[|s| - 1]];
    ValueConcat(s[..|s| - 1], [s[|s| - 1]]);
    assert LimbsValue([s[|s| - 1]]) == s[|s| - 1] by {
      assert [s[|s| - 1]][1..] == [];
    }
  }

  /** Zero limbs added at the top change nothing. */
  lemma ValueZeroExtend(s: seq<nat>, k: nat)
    ensures LimbsValue(s + Zeros(k)) == LimbsValue(s)
  {
    ZerosValue(k);
    ValueConcat(s, Zeros(k));
  }

  lemma {:induction false} ZerosValue(k: nat)
    ensures LimbsValue(Zeros(k)) == 0
  {
    if k > 0 {
      assert Zeros(k)[1..] == Zeros(k - 1);
      ZerosValue(k - 1);
    }
  }

  /** n limbs in range denote less than Base^n. */
  lemma {:induction false} ValueUpperBound(s: seq<nat>)
    requires InRange(s)
    ensures LimbsValue(s) < Pow10(|s|)
  {
    if |s| > 0 {
      ValueUpperBound(s[1..]);
      assert s[0] < Base;
      assert LimbsValue(s) <= Base - 1 + Base * (Pow10(|s| - 1) - 1);
    }
  }

  /** A canonical sequence of n > 1 limbs denotes at least Base^(n-1). */
  lemma CanonicalLowerBound(s: seq<nat>)
    requires Canonical(s) && |s| > 1
    ensures LimbsValue(s) >= Pow10(|s| - 1)
  {
    ValueSplitTop(s);
  }

  /** In-range limbs whose value reaches Base^(n-1) have a non-zero top limb. */
  lemma CanonicalByValue(s: seq<nat>)
    requires |s| >= 1 && InRange(s)
    requires |s| == 1 || LimbsValue(s) >= Pow10(|s| - 1)
    ensures Canonical(s)
  {
    if |s| > 1 && s[|s| - 1] == 0 {
      ValueSplitTop(s);
      ValueUpperBound(s[..|s| - 1]);
      assert false;
    }
  }

  /** The number of limbs of a canonical sequence is fixed by its value. */
  lemma CanonicalLengthOrder(a: seq<nat>, b: seq<nat>)
    requires Canonical(a) && Canonical(b)
    requires |a| < |b|
    ensures LimbsValue(a) < LimbsValue(b)
  {
    ValueUpperBound(a);
    CanonicalLowerBound(b);
    Pow10Monotone(|a|, |b| - 1);
  }

  /** Two canonical sequences with the same value are the same sequence. */
  lemma {:induction false} CanonicalUnique(a: seq<nat>, b: seq<nat>)
    requires Canonical(a) && Canonical(b)
    requires LimbsValue(a) == LimbsValue(b)
    ensures a == b
  {
    if |a| < |b| {
      CanonicalLengthOrder(a, b);
    } else if |b| < |a| {
      CanonicalLengthOrder(b, a);
    } else if |a| > 1 {
      LowLimbUnique(a[0], LimbsValue(a[1..]), b[0], LimbsValue(b[1..]));
      CanonicalUnique(a[1..], b[1..]);
      assert a == [a[0]] + a[1..];
      assert b == [b[0]] + b[1..];
    } else {
      assert LimbsValue(a[1..]) == 0;
      assert LimbsValue(b[1..]) == 0;
    }
  }

  /** Canonical big integers are equal exactly when their values are. */
  lemma Extensionality(x: BigInt, y: BigInt)
    requires x.Valid() && y.Valid()
    requires x.Value() == y.Value()
    ensures x == y
  {
    CanonicalUnique(x.limbs, y.limbs);
  }

  /** The lowest limb and the value above it are determined by the total. */
  lemma LowLimbUnique(x: nat, y: nat, x2: nat, y2: nat)
    requires x < Base && x2 < Base
    requires x + Base * y == x2 + Base * y2
    ensures x == x2 && y == y2
  {
    if y < y2 {
      MulGap(Base, y, y2);
    } else if y2 < y {
      MulGap(Base, y2, y);
    }
  }

  /** Multiples of m that differ are at least m apart. */
  lemma MulGap(m: nat, i: nat, j: nat)
    requires i < j
    ensures m * i + m <= m * j
  {
    var d := j - i;
    MulDistributes(m, i, d);
    MulAtLeast(m, d);
  }

  lemma MulDistributes(m: nat, i: nat, d: nat)
    ensures m * (i + d) == m * i + m * d
  {
  }

  lemma MulAtLeast(m: nat, d: nat)
    requires d >= 1
    ensures m * d >= m
  {
  }
}
