/**
 Conversions between the big integer and the 32-bit machine integer: the
 constructor from `unsigned int` and the explicit cast back to it.
 */
module Conversions {

  import opened Limbs

  /** 2^32: the modulus of `unsigned int` arithmetic. */
  const UIntModulus: nat := 0x1_0000_0000

  /** The values of a 32-bit `unsigned int`. */
  type UInt32 = n: nat | n < UIntModulus

  /**
   Limbs of n, least significant first: emit n mod Base while n is at
   least Base, dividing down, then emit what is left as the top limb.
   */
  function NatLimbs(n: nat): (r: seq<nat>)
    ensures Canonical(r)
    ensures LimbsValue(r) == n
  {
    if n < Base then [n]
    else
      var rest := NatLimbs(n / Base);
      assert ([n % Base] + rest)[1..] == rest;
      [n % Base] + rest
  }

  /** The constructor from `unsigned int` (whose default argument is 0). */
  function FromUInt(n: UInt32): (r: BigInt)
    ensures r.Valid()
    ensures r.Value() == n
    ensures n == 0 <==> r.limbs == [0]
  {
    BigInt(NatLimbs(n))
  }

  /**
   The accumulation loop of the cast: `result += limb * current_base` and
   `current_base *= BASE`, both in wrapping 32-bit arithmetic.
   */
  function WrapAccumulate(s: seq<nat>, acc: UInt32, power: UInt32): (r: UInt32)
    ensures r == (acc + power * LimbsValue(s)) % UIntModulus
  {
    if |s| == 0 then acc
    else
      var acc' := (acc + (s[0] * power) % UIntModulus) % UIntModulus;
      var power' := (power * Base) % UIntModulus;
      var r := WrapAccumulate(s[1..], acc', power');
      AccumulateStep(acc, power, s[0], LimbsValue(s[1..]));
      r
  }

  /** One step of the wrapping accumulation keeps the residue of the value. */
  lemma AccumulateStep(acc: nat, power: nat, limb: nat, rest: nat)
    ensures ((acc + (limb * power) % UIntModulus) % UIntModulus
             + ((power * Base) % UIntModulus) * rest) % UIntModulus
            == (acc + power * (limb + Base * rest)) % UIntModulus
  {
    var lp := limb * power;
    var pb := power * Base;
    var x := acc + lp % UIntModulus;
    var y := (pb % UIntModulus) * rest;
    var high := pb * rest;
    ModAddLeft(x, y);
    ModMulLeft(pb, rest);
    ModAddRight(x, y);
    ModAddRight(x, high);
    ModAddRight(acc + high, lp);
    assert acc + high + lp == acc + power * (limb + Base * rest) by {
      Expand(power, limb, rest);
    }
  }

  lemma Expand(power: nat, limb: nat, rest: nat)
    ensures power * Base * rest + limb * power == power * (limb + Base * rest)
  {
  }

  /** A residue taken early in a sum does not change the sum's residue. */
  lemma ModAddLeft(a: nat, b: nat)
    ensures (a % UIntModulus + b) % UIntModulus == (a + b) % UIntModulus
  {
    ModShift(a / UIntModulus, a % UIntModulus + b);
  }

  lemma ModAddRight(a: nat, b: nat)
    ensures (a + b % UIntModulus) % UIntModulus == (a + b) % UIntModulus
  {
    ModAddLeft(b, a);
  }

  /** A residue taken early in a product does not change the product's residue. */
  lemma ModMulLeft(a: nat, c: nat)
    ensures ((a % UIntModulus) * c) % UIntModulus == (a * c) % UIntModulus
  {
    var q := a / UIntModulus;
    var r := a % UIntModulus;
    SplitProduct(q, r, c);
    ModShift(q * c, r * c);
  }

  lemma SplitProduct(q: nat, r: nat, c: nat)
    ensures (UIntModulus * q + r) * c == UIntModulus * (q * c) + r * c
  {
  }

  /** Adding a multiple of 2^32 does not change a residue. */
  lemma ModShift(q: nat, x: nat)
    ensures (UIntModulus * q + x) % UIntModulus == x % UIntModulus
  {
    ModUnique(UIntModulus * q + x, q + x / UIntModulus, x % UIntModulus);
  }

  /** Euclidean division by 2^32 has only one remainder. */
  lemma ModUnique(y: nat, k: nat, r: nat)
    requires r < UIntModulus
    requires y == UIntModulus * k + r
    ensures y % UIntModulus == r
  {
  }

  /** The explicit cast to `unsigned int`: the value reduced modulo 2^32. */
  function ToUInt32(x: BigInt): (r: UInt32)
    ensures r == x.Value() % UIntModulus
    ensures x.Value() < UIntModulus ==> r == x.Value()
  {
    WrapAccumulate(x.limbs, 0, 1)
  }

  /** Converting a machine integer in and back out gives it back. */
  lemma UIntRoundTrip(n: UInt32)
    ensures ToUInt32(FromUInt(n)) == n
  {
  }

  /** A canonical big integer is the construction from its own value when that fits. */
  lemma FromUIntOfValue(x: BigInt)
    requires x.Valid()
    requires x.Value() < UIntModulus
    ensures FromUInt(ToUInt32(x)) == x
  {
    Extensionality(FromUInt(ToUInt32(x)), x);
  }
}
