/**
 The six relational operators. Equality compares limb sequences element by
 element; the order compares lengths first and, on equal lengths, limbs from
 the most significant one down, deciding at the first limb that differs.
 */
module Comparison {

  import opened Limbs

  datatype Ordering = Below | Same | Above

  /**
   The top-down scan over the first n limbs of two sequences: the first
   differing limb from index n-1 downwards decides.
   */
  function CompareFromTop(a: seq<nat>, b: seq<nat>, n: nat): (r: Ordering)
    requires n <= |a| && n <= |b|
    requires InRange(a) && InRange(b)
    ensures r == Below <==> LimbsValue(a[..n]) < LimbsValue(b[..n])
    ensures r == Above <==> LimbsValue(a[..n]) > LimbsValue(b[..n])
    decreases n
  {
    if n == 0 then Same
    else
      var r := if a[n - 1] > b[n - 1] then Above
               else if a[n - 1] < b[n - 1] then Below
               else CompareFromTop(a, b, n - 1);
      TopLimbDecides(a[..n], b[..n]);
      assert a[..n][..n - 1] == a[..n - 1];
      assert b[..n][..n - 1] == b[..n - 1];
      r
  }

  /**
   For two in-range sequences of one length, a larger top limb makes the
   larger number, and equal top limbs leave the decision to the rest.
   */
  lemma TopLimbDecides(a: seq<nat>, b: seq<nat>)
    requires |a| == |b| >= 1 && InRange(a) && InRange(b)
    ensures a[|a| - 1] > b[|b| - 1] ==> LimbsValue(a) > LimbsValue(b)
    ensures a[|a| - 1] < b[|b| - 1] ==> LimbsValue(a) < LimbsValue(b)
    ensures a[|a| - 1] == b[|b| - 1] ==>
              (LimbsValue(a) < LimbsValue(b) <==> LimbsValue(a[..|a| - 1]) < LimbsValue(b[..|b| - 1]))
              && (LimbsValue(a) > LimbsValue(b) <==> LimbsValue(a[..|a| - 1]) > LimbsValue(b[..|b| - 1]))
  {
    var n := |a|;
    var p := Pow10(n - 1);
    ValueSplitTop(a);
    ValueSplitTop(b);
    ValueUpperBound(a[..n - 1]);
    ValueUpperBound(b[..n - 1]);
    if a[n - 1] > b[n - 1] {
      MulGap(p, b[n - 1], a[n - 1]);
    } else if a[n - 1] < b[n - 1] {
      MulGap(p, a[n - 1], b[n - 1]);
    }
  }

  /** `==`: the limb sequences are identical; on canonical operands, the numbers are equal. */
  function Equal(a: BigInt, b: BigInt): (r: bool)
    requires a.Valid() && b.Valid()
    ensures r <==> a.Value() == b.Value()
  {
    assert a.Value() == b.Value() ==> a == b by {
      if a.Value() == b.Value() {
        Extensionality(a, b);
      }
    }
    a.limbs == b.limbs
  }

  /** `!=`: the negation of `==`. */
  function NotEqual(a: BigInt, b: BigInt): (r: bool)
    requires a.Valid() && b.Valid()
    ensures r <==> a.Value() != b.Value()
  {
    !Equal(a, b)
  }

  /** `>`: longer is larger; on equal lengths the top-down scan decides. */
  function Greater(a: BigInt, b: BigInt): (r: bool)
    requires a.Valid() && b.Valid()
    ensures r <==> a.Value() > b.Value()
  {
    if |a.limbs| != |b.limbs| then
      LengthDecides(a, b);
      |a.limbs| > |b.limbs|
    else
      assert a.limbs[..|a.limbs|] == a.limbs && b.limbs[..|b.limbs|] == b.limbs;
      CompareFromTop(a.limbs, b.limbs, |a.limbs|) == Above
  }

  /** `<`: shorter is smaller; on equal lengths the top-down scan decides. */
  function Less(a: BigInt, b: BigInt): (r: bool)
    requires a.Valid() && b.Valid()
    ensures r <==> a.Value() < b.Value()
  {
    if |a.limbs| != |b.limbs| then
      LengthDecides(a, b);
      |a.limbs| < |b.limbs|
    else
      assert a.limbs[..|a.limbs|] == a.limbs && b.limbs[..|b.limbs|] == b.limbs;
      CompareFromTop(a.limbs, b.limbs, |a.limbs|) == Below
  }

  /** `>=`: not `<`. */
  function GreaterOrEqual(a: BigInt, b: BigInt): (r: bool)
    requires a.Valid() && b.Valid()
    ensures r <==> a.Value() >= b.Value()
  {
    !Less(a, b)
  }

  /** `<=`: not `>`. */
  function LessOrEqual(a: BigInt, b: BigInt): (r: bool)
    requires a.Valid() && b.Valid()
    ensures r <==> a.Value() <= b.Value()
  {
    !Greater(a, b)
  }

  /** Between canonical operands of different lengths the longer is the larger. */
  lemma LengthDecides(a: BigInt, b: BigInt)
    requires a.Valid() && b.Valid()
    requires |a.limbs| != |b.limbs|
    ensures |a.limbs| > |b.limbs| <==> a.Value() > b.Value()
    ensures |a.limbs| < |b.limbs| <==> a.Value() < b.Value()
  {
    if |a.limbs| < |b.limbs| {
      CanonicalLengthOrder(a.limbs, b.limbs);
    } else {
      CanonicalLengthOrder(b.limbs, a.limbs);
    }
  }

  /** Exactly one of `<`, `==`, `>` holds. */
  lemma Trichotomy(a: BigInt, b: BigInt)
    requires a.Valid() && b.Valid()
    ensures Less(a, b) || Equal(a, b) || Greater(a, b)
    ensures !(Less(a, b) && Equal(a, b))
    ensures !(Less(a, b) && Greater(a, b))
    ensures !(Equal(a, b) && Greater(a, b))
  {
  }

  /** `<` and `>` are converses of each other. */
  lemma LessIsConverseOfGreater(a: BigInt, b: BigInt)
    requires a.Valid() && b.Valid()
    ensures Less(a, b) <==> Greater(b, a)
  {
  }
}
