/**
 Addition and subtraction with carry and borrow propagation, the trimming of
 high zero limbs after a subtraction, and the increment and decrement
 operators built on them. Every operation is a value-to-value function: the
 compound assignments return the new value of their left operand, and the
 binary forms, which work on a copy, return the same value while leaving
 their operands as they were.
 */
module Arithmetic {

  import opened Limbs
  import Conversions

  // ---------------------------------------------------------------------
  // Addition
  // ---------------------------------------------------------------------

  /** The limb of b at position 0, reading missing limbs as zero. */
  function Head(b: seq<nat>): nat
  {
    if |b| > 0 then b[0] else 0
  }

  /** The limbs of b above position 0 (none when b is empty). */
  function Tail(b: seq<nat>): seq<nat>
  {
    if |b| > 0 then b[1..] else []
  }

  /**
   The carry loop of `+=` from one position upwards: a is the (already
   zero-extended) left operand, b the right one, carry the incoming carry.
   Each position stores (a[i] + b[i] + carry) mod Base and passes the
   quotient on; a final non-zero carry becomes a new top limb. With limbs
   in range every carry passed on is 0 or 1 (each recursive call requires
   it), every stored limb is in range, and the result is one limb longer
   than a only when a final carry 1 was pushed.
   */
  function AddCarry(a: seq<nat>, b: seq<nat>, carry: nat): (r: seq<nat>)
    requires InRange(a) && InRange(b) && |b| <= |a|
    requires carry <= 1
    ensures InRange(r)
    ensures |r| == |a| || (|r| == |a| + 1 && r[|a|] == 1)
    decreases a
  {
    if |a| == 0 then
      if carry != 0 then [carry] else []
    else
      var sum := a[0] + Head(b) + carry;
      var rest := AddCarry(a[1..], Tail(b), sum / Base);
      var r := [sum % Base] + rest;
      assert forall i | 1 <= i < |r| :: r[i] == rest[i - 1];
      r
  }
  /** The first position of the carry loop: the sum's low digit, then the loop on the rest with the sum's carry. */
  lemma AddCarryCons(a: seq<nat>, b: seq<nat>, carry: nat)
    requires InRange(a) && InRange(b) && |b| <= |a| && |a| > 0
    requires carry <= 1
    ensures var sum := a[0] + Head(b) + carry;
            && sum / Base <= 1
            && AddCarry(a, b, carry) == [sum % Base] + AddCarry(a[1..], Tail(b), sum / Base)
  {
  }


  /** The carry loop's result denotes a + b + carry. */
  lemma {:induction false} AddCarryValue(a: seq<nat>, b: seq<nat>, carry: nat)
    requires InRange(a) && InRange(b) && |b| <= |a|
    requires carry <= 1
    ensures LimbsValue(AddCarry(a, b, carry)) == LimbsValue(a) + LimbsValue(b) + carry
  {
    if |a| == 0 {
      if carry != 0 {
        assert [carry][1..] == [];
      }
    } else {
      var sum := a[0] + Head(b) + carry;
      var next := sum / Base;
      AddCarryValue(a[1..], Tail(b), next);
      var rest := AddCarry(a[1..], Tail(b), next);
      assert ([sum % Base] + rest)[1..] == rest;
      HeadTailValue(b);
      assert sum == sum % Base + Base * next;
    }
  }

  /** A sequence's value is its lowest limb plus Base times the rest, reading an empty sequence as zero. */
  lemma HeadTailValue(b: seq<nat>)
    ensures LimbsValue(b) == Head(b) + Base * LimbsValue(Tail(b))
  {
  }

  /** The left operand of `+=` zero-extended to the length of the right one. */
  function Extend(a: seq<nat>, b: seq<nat>): (r: seq<nat>)
    ensures |r| == if |b| > |a| then |b| else |a|
    ensures r[..|a|] == a
    ensures forall i | |a| <= i < |r| :: r[i] == 0
    ensures LimbsValue(r) == LimbsValue(a)
  {
    if |b| > |a| then
      ValueZeroExtend(a, |b| - |a|);
      a + Zeros(|b| - |a|)
    else a
  }

  /**
   `+=` (and `+`, which applies it to a copy): zero-extend the left
   operand, run the carry loop, push a final carry.
   */
  function Add(a: BigInt, b: BigInt): (r: BigInt)
    requires a.Valid() && b.Valid()
    ensures r.Valid()
    ensures r.Value() == a.Value() + b.Value()
  {
    AddCarryValue(Extend(a.limbs, b.limbs), b.limbs, 0);
    SumIsCanonical(a.limbs, b.limbs);
    BigInt(AddCarry(Extend(a.limbs, b.limbs), b.limbs, 0))
  }

  /**
   The carry loop leaves no zero top limb: either the final carry was
   pushed as a top limb 1, or the sum reaches Base^(n-1) because the
   longer operand alone does.
   */
  lemma SumIsCanonical(a: seq<nat>, b: seq<nat>)
    requires Canonical(a) && Canonical(b)
    ensures Canonical(AddCarry(Extend(a, b), b, 0))
  {
    var ext := Extend(a, b);
    AddCarryValue(ext, b, 0);
    CanonicalSum(AddCarry(ext, b, 0), |ext|, a, b);
  }

  /**
   In-range limbs denoting a + b, as long as the longer operand or one limb
   longer with a top limb 1, are canonical.
   */
  lemma CanonicalSum(sum: seq<nat>, n: nat, a: seq<nat>, b: seq<nat>)
    requires Canonical(a) && Canonical(b)
    requires n == if |b| > |a| then |b| else |a|
    requires InRange(sum)
    requires LimbsValue(sum) == LimbsValue(a) + LimbsValue(b)
    requires |sum| == n || (|sum| == n + 1 && sum[n] == 1)
    ensures Canonical(sum)
  {
    if |sum| == n {
      if n > 1 {
        LongerBound(a, b, n);
      }
      CanonicalByValue(sum);
    } else {
      assert sum[|sum| - 1] == 1;
    }
  }

  /** The sum of two canonical values reaches the lower bound of the longer operand's length. */
  lemma LongerBound(a: seq<nat>, b: seq<nat>, n: nat)
    requires Canonical(a) && Canonical(b)
    requires n == if |b| > |a| then |b| else |a|
    requires n > 1
    ensures LimbsValue(a) + LimbsValue(b) >= Pow10(n - 1)
  {
    if |b| > |a| {
      CanonicalLowerBound(b);
    } else {
      CanonicalLowerBound(a);
    }
  }

  // ---------------------------------------------------------------------
  // Subtraction
  // ---------------------------------------------------------------------

  /**
   The borrow loop of `-=` from one position upwards: each position computes
   a[i] - b[i] - borrow as a signed number, stores it when it is not
   negative, and otherwise stores it plus Base and borrows one. Limbs of b
   beyond the length of a are never read.
   */
  function SubBorrow(a: seq<nat>, b: seq<nat>, borrow: nat): (r: seq<nat>)
    requires InRange(b) && borrow <= 1
    ensures |r| == |a|
    ensures InRange(a) ==> InRange(r)
  {
    if |a| == 0 then []
    else
      var dif: int := a[0] - Head(b) - borrow;
      var low: nat := (if dif >= 0 then dif else Base + dif) as nat;
      var rest := SubBorrow(a[1..], Tail(b), if dif >= 0 then 0 else 1);
      var r := [low] + rest;
      assert forall i | 1 <= i < |r| :: r[i] == rest[i - 1];
      r
  }
  /** The first position of the borrow loop: the stored limb, then the loop on the rest with the outgoing borrow. */
  lemma SubBorrowCons(a: seq<nat>, b: seq<nat>, borrow: nat)
    requires InRange(b) && borrow <= 1 && |a| > 0
    ensures var dif: int := a[0] - Head(b) - borrow;
            SubBorrow(a, b, borrow)
            == [(if dif >= 0 then dif else Base + dif) as nat]
               + SubBorrow(a[1..], Tail(b), if dif >= 0 then 0 else 1)
  {
  }


  /**
   When the left operand is at least the right one plus the incoming
   borrow, the borrow loop yields in-range limbs denoting the difference.
   */
  lemma {:induction false} SubBorrowCorrect(a: seq<nat>, b: seq<nat>, borrow: nat)
    requires InRange(a) && InRange(b) && borrow <= 1
    requires LimbsValue(a) >= LimbsValue(b) + borrow
    ensures var r := SubBorrow(a, b, borrow);
            && InRange(r)
            && LimbsValue(r) == LimbsValue(a) - LimbsValue(b) - borrow
  {
    if |a| > 0 {
      var dif: int := a[0] - Head(b) - borrow;
      var next: nat := if dif >= 0 then 0 else 1;
      HeadTailValue(b);
      SubBorrowCorrect(a[1..], Tail(b), next);
      SubBorrowHead(a, b, borrow);
    }
  }

  /** One position of the borrow loop: the stored limb plus Base times the rest. */
  lemma SubBorrowHead(a: seq<nat>, b: seq<nat>, borrow: nat)
    requires InRange(b) && borrow <= 1 && |a| > 0
    ensures var dif: int := a[0] - Head(b) - borrow;
            var next: nat := if dif >= 0 then 0 else 1;
            LimbsValue(SubBorrow(a, b, borrow))
            == dif + Base * next + Base * LimbsValue(SubBorrow(a[1..], Tail(b), next))
  {
    var dif: int := a[0] - Head(b) - borrow;
    var next: nat := if dif >= 0 then 0 else 1;
    var low: nat := (if dif >= 0 then dif else Base + dif) as nat;
    var rest := SubBorrow(a[1..], Tail(b), next);
    SubBorrowCons(a, b, borrow);
    assert ([low] + rest)[1..] == rest;
    assert low == dif + Base * next;
  }

  /**
   The trimming loop of `-=`: drop zero limbs from the top while more than
   one limb remains.
   */
  function TrimZeros(s: seq<nat>): (r: seq<nat>)
    requires |s| >= 1
    ensures 1 <= |r| <= |s| && r == s[..|r|]
    ensures forall i | |r| <= i < |s| :: s[i] == 0
    ensures |r| == 1 || r[|r| - 1] != 0
    ensures InRange(s) ==> InRange(r)
    ensures LimbsValue(r) == LimbsValue(s)
  {
    if |s| > 1 && s[|s| - 1] == 0 then
      var r := TrimZeros(s[..|s| - 1]);
      ValueSplitTop(s);
      r
    else s
  }

  /**
   `-=` (and `-`, which applies it to a copy) for a left operand at least
   as large as the right one: the borrow loop, then the trimming loop.
   */
  function Subtract(a: BigInt, b: BigInt): (r: BigInt)
    requires a.Valid() && b.Valid()
    requires a.Value() >= b.Value()
    ensures r.Valid()
    ensures r.Value() == a.Value() - b.Value()
  {
    DifferenceIsCanonical(a.limbs, b.limbs);
    BigInt(TrimZeros(SubBorrow(a.limbs, b.limbs, 0)))
  }

  /** The borrow loop followed by the trimming loop leaves a canonical difference. */
  lemma DifferenceIsCanonical(a: seq<nat>, b: seq<nat>)
    requires Canonical(a) && Canonical(b)
    requires LimbsValue(a) >= LimbsValue(b)
    ensures Canonical(TrimZeros(SubBorrow(a, b, 0)))
    ensures LimbsValue(TrimZeros(SubBorrow(a, b, 0))) == LimbsValue(a) - LimbsValue(b)
  {
    SubBorrowCorrect(a, b, 0);
    TrimmedCanonical(SubBorrow(a, b, 0));
  }

  /** Trimming in-range limbs leaves a canonical vector with the same value. */
  lemma TrimmedCanonical(s: seq<nat>)
    requires |s| >= 1 && InRange(s)
    ensures Canonical(TrimZeros(s)) && LimbsValue(TrimZeros(s)) == LimbsValue(s)
  {
  }

  // ---------------------------------------------------------------------
  // Increment and decrement
  // ---------------------------------------------------------------------

  /** The big integer one, as the operators construct it. */
  function One(): (r: BigInt)
    ensures r.Valid() && r.Value() == 1
  {
    Conversions.FromUInt(1)
  }

  /**
   The effect of an increment or decrement: the new value of the variable
   and the value the expression yields.
   */
  datatype Step = Step(variable: BigInt, returned: BigInt)

  /** Prefix `++a`: add one and yield the updated variable. */
  function PreIncrement(a: BigInt): (r: Step)
    requires a.Valid()
    ensures r.variable.Valid() && r.variable.Value() == a.Value() + 1
    ensures r.returned == r.variable
  {
    var v := Add(a, One());
    Step(v, v)
  }

  /** Postfix `a++`: add one and yield a copy of the old value. */
  function PostIncrement(a: BigInt): (r: Step)
    requires a.Valid()
    ensures r.variable.Valid() && r.variable.Value() == a.Value() + 1
    ensures r.returned == a
  {
    Step(Add(a, One()), a)
  }

  /** Prefix `--a` on a positive value: subtract one and yield the updated variable. */
  function PreDecrement(a: BigInt): (r: Step)
    requires a.Valid() && a.Value() >= 1
    ensures r.variable.Valid() && r.variable.Value() == a.Value() - 1
    ensures r.returned == r.variable
  {
    var v := Subtract(a, One());
    Step(v, v)
  }

  /** Postfix `a--` on a positive value: subtract one and yield a copy of the old value. */
  function PostDecrement(a: BigInt): (r: Step)
    requires a.Valid() && a.Value() >= 1
    ensures r.variable.Valid() && r.variable.Value() == a.Value() - 1
    ensures r.returned == a
  {
    Step(Subtract(a, One()), a)
  }

  // ---------------------------------------------------------------------
  // Algebraic laws
  // ---------------------------------------------------------------------

  lemma AddCommutative(a: BigInt, b: BigInt)
    requires a.Valid() && b.Valid()
    ensures Add(a, b) == Add(b, a)
  {
    Extensionality(Add(a, b), Add(b, a));
  }

  lemma AddAssociative(a: BigInt, b: BigInt, c: BigInt)
    requires a.Valid() && b.Valid() && c.Valid()
    ensures Add(Add(a, b), c) == Add(a, Add(b, c))
  {
    Extensionality(Add(Add(a, b), c), Add(a, Add(b, c)));
  }

  /** Adding the constructed zero changes nothing. */
  lemma AddZeroIdentity(a: BigInt)
    requires a.Valid()
    ensures Add(a, Conversions.FromUInt(0)) == a
  {
    Extensionality(Add(a, Conversions.FromUInt(0)), a);
  }

  /** Subtracting what was added gives the left operand back. */
  lemma AddThenSubtract(a: BigInt, b: BigInt)
    requires a.Valid() && b.Valid()
    ensures Subtract(Add(a, b), b) == a
  {
    Extensionality(Subtract(Add(a, b), b), a);
  }

  /** Adding back what was subtracted gives the left operand back. */
  lemma SubtractThenAdd(a: BigInt, b: BigInt)
    requires a.Valid() && b.Valid() && a.Value() >= b.Value()
    ensures Add(Subtract(a, b), b) == a
  {
    Extensionality(Add(Subtract(a, b), b), a);
  }

  /** `--(++a)` is `a`. */
  lemma DecrementAfterIncrement(a: BigInt)
    requires a.Valid()
    ensures PreDecrement(PreIncrement(a).variable).variable == a
  {
    Extensionality(PreDecrement(PreIncrement(a).variable).variable, a);
  }

  /** `++(--a)` is `a` for a positive `a`. */
  lemma IncrementAfterDecrement(a: BigInt)
    requires a.Valid() && a.Value() >= 1
    ensures PreIncrement(PreDecrement(a).variable).variable == a
  {
    Extensionality(PreIncrement(PreDecrement(a).variable).variable, a);
  }

  /** Prefix and postfix forms leave the variable in the same state. */
  lemma PrefixPostfixAgree(a: BigInt)
    requires a.Valid()
    ensures PostIncrement(a).variable == PreIncrement(a).variable
    ensures a.Value() >= 1 ==> PostDecrement(a).variable == PreDecrement(a).variable
  {
  }
}
