/**
 The compound assignments `+=` and `-=` written as the loops that update the
 limb vector position by position, each shown to compute the same value as
 the functional definition of the operation.
 */
module InPlace {

  import opened Limbs
  import opened Arithmetic

  /** The limbs of b from position i upwards (none once i is past the end). */
  function Drop(b: seq<nat>, i: nat): seq<nat>
  {
    if i <= |b| then b[i..] else []
  }

  /** Dropping keeps limbs in range, and the tail of the drop at i is the drop at i+1. */
  lemma DropTail(b: seq<nat>, i: nat)
    requires InRange(b)
    ensures InRange(Drop(b, i)) && Tail(Drop(b, i)) == Drop(b, i + 1)
    ensures |Drop(b, i)| == if i <= |b| then |b| - i else 0
  {
    if i < |b| {
      assert b[i..][1..] == b[i + 1..];
    }
  }

  /** The suffix of s from a position i inside it starts with s[i] and continues with the suffix from i+1. */
  lemma SuffixStep(s: seq<nat>, i: nat)
    requires i < |s|
    ensures s[i..][0] == s[i] && s[i..][1..] == s[i + 1..]
    ensures InRange(s) ==> InRange(s[i..])
  {
  }

  /**
   Overwriting position i of a vector whose first i positions, followed by
   [v] + rest, spell out w leaves the first i+1 positions, followed by rest,
   spelling out w.
   */
  lemma StoreAdvances(before: seq<nat>, i: nat, v: nat, rest: seq<nat>, w: seq<nat>)
    requires i < |before|
    requires before[..i] + ([v] + rest) == w
    ensures before[i := v][..i + 1] + rest == w
    ensures before[i := v][i + 1..] == before[i + 1..]
  {
    assert before[i := v][..i + 1] == before[..i] + [v];
  }

  /** One position of the carry loop, unfolded. */
  lemma AddCarryStep(ext: seq<nat>, b: seq<nat>, i: nat, flag: nat, summ: nat)
    requires InRange(ext) && InRange(b) && |b| <= |ext| && i < |ext|
    requires flag <= 1
    requires summ == ext[i] + Head(Drop(b, i)) + flag
    ensures summ / Base <= 1
    ensures AddCarry(ext[i..], Drop(b, i), flag)
            == [summ % Base] + AddCarry(ext[i + 1..], Drop(b, i + 1), summ / Base)
  {
    DropTail(b, i);
    SuffixStep(ext, i);
    AddCarryCons(ext[i..], Drop(b, i), flag);
  }

  /**
   The carry loop's invariant at position i: the positions below i hold
   finished limbs which, followed by the carry recursion on the rest with
   the current carry, spell out the target; the positions from i up are
   still ext's.
   */
  ghost predicate CarryState(ext: seq<nat>, b: seq<nat>, numbers: seq<nat>, i: nat, flag: nat,
                             target: seq<nat>)
  {
    && InRange(ext) && InRange(b) && |b| <= |ext|
    && |numbers| == |ext| && i <= |ext| && flag <= 1
    && numbers[i..] == ext[i..]
    && numbers[..i] + AddCarry(ext[i..], Drop(b, i), flag) == target
  }

  /**
   The carry loop's invariant survives one position: `before` and `flag` are
   the state entering position i, `after` and `next` the state leaving it.
   */
  lemma CarryAdvances(ext: seq<nat>, b: seq<nat>, before: seq<nat>, i: nat, flag: nat, summ: nat,
                      after: seq<nat>, next: nat, target: seq<nat>)
    requires CarryState(ext, b, before, i, flag, target) && i < |ext|
    requires summ == if i < |b| then before[i] + b[i] + flag else before[i] + flag
    requires next == summ / Base && after == before[i := summ % Base]
    ensures CarryState(ext, b, after, i + 1, next, target)
  {
    assert before[i] == before[i..][0] == ext[i];
    AddCarryStep(ext, b, i, flag, summ);
    StoreAdvances(before, i, summ % Base, AddCarry(ext[i + 1..], Drop(b, i + 1), next), target);
    assert before[i + 1..] == before[i..][1..];
  }

  /**
   The carry pass of `a += b` over the zero-extended left operand: walk the
   positions upwards with a carry that is always 0 or 1, storing each
   position's sum modulo Base in place; the final carry is returned.
   */
  method CarryPass(ext: seq<nat>, b: seq<nat>) returns (numbers: seq<nat>, flag: nat)
    requires InRange(ext) && InRange(b) && |b| <= |ext|
    ensures |numbers| == |ext| && flag <= 1
    ensures numbers + (if flag != 0 then [flag] else []) == AddCarry(ext, b, 0)
  {
    numbers := ext;
    ghost var target := AddCarry(ext, b, 0);
    flag := 0;
    var i := 0;
    CarryStarts(ext, b);
    while i < |numbers|
      invariant CarryState(ext, b, numbers, i, flag, target)
    {
      var summ := if i < |b| then numbers[i] + b[i] + flag else numbers[i] + flag;
      ghost var before, incoming := numbers, flag;
      flag := summ / Base;
      numbers := numbers[i := summ % Base];
      CarryAdvances(ext, b, before, i, incoming, summ, numbers, flag, target);
      i := i + 1;
    }
    CarryFinishes(ext, b, numbers, flag, target);
  }

  /** Before the first position nothing is finished and the carry is 0. */
  lemma CarryStarts(ext: seq<nat>, b: seq<nat>)
    requires InRange(ext) && InRange(b) && |b| <= |ext|
    ensures CarryState(ext, b, ext, 0, 0, AddCarry(ext, b, 0))
  {
    assert ext[0..] == ext && Drop(b, 0) == b;
  }

  /** Once every position is done, the finished limbs and the final carry spell out the target. */
  lemma CarryFinishes(ext: seq<nat>, b: seq<nat>, numbers: seq<nat>, flag: nat, target: seq<nat>)
    requires CarryState(ext, b, numbers, |ext|, flag, target)
    ensures |numbers| == |ext| && flag <= 1
    ensures numbers + (if flag != 0 then [flag] else []) == target
  {
    assert ext[|ext|..] == [];
    assert numbers[..|ext|] == numbers;
  }

  /** `a += b`: zero-extend a to b's length, run the carry pass, push a final non-zero carry. */
  method AddAssign(a: BigInt, b: BigInt) returns (r: BigInt)
    requires a.Valid() && b.Valid()
    ensures r == Add(a, b)
    ensures r.Valid() && r.Value() == a.Value() + b.Value()
  {
    var numbers: seq<nat> := a.limbs;
    if |b.limbs| > |numbers| {
      numbers := numbers + Zeros(|b.limbs| - |numbers|);
    }
    assert numbers == Extend(a.limbs, b.limbs);
    var flag;
    numbers, flag := CarryPass(numbers, b.limbs);
    if flag != 0 {
      numbers := numbers + [flag];
    }
    r := BigInt(numbers);
  }

  /** One position of the borrow loop, unfolded; `next` is the outgoing borrow. */
  lemma SubBorrowStep(a: seq<nat>, b: seq<nat>, i: nat, flag: nat, dif: int, next: nat)
    requires InRange(b) && i < |a| && flag <= 1
    requires dif == a[i] - Head(Drop(b, i)) - flag
    requires next == if dif >= 0 then 0 else 1
    ensures InRange(Drop(b, i + 1))
    ensures SubBorrow(a[i..], Drop(b, i), flag)
            == [(if dif >= 0 then dif else Base + dif) as nat]
               + SubBorrow(a[i + 1..], Drop(b, i + 1), next)
  {
    DropTail(b, i);
    SuffixStep(a, i);
    SubBorrowCons(a[i..], Drop(b, i), flag);
  }

  /**
   The borrow loop's invariant at position i: the positions below i hold
   finished limbs which, followed by the borrow recursion on the rest with
   the current borrow, spell out the target; the positions from i up are
   still a's.
   */
  ghost predicate BorrowState(a: seq<nat>, b: seq<nat>, numbers: seq<nat>, i: nat, flag: nat,
                              target: seq<nat>)
  {
    && InRange(b)
    && |numbers| == |a| && i <= |a| && flag <= 1
    && numbers[i..] == a[i..]
    && numbers[..i] + SubBorrow(a[i..], Drop(b, i), flag) == target
  }

  /**
   The borrow loop's invariant survives one position: `before` and `flag`
   are the state entering position i, `after` and `next` the state leaving it.
   */
  lemma BorrowAdvances(a: seq<nat>, b: seq<nat>, before: seq<nat>, i: nat, flag: nat, dif: int,
                       after: seq<nat>, next: nat, target: seq<nat>)
    requires BorrowState(a, b, before, i, flag, target) && i < |a|
    requires dif == if i < |b| then before[i] - b[i] - flag else before[i] - flag
    requires next == if dif >= 0 then 0 else 1
    requires after == before[i := (if dif >= 0 then dif else Base + dif) as nat]
    ensures BorrowState(a, b, after, i + 1, next, target)
  {
    assert before[i] == before[i..][0] == a[i];
    SubBorrowStep(a, b, i, flag, dif, next);
    var stored: nat := (if dif >= 0 then dif else Base + dif) as nat;
    StoreAdvances(before, i, stored, SubBorrow(a[i + 1..], Drop(b, i + 1), next), target);
    assert before[i + 1..] == before[i..][1..];
  }

  /**
   The borrow pass of `a -= b`: walk the positions upwards with a borrow
   that is always 0 or 1, storing each position's difference in place.
   */
  method BorrowPass(a: seq<nat>, b: seq<nat>) returns (numbers: seq<nat>)
    requires InRange(b)
    ensures numbers == SubBorrow(a, b, 0)
  {
    numbers := a;
    var flag: nat := 0;
    var i := 0;
    ghost var target := SubBorrow(a, b, 0);
    assert a[0..] == a && Drop(b, 0) == b;
    while i < |numbers|
      invariant BorrowState(a, b, numbers, i, flag, target)
    {
      var dif: int := if i < |b| then numbers[i] - b[i] - flag else numbers[i] - flag;
      ghost var before, incoming := numbers, flag;
      if dif >= 0 {
        numbers := numbers[i := dif as nat];
        flag := 0;
      } else {
        flag := 1;
        numbers := numbers[i := (Base + dif) as nat];
      }
      BorrowAdvances(a, b, before, i, incoming, dif, numbers, flag, target);
      i := i + 1;
    }
    assert numbers[..i] == numbers;
  }

  /**
   The trimming pass of `a -= b`: pop zero limbs from the top while more
   than one limb remains.
   */
  method TrimPass(difference: seq<nat>) returns (numbers: seq<nat>)
    requires |difference| >= 1
    ensures numbers == TrimZeros(difference)
  {
    numbers := difference;
    var j := |numbers| - 1;
    while numbers[j] == 0 && j > 0
      invariant 0 <= j && |numbers| == j + 1
      invariant TrimZeros(numbers) == TrimZeros(difference)
    {
      numbers := numbers[..j];
      j := j - 1;
    }
  }

  /** `a -= b` for a >= b: the borrow pass, then the trimming pass. */
  method SubtractAssign(a: BigInt, b: BigInt) returns (r: BigInt)
    requires a.Valid() && b.Valid()
    requires a.Value() >= b.Value()
    ensures r == Subtract(a, b)
    ensures r.Valid() && r.Value() == a.Value() - b.Value()
  {
    var difference := BorrowPass(a.limbs, b.limbs);
    var numbers := TrimPass(difference);
    r := BigInt(numbers);
  }
}
