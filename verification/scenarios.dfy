/** Concrete cases of the big integer's behaviour, derived from the general laws. */
module Scenarios {

  import opened Wrappers
  import opened Limbs
  import opened Conversions
  import opened Text
  import opened Comparison
  import opened Arithmetic

  /** The canonical big integer denoting 1000 renders as "1000". */
  lemma RendersThousand(x: BigInt)
    requires x.Valid() && x.Value() == 1000
    ensures ToString(x) == "1000"
  {
    var expected := BigInt([0, 0, 0, 1]);
    assert x == expected by {
      assert LimbsValue([1]) == 1 by { assert [1][1..] == []; }
      assert LimbsValue([0, 1]) == 10 by { assert [0, 1][1..] == [1]; }
      assert LimbsValue([0, 0, 1]) == 100 by { assert [0, 0, 1][1..] == [0, 1]; }
      assert LimbsValue([0, 0, 0, 1]) == 1000 by { assert [0, 0, 0, 1][1..] == [0, 0, 1]; }
      Extensionality(x, expected);
    }
    assert DigitChars(expected.limbs) == "1000" by {
      assert DigitChar(0) == '0' && DigitChar(1) == '1';
    }
  }

  /** The canonical big integer denoting 999 renders as "999". */
  lemma RendersNineNineNine(x: BigInt)
    requires x.Valid() && x.Value() == 999
    ensures ToString(x) == "999"
  {
    var expected := BigInt([9, 9, 9]);
    assert x == expected by {
      assert LimbsValue([9]) == 9 by { assert [9][1..] == []; }
      assert LimbsValue([9, 9]) == 99 by { assert [9, 9][1..] == [9]; }
      assert LimbsValue([9, 9, 9]) == 999 by { assert [9, 9, 9][1..] == [9, 9]; }
      Extensionality(x, expected);
    }
    assert DigitChars(expected.limbs) == "999" by {
      assert DigitChar(9) == '9';
    }
  }

  /** 999 + 1 renders as "1000": the final carry becomes a new top limb. */
  lemma CarryIntoNewLimb()
    ensures ToString(Add(FromUInt(999), FromUInt(1))) == "1000"
  {
    RendersThousand(Add(FromUInt(999), FromUInt(1)));
  }

  /** 1000 - 1 renders as "999": the zero top limb left by the borrow is trimmed. */
  lemma BorrowTrimsTopLimb()
    ensures ToString(Subtract(FromUInt(1000), FromUInt(1))) == "999"
  {
    RendersNineNineNine(Subtract(FromUInt(1000), FromUInt(1)));
  }

  /**
   The borrow and trim loops are total: for a smaller left operand they still
   end, with a value that is not a difference. `--bigint(0)` leaves 9, and
   `bigint(5) -= bigint(10)` leaves 5, since the loop only visits a's limbs.
   */
  lemma SmallerLeftOperand()
    ensures TrimZeros(SubBorrow([0], [1], 0)) == [9]
    ensures TrimZeros(SubBorrow([5], [0, 1], 0)) == [5]
  {
    assert SubBorrow([0], [1], 0) == [9];
    assert SubBorrow([5], [0, 1], 0) == [5];
  }

  /** A one-character digit string parses to that digit. */
  lemma SingleDigitParses(d: nat)
    requires d < Base
    ensures FromString([DigitChar(d)]) == Some(FromUInt(d))
  {
    var s := [DigitChar(d)];
    assert AllDigits(s);
    assert DecimalValue(s) == d by { assert s[..0] == []; }
    Extensionality(FromString(s).value, FromUInt(d));
  }

  /** A single digit behind any number of '0' characters parses to that digit. */
  lemma ZeroPaddedDigit(k: nat, d: nat)
    requires d < Base
    ensures FromString(ZeroChars(k) + [DigitChar(d)]) == Some(FromUInt(d))
  {
    LeadingZerosIgnored(k, [DigitChar(d)]);
    SingleDigitParses(d);
  }

  /** "0005" parses to the same big integer as 5. */
  lemma LeadingZerosParse()
    ensures FromString("0005") == Some(FromUInt(5))
  {
    assert "0005" == ZeroChars(3) + [DigitChar(5)];
    ZeroPaddedDigit(3, 5);
  }

  /** 10 > 9 and 9 < 10: the longer canonical operand is the larger. */
  lemma TenAboveNine()
    ensures Greater(FromUInt(10), FromUInt(9))
    ensures Less(FromUInt(9), FromUInt(10))
  {
  }

  /** 5++ leaves 6 in the variable and yields 5; ++5 yields 6. */
  lemma IncrementFive()
    ensures PostIncrement(FromUInt(5)).variable == FromUInt(6)
    ensures PostIncrement(FromUInt(5)).returned == FromUInt(5)
    ensures PreIncrement(FromUInt(5)).returned == FromUInt(6)
  {
    Extensionality(PostIncrement(FromUInt(5)).variable, FromUInt(6));
    Extensionality(PreIncrement(FromUInt(5)).returned, FromUInt(6));
  }
}
