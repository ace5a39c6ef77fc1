/**
 The formatting layer: decimal rendering of a big integer (`to_string`) and
 the constructor from a decimal string (leading-zero stripping, then
 chunking from the right into limbs).
 */
module Text {

  import opened Wrappers
  import opened Limbs
  import Conversions

  predicate IsDigit(c: char)
  {
    '0' <= c <= '9'
  }

  predicate AllDigits(s: string)
  {
    forall i | 0 <= i < |s| :: IsDigit(s[i])
  }

  function DigitValue(c: char): (d: nat)
    requires IsDigit(c)
    ensures d < Base
  {
    (c as int - '0' as int) as nat
  }

  function DigitChar(d: nat): (c: char)
    requires d < Base
    ensures IsDigit(c) && DigitValue(c) == d
  {
    ('0' as int + d) as char
  }

  /** The number a decimal digit string denotes (the empty string denotes 0). */
  function DecimalValue(s: string): nat
    requires AllDigits(s)
  {
    if |s| == 0 then 0 else DecimalValue(s[..|s| - 1]) * 10 + DigitValue(s[|s| - 1])
  }

  /** A run of k '0' characters. */
  function ZeroChars(k: nat): string
  {
    seq(k, _ => '0')
  }

  /**
   Decimal rendering of an unsigned number (`std::to_string`): the digits of
   n without leading zeros, and "0" for zero.
   */
  function DecimalString(n: nat): (r: string)
    ensures |r| >= 1 && AllDigits(r)
    ensures DecimalValue(r) == n
    ensures |r| == 1 || r[0] != '0'
    ensures n < Base ==> r == [DigitChar(n)]
  {
    if n < Base then [DigitChar(n)]
    else
      var high := DecimalString(n / Base);
      var r := high + [DigitChar(n % Base)];
      assert r[..|r| - 1] == high;
      r
  }

  /** Left-pads a rendered limb with '0' up to the given width. */
  function Pad(line: string, width: nat): (r: string)
    ensures |r| == if |line| < width then width else |line|
    ensures r[|r| - |line|..] == line
    ensures forall i | 0 <= i < |r| - |line| :: r[i] == '0'
  {
    if |line| < width then ZeroChars(width - |line|) + line else line
  }

  /** Renders the limbs below the top one, most significant first, each padded. */
  function RenderLower(s: seq<nat>, width: nat): (r: string)
    ensures AllDigits(r) && |r| >= |s|
  {
    if |s| == 0 then ""
    else
      var line := DecimalString(s[|s| - 1]);
      var padded := Pad(line, width);
      PadDigits(line, width);
      ConcatDigits(padded, RenderLower(s[..|s| - 1], width));
      padded + RenderLower(s[..|s| - 1], width)
  }

  /**
   Renders limbs most significant first: the top limb unpadded, the others
   padded. The result is all digits, at least one per limb, and it starts
   with a non-zero digit when the top limb is non-zero.
   */
  function Render(s: seq<nat>, width: nat): (r: string)
    ensures AllDigits(r) && |r| >= |s|
    ensures |s| >= 1 && s[|s| - 1] != 0 ==> r[0] != '0'
  {
    if |s| == 0 then ""
    else
      var top := DecimalString(s[|s| - 1]);
      ConcatDigits(top, RenderLower(s[..|s| - 1], width));
      assert s[|s| - 1] != 0 ==> top[0] != '0' by {
        if s[|s| - 1] != 0 && |top| == 1 {
          assert DecimalValue(top) == DigitValue(top[0]) by { assert top[..0] == []; }
        }
      }
      top + RenderLower(s[..|s| - 1], width)
  }

  /** Padding a digit string keeps it a digit string. */
  lemma PadDigits(line: string, width: nat)
    requires AllDigits(line)
    ensures AllDigits(Pad(line, width))
  {
    var padded := Pad(line, width);
    forall i | 0 <= i < |padded|
      ensures IsDigit(padded[i])
    {
      if i >= |padded| - |line| {
        assert padded[i] == line[i - (|padded| - |line|)];
      }
    }
  }

  /** Digit strings stay digit strings when joined. */
  lemma ConcatDigits(u: string, v: string)
    requires AllDigits(u) && AllDigits(v)
    ensures AllDigits(u + v)
  {
    assert forall i | |u| <= i < |u + v| :: (u + v)[i] == v[i - |u|];
  }

  /** A string is all digits exactly when both parts of a split are. */
  lemma SplitDigits(t: string, k: nat)
    requires k <= |t|
    ensures AllDigits(t) <==> AllDigits(t[..k]) && AllDigits(t[k..])
  {
    if AllDigits(t[..k]) && AllDigits(t[k..]) {
      assert t == t[..k] + t[k..];
      ConcatDigits(t[..k], t[k..]);
    }
  }

  /**
   The digit characters of in-range limbs, most significant first: the
   reference reading of a limb sequence as a decimal string.
   */
  function DigitChars(s: seq<nat>): (r: string)
    requires InRange(s)
    ensures |r| == |s| && AllDigits(r)
  {
    seq(|s|, k requires 0 <= k < |s| => DigitChar(s[|s| - 1 - k]))
  }

  /**
   The limbs of a digit string, least significant first: the reference
   reading of a decimal string as one-digit limbs.
   */
  function DigitLimbs(t: string): (r: seq<nat>)
    requires AllDigits(t)
    ensures |r| == |t| && InRange(r)
  {
    seq(|t|, j requires 0 <= j < |t| => DigitValue(t[|t| - 1 - j]))
  }

  /** `to_string`: the decimal rendering of the big integer. */
  function ToString(x: BigInt): (r: string)
    requires x.Valid()
    ensures r == DigitChars(x.limbs)
    ensures AllDigits(r) && |r| == |x.limbs|
    ensures DecimalValue(r) == x.Value()
    ensures |r| == 1 || r[0] != '0'
  {
    NumberOfZerosIsOne();
    RenderIsDigitChars(x.limbs);
    DigitCharsValue(x.limbs);
    Render(x.limbs, NumberOfZeros)
  }

  /**
   Removes the maximal leading run of '0' characters, as the replacement of
   the pattern `^0+` by the empty string does.
   */
  function StripLeadingZeros(s: string): (r: string)
    ensures |r| <= |s| && r == s[|s| - |r|..]
    ensures forall i | 0 <= i < |s| - |r| :: s[i] == '0'
    ensures |r| == 0 || r[0] != '0'
  {
    if |s| > 0 && s[0] == '0' then StripLeadingZeros(s[1..]) else s
  }

  /** The characters `isspace` accepts in the C locale: space, and '\t' through '\r'. */
  predicate IsSpace(c: char)
  {
    c == ' ' || '\t' <= c <= '\r'
  }

  /** The range of the 32-bit `int` that `std::stoi` returns. */
  const IntMin: int := -0x8000_0000
  const IntMax: int := 0x7FFF_FFFF

  /** Drops the leading whitespace of s. */
  function SkipSpace(s: string): (r: string)
    ensures |r| <= |s| && r == s[|s| - |r|..]
    ensures forall i | 0 <= i < |s| - |r| :: IsSpace(s[i])
    ensures |r| == 0 || !IsSpace(r[0])
  {
    if |s| > 0 && IsSpace(s[0]) then SkipSpace(s[1..]) else s
  }

  /** The longest prefix of s made of decimal digits. */
  function DigitPrefix(s: string): (r: string)
    ensures |r| <= |s| && r == s[..|r|] && AllDigits(r)
    ensures |r| == |s| || !IsDigit(s[|r|])
  {
    if |s| > 0 && IsDigit(s[0]) then
      var rest := DigitPrefix(s[1..]);
      var r := [s[0]] + rest;
      assert forall i | 1 <= i < |r| :: r[i] == rest[i - 1];
      assert s[..|r|] == [s[0]] + s[1..][..|rest|];
      assert |r| < |s| ==> s[|r|] == s[1..][|rest|];
      r
    else ""
  }

  /**
   `std::stoi` in base 10: skip leading whitespace, read an optional '+' or
   '-' and then the longest run of digits; characters after the run are
   ignored. No digit after the sign throws `invalid_argument` and a value
   outside `int` throws `out_of_range`; both are None here.
   */
  function Stoi(s: string): (r: Option<int>)
    ensures r.Some? ==> IntMin <= r.value <= IntMax
  {
    var t := SkipSpace(s);
    var signed := |t| > 0 && (t[0] == '+' || t[0] == '-');
    var digits := DigitPrefix(if signed then t[1..] else t);
    if |digits| == 0 then None
    else
      var magnitude: int := DecimalValue(digits);
      var v: int := if signed && t[0] == '-' then 0 - magnitude else magnitude;
      if IntMin <= v <= IntMax then Some(v) else None
  }

  /** On a non-empty digit string whose value fits in an `int`, `std::stoi` yields that value. */
  lemma StoiOfDigits(s: string)
    requires |s| > 0 && AllDigits(s) && DecimalValue(s) <= IntMax
    ensures Stoi(s) == Some(DecimalValue(s) as int)
  {
    assert IsDigit(s[0]);
    assert SkipSpace(s) == s;
    AllDigitsPrefix(s);
    StoiUnsigned(s, DecimalValue(s));
  }

  /** Without whitespace or a sign in front, `std::stoi` reads the leading digit run. */
  lemma StoiUnsigned(s: string, m: nat)
    requires |s| > 0 && SkipSpace(s) == s && s[0] != '+' && s[0] != '-'
    requires |DigitPrefix(s)| > 0 && AllDigits(DigitPrefix(s)) && DecimalValue(DigitPrefix(s)) == m
    requires m <= IntMax
    ensures Stoi(s) == Some(m as int)
  {
  }

  /** On a digit string the digit prefix is the whole string. */
  lemma {:induction false} AllDigitsPrefix(s: string)
    requires AllDigits(s)
    ensures DigitPrefix(s) == s
  {
    if |s| > 0 {
      assert AllDigits(s[1..]);
      AllDigitsPrefix(s[1..]);
    }
  }

  /**
   `std::stoi` on a one-character string succeeds exactly on a digit, and
   then yields that digit's value: whitespace alone, a sign alone and any
   other character all throw.
   */
  lemma StoiOneCharacter(c: char)
    ensures Stoi([c]).Some? <==> IsDigit(c)
    ensures IsDigit(c) ==> Stoi([c]) == Some(DigitValue(c))
  {
    var s := [c];
    if IsDigit(c) {
      assert AllDigits(s);
      assert DecimalValue(s) == DecimalValue(s[..0]) * 10 + DigitValue(c);
      StoiOfDigits(s);
    } else if IsSpace(c) {
      assert SkipSpace(s) == SkipSpace(s[1..]);
      assert s[1..] == "";
    } else {
      var t := SkipSpace(s);
      assert t == s;
      if c == '+' || c == '-' {
        assert t[1..] == "";
        assert DigitPrefix(t[1..]) == "";
      } else {
        assert DigitPrefix(t) == "";
      }
    }
  }

  /**
   The conversion of the `int` that `std::stoi` returns to the `unsigned int`
   a limb is stored as: its value modulo 2^32.
   */
  function ToUnsigned(v: int): (r: nat)
    ensures r < Conversions.UIntModulus
    ensures 0 <= v < Conversions.UIntModulus ==> r == v
  {
    v % Conversions.UIntModulus
  }

  /**
   The chunking loop of the string constructor: walks i down from the end
   of the line in steps of `width`, parsing line[i-width..i] into the next
   limb; a last chunk shorter than `width` is parsed from the line's start.
   */
  function Chunks(line: string, i: nat, width: nat): (r: Option<seq<nat>>)
    requires i <= |line| && width >= 1
    ensures r.Some? && i > 0 ==> 1 <= |r.value| <= i
    ensures width == 1 ==> (r.Some? <==> AllDigits(line[..i]))
    decreases i
  {
    if i == 0 then Some([])
    else if i < width then
      match Stoi(line[..i])
      case None => None
      case Some(v) => Some([ToUnsigned(v)])
    else
      assert width == 1 ==>
               && (Stoi(line[i - width..i]).Some? <==> IsDigit(line[i - 1]))
               && (AllDigits(line[..i]) <==> AllDigits(line[..i - width]) && IsDigit(line[i - 1])) by {
        if width == 1 {
          OneCharacterChunk(line, i);
          AllDigitsSnoc(line, i);
        }
      }
      match Stoi(line[i - width..i])
      case None => None
      case Some(v) =>
        match Chunks(line, i - width, width)
        case None => None
        case Some(rest) => Some([ToUnsigned(v)] + rest)
  }

  /**
   One step of the chunking loop at width 1: the chunk is the single
   character line[i-1], which `std::stoi` accepts exactly when it is a digit.
   */
  lemma OneCharacterChunk(line: string, i: nat)
    requires 1 <= i <= |line|
    ensures Stoi(line[i - 1..i]).Some? <==> IsDigit(line[i - 1])
    ensures IsDigit(line[i - 1]) ==> Stoi(line[i - 1..i]) == Some(DigitValue(line[i - 1]) as int)
  {
    var c := line[i - 1];
    assert line[i - 1..i] == [c];
    StoiOneCharacter(c);
  }

  /** A prefix one character longer is all digits iff the shorter one is and that character is. */
  lemma AllDigitsSnoc(line: string, i: nat)
    requires 1 <= i <= |line|
    ensures AllDigits(line[..i]) <==> AllDigits(line[..i - 1]) && IsDigit(line[i - 1])
  {
    SplitDigits(line[..i], i - 1);
    assert line[..i][..i - 1] == line[..i - 1];
    assert line[..i][i - 1..] == [line[i - 1]];
  }

  /**
   The line the constructor chunks: the string with its leading zeros
   stripped, or "0" when nothing is left.
   */
  function ParsedLine(s: string): (line: string)
    ensures |line| >= 1 && (|line| == 1 || line[0] != '0')
    ensures AllDigits(line) <==> AllDigits(s)
    ensures AllDigits(s) ==> DecimalValue(line) == DecimalValue(s)
    ensures |s| >= 1 && (|s| == 1 || s[0] != '0') ==> line == s
  {
    var stripped := StripLeadingZeros(s);
    StrippedDigits(s);
    StripKeepsValue(s);
    if |stripped| == 0 then "0" else stripped
  }

  /**
   The constructor from a decimal string: strip leading zeros, read an
   empty remainder as "0", then chunk from the right. It fails exactly when
   the string holds a character that is not a decimal digit; otherwise the
   limbs are the digits of the stripped line, least significant first.
   */
  function FromString(s: string): (r: Option<BigInt>)
    ensures r.Some? <==> AllDigits(s)
    ensures r.Some? ==> r.value.Valid() && r.value.Value() == DecimalValue(s)
    ensures r.Some? ==> r.value.limbs == DigitLimbs(ParsedLine(s))
  {
    var line := ParsedLine(s);
    NumberOfZerosIsOne();
    ChunksAreDigitLimbs(line, |line|);
    assert line[..|line|] == line;
    DigitLimbsFacts(line);
    match Chunks(line, |line|, NumberOfZeros)
    case None => None
    case Some(limbs) => Some(BigInt(limbs))
  }

  // ---------------------------------------------------------------------
  // Lemmas linking the loops to the reference readings
  // ---------------------------------------------------------------------

  /** With one-digit limbs the padded rendering of the lower limbs is their digits. */
  lemma {:induction false} RenderLowerIsDigitChars(s: seq<nat>)
    requires InRange(s)
    ensures RenderLower(s, 1) == DigitChars(s)
  {
    if |s| > 0 {
      var init := s[..|s| - 1];
      var top := s[|s| - 1];
      RenderLowerIsDigitChars(init);
      assert RenderLower(s, 1) == [DigitChar(top)] + RenderLower(init, 1) by {
        assert Pad(DecimalString(top), 1) == [DigitChar(top)];
      }
      DigitCharsTop(s);
    }
  }

  /** With one-digit limbs the rendering is the digit characters, top first. */
  lemma RenderIsDigitChars(s: seq<nat>)
    requires InRange(s)
    ensures Render(s, 1) == DigitChars(s)
  {
    if |s| > 0 {
      var init := s[..|s| - 1];
      assert Render(s, 1) == [DigitChar(s[|s| - 1])] + RenderLower(init, 1);
      RenderLowerIsDigitChars(init);
      DigitCharsTop(s);
    }
  }

  /** The digit characters of a non-empty limb sequence start with its top limb's digit. */
  lemma DigitCharsTop(s: seq<nat>)
    requires InRange(s) && |s| > 0
    ensures DigitChars(s) == [DigitChar(s[|s| - 1])] + DigitChars(s[..|s| - 1])
  {
  }

  /**
   With one-digit chunks the chunking loop yields the reference limbs of
   the line's first i characters, and fails exactly on a non-digit.
   */
  lemma ChunksAreDigitLimbs(line: string, i: nat)
    requires i <= |line|
    ensures AllDigits(line[..i]) ==> Chunks(line, i, 1) == Some(DigitLimbs(line[..i]))
    ensures !AllDigits(line[..i]) ==> Chunks(line, i, 1) == None
  {
    if AllDigits(line[..i]) {
      ChunksOfDigits(line, i);
    }
  }

  /** The success half of `ChunksAreDigitLimbs`, by induction on i. */
  lemma {:induction false} ChunksOfDigits(line: string, i: nat)
    requires i <= |line| && AllDigits(line[..i])
    ensures Chunks(line, i, 1) == Some(DigitLimbs(line[..i]))
    decreases i
  {
    if i == 0 {
      assert DigitLimbs(line[..0]) == [];
    } else {
      var d := DigitValue(line[i - 1]);
      DigitLimbsSnoc(line, i);
      OneCharacterChunk(line, i);
      ChunksOfDigits(line, i - 1);
      assert ToUnsigned(d) == d;
      assert Chunks(line, i, 1) == Some([ToUnsigned(d)] + DigitLimbs(line[..i - 1]));
    }
  }

  /** The reference limbs of a one-longer prefix put that character's digit in front. */
  lemma DigitLimbsSnoc(line: string, i: nat)
    requires 1 <= i <= |line| && AllDigits(line[..i])
    ensures AllDigits(line[..i - 1]) && IsDigit(line[i - 1])
    ensures DigitLimbs(line[..i]) == [DigitValue(line[i - 1])] + DigitLimbs(line[..i - 1])
  {
    AllDigitsSnoc(line, i);
    var t := line[..i];
    assert t[..i - 1] == line[..i - 1];
    assert DigitLimbs(t) == [DigitValue(t[i - 1])] + DigitLimbs(t[..i - 1]);
  }

  /** The reference limbs of a digit string denote its decimal value. */
  lemma {:induction false} DigitLimbsValue(t: string)
    requires AllDigits(t)
    ensures LimbsValue(DigitLimbs(t)) == DecimalValue(t)
  {
    if |t| > 0 {
      var init := t[..|t| - 1];
      DigitLimbsValue(init);
      assert DigitLimbs(t)[1..] == DigitLimbs(init);
    }
  }

  /** The reference limbs of a line without a leading zero are canonical and denote its value. */
  lemma DigitLimbsFacts(t: string)
    requires |t| >= 1 && (|t| == 1 || t[0] != '0')
    ensures AllDigits(t) ==> Canonical(DigitLimbs(t)) && LimbsValue(DigitLimbs(t)) == DecimalValue(t)
  {
    if AllDigits(t) {
      DigitLimbsValue(t);
      assert DigitLimbs(t)[|t| - 1] == DigitValue(t[0]);
    }
  }

  /** The digit characters and the digit limbs are inverse readings. */
  lemma DigitLimbsOfDigitChars(s: seq<nat>)
    requires InRange(s)
    ensures DigitLimbs(DigitChars(s)) == s
  {
    var t := DigitChars(s);
    forall j | 0 <= j < |s|
      ensures DigitLimbs(t)[j] == s[j]
    {
      assert t[|t| - 1 - j] == DigitChar(s[j]);
    }
  }

  lemma DigitCharsOfDigitLimbs(t: string)
    requires AllDigits(t)
    ensures DigitChars(DigitLimbs(t)) == t
  {
    var s := DigitLimbs(t);
    forall k | 0 <= k < |t|
      ensures DigitChars(s)[k] == t[k]
    {
      var j := |s| - 1 - k;
      assert s[j] == DigitValue(t[|t| - 1 - j]);
      assert DigitChars(s)[k] == DigitChar(s[j]);
    }
  }

  /** The digit characters of limbs denote the limbs' value. */
  lemma DigitCharsValue(s: seq<nat>)
    requires InRange(s)
    ensures DecimalValue(DigitChars(s)) == LimbsValue(s)
  {
    DigitLimbsOfDigitChars(s);
    DigitLimbsValue(DigitChars(s));
  }

  /** A leading '0' does not change the decimal value. */
  lemma {:induction false} LeadingZeroValue(t: string)
    requires AllDigits(t)
    ensures AllDigits(['0'] + t) && DecimalValue(['0'] + t) == DecimalValue(t)
    decreases |t|
  {
    if |t| > 0 {
      var u := ['0'] + t;
      assert u[..|u| - 1] == ['0'] + t[..|t| - 1];
      LeadingZeroValue(t[..|t| - 1]);
    }
  }

  /** Stripping leading zeros keeps the decimal value. */
  lemma {:induction false} StripKeepsValue(s: string)
    ensures AllDigits(s) ==> AllDigits(StripLeadingZeros(s))
    ensures AllDigits(s) ==> DecimalValue(StripLeadingZeros(s)) == DecimalValue(s)
  {
    if AllDigits(s) && |s| > 0 && s[0] == '0' {
      StripKeepsValue(s[1..]);
      assert s == ['0'] + s[1..];
      LeadingZeroValue(s[1..]);
    }
  }

  /** The stripped line consists of digits exactly when the whole string does. */
  lemma StrippedDigits(s: string)
    ensures AllDigits(StripLeadingZeros(s)) <==> AllDigits(s)
  {
    var r := StripLeadingZeros(s);
    var k := |s| - |r|;
    SplitDigits(s, k);
    assert s[k..] == r;
    assert AllDigits(s[..k]) by {
      forall i | 0 <= i < k
        ensures IsDigit(s[..k][i])
      {
        assert s[..k][i] == s[i] == '0';
      }
    }
  }

  // ---------------------------------------------------------------------
  // Round trips and the leading-zero property
  // ---------------------------------------------------------------------

  /** Parsing the rendering of a big integer gives it back. */
  lemma ParseRender(x: BigInt)
    requires x.Valid()
    ensures FromString(ToString(x)) == Some(x)
  {
    DigitLimbsOfDigitChars(x.limbs);
  }

  /** Rendering the parse of a digit string without leading zeros (or of "0") gives it back. */
  lemma RenderParse(s: string)
    requires AllDigits(s) && |s| >= 1
    requires |s| == 1 || s[0] != '0'
    ensures FromString(s).Some?
    ensures ToString(FromString(s).value) == s
  {
    DigitCharsOfDigitLimbs(s);
  }

  /** Leading zeros are ignored: prefixing k zeros does not change the parse. */
  lemma {:induction false} LeadingZerosIgnored(k: nat, s: string)
    ensures FromString(ZeroChars(k) + s) == FromString(s)
  {
    StripAfterZeros(k, s);
  }

  /** Stripping removes any run of '0' characters put in front. */
  lemma {:induction false} StripAfterZeros(k: nat, s: string)
    ensures StripLeadingZeros(ZeroChars(k) + s) == StripLeadingZeros(s)
  {
    if k > 0 {
      var rest := ZeroChars(k - 1) + s;
      assert ZeroChars(k) + s == ['0'] + rest by {
        assert ZeroChars(k) == ['0'] + ZeroChars(k - 1);
      }
      assert (['0'] + rest)[1..] == rest;
      StripAfterZeros(k - 1, s);
    } else {
      assert ZeroChars(k) + s == s;
    }
  }
}
