/** Concrete conversions between the predefined number systems, and the bases
    the constructor accepts and rejects. */
module ConverterScenarios {
  import opened Wrappers
  import opened Digits
  import opened NumberSystem
  import opened Converter

  /** A list of characters as the constructor receives it: no slot is null. */
  function Lift(b: seq<char>): (r: seq<Option<char>>)
    ensures None !in r && Unwrap(r) == b
  {
    var r := seq(|b|, i requires 0 <= i < |b| => Some(b[i]));
    assert forall i :: 0 <= i < |r| ==> r[i] != None;
    r
  }

  /** Any two predefined number systems make a valid converter. */
  lemma PredefinedBasesAccepted(x: seq<char>, y: seq<char>)
    requires x in [BIN, OCT, DEC, HEX, BASE_36] && y in [BIN, OCT, DEC, HEX, BASE_36]
    ensures FirstViolation(Lift(x), Lift(y)) == None
  {
    AllAreAlphabets();
  }

  /** A base of one digit, a null slot, a repeated digit, and a ' ' or '-' digit
      are each rejected, in whichever of the two positions they appear. */
  lemma InvalidBasesRejected()
    ensures FirstViolation([Some('1')], Lift(OCT)) == Some(TooFewDigits)
    ensures FirstViolation(Lift(HEX), [Some('1')]) == Some(TooFewDigits)
    ensures FirstViolation([Some('1'), None], Lift(OCT)) == Some(NullDigit)
    ensures FirstViolation(Lift(HEX), [Some('1'), None]) == Some(NullDigit)
    ensures FirstViolation(Lift("111"), Lift(OCT)) == Some(DuplicateDigit)
    ensures FirstViolation(Lift(HEX), Lift("222")) == Some(DuplicateDigit)
    ensures FirstViolation(Lift("- 2"), Lift(OCT)) == Some(ReservedDigit)
    ensures FirstViolation(Lift(HEX), Lift("- 2")) == Some(ReservedDigit)
  {
    AllAreAlphabets();
    assert [Some('1'), None][1] == None;
    assert "111"[0] == "111"[1];
    assert "222"[0] == "222"[1];
    assert Distinct("- 2");
    assert "- 2"[0] == '-';
  }

  /** The value of a two-digit string. */
  lemma TwoDigits(b: seq<char>, x: char, y: char)
    ensures Value(b, [x, y]) == IndexOf(b, x) * |b| + IndexOf(b, y)
  {
    assert [x, y] == [x] + [y] && [y][..0] == [];
    ValuePrepend(b, x, [y]);
    assert Pow(|b|, 1) == |b|;
  }

  /** "64" is made of HEX digits. */
  lemma HexSixtyFourDigits()
    ensures AllIn(HEX, "64")
  {
    assert "64"[0] == HEX[6] && "64"[1] == HEX[4];
  }

  /** The HEX digits "64" have the value 100. */
  lemma HexSixtyFour()
    ensures Value(HEX, "64") == 100
  {
    DigitValue(HEX, 6);
    DigitValue(HEX, 4);
    assert HEX[6] == '6' && HEX[4] == '4';
    TwoDigits(HEX, '6', '4');
    assert "64" == ['6', '4'];
  }

  /** HEX "64" is 100. */
  lemma HexToDecimalPositive()
    ensures Decimal(HEX, "64") == Success(100)
  {
    HexSixtyFourDigits();
    HexSixtyFour();
    assert StripSign("64") == "64";
  }

  /** The text "-64" is a '-' in front of "64", with no space between. Kept
      apart from the lemmas that use it, where the solver spends far longer
      on this equation of literals. */
  lemma MinusSixtyFour()
    ensures ['-'] + "" + "64" == "-64"
  {
  }

  /** HEX "-64" is -100. */
  lemma HexToDecimalNegative()
    ensures Decimal(HEX, "-64") == Success(-100)
  {
    HexToDecimalPositive();
    NegativeInput(HEX, "", "64");
    MinusSixtyFour();
  }

  /** HEX "64$" has an invalid digit. */
  lemma HexInvalidDigit()
    ensures Decimal(HEX, "64$").Failure?
    ensures Convert(HEX, OCT, "64$").Failure?
  {
    var s := "64$";
    assert StripSign(s) == s;
    assert s[2] == '$';
    assert '$' !in HEX by {
      AllAreAlphabets();
      assert forall k :: 0 <= k < |HEX| ==> HEX[k] != '$';
    }
  }

  /** 100 is written "144" in OCT. */
  lemma OctalHundred()
    ensures Encode(OCT, 100) == "144"
  {
    assert Encode(OCT, 1) == "1";
    assert Encode(OCT, 12) == "14";
  }

  /** HEX to OCT: "64" becomes "144". */
  lemma HexToOctPositive()
    ensures Convert(HEX, OCT, "64") == Success("144")
  {
    HexSixtyFourDigits();
    HexSixtyFour();
    OctalHundred();
    assert StripSign("64") == "64";
  }

  /** The '-' sign in front of "144". Kept apart from HexToOctNegative, where
      the solver spends far longer on this equation of literals. */
  lemma SignedOctal()
    ensures ['-'] + "144" == "-144"
  {
  }

  /** HEX to OCT: "-" followed by any run of spaces and "64" becomes "-144";
      the spaces after the sign are dropped. */
  lemma HexToOctNegative(pad: string)
    requires forall i :: 0 <= i < |pad| ==> pad[i] == ' '
    ensures Convert(HEX, OCT, ['-'] + pad + "64") == Success("-144")
  {
    HexToOctPositive();
    SpacedNegativeConvert(HEX, OCT, pad, "64", "144");
    SignedOctal();
  }

  /** DEC to the quinary digits "01234": "100" becomes "400". */
  lemma DecimalToQuinaryExample()
    ensures Convert(DEC, "01234", "100") == Success("400")
  {
    assert StripSign("100") == "100";
    assert "100"[..2] == "10" && "10"[..1] == "1";
    assert Value(DEC, "100") == 100;
    assert Encode("01234", 4) == "4";
    assert Encode("01234", 20) == "40";
    assert Encode("01234", 100) == "400";
  }

  /** Lower-case hexadecimal text is rejected; it has to be upper-cased first. */
  lemma LowerCaseRejected(t: string, k: nat)
    requires k < |t| && 'a' <= t[k] <= 'z'
    ensures Decimal(HEX, t).Failure? && Decimal(BASE_36, t).Failure?
    ensures Convert(HEX, BASE_36, t).Failure? && Convert(BASE_36, HEX, t).Failure?
  {
    NoLowerCaseDigits(t[k]);
    StripSignSpec(t);
    var r := StripSign(t);
    // The sign prefix holds only '-' and spaces, so the letter survives it.
    assert r[k - (|t| - |r|)] == t[k];
  }

  /** The reverse of a HEX to OCT converter equals a new OCT to HEX converter. */
  method ReversedHexToOct() returns (eq: bool)
    ensures eq
  {
    AllAreAlphabets();
    var c := new NumberSystemConverter(HEX, OCT);
    var r := c.GetReversedConverter();
    var expected := new NumberSystemConverter(OCT, HEX);
    eq := r.Equals(expected);
  }

  /** As written, asking a new converter for its reverse three times returns
      the same converter twice and then a different (though equal) one, since
      every call replaces the stored converter. */
  method ReversedConverterRebuilt(c: NumberSystemConverter) returns (r1: NumberSystemConverter, r2: NumberSystemConverter, r3: NumberSystemConverter)
    requires c.Valid() && c.reversedConverter == null
    modifies c
    ensures r1 == r2 && r2 != r3 && r2.Equals(r3)
  {
    r1 := c.GetReversedConverter();
    r2 := c.GetReversedConverter();
    r3 := c.GetReversedConverter();
  }

  /** Built lazily once, every call returns the same converter. */
  method ReversedConverterBuiltOnce(c: NumberSystemConverter) returns (r1: NumberSystemConverter, r2: NumberSystemConverter, r3: NumberSystemConverter)
    requires c.Valid()
    modifies c
    ensures r1 == r2 == r3
  {
    r1 := c.GetReversedConverterOnce();
    r2 := c.GetReversedConverterOnce();
    r3 := c.GetReversedConverterOnce();
  }
}
