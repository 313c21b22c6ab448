/**
 * A converter from numbers written in one user-defined digit alphabet (base 1)
 * to the same numbers written in another (base 2). Numbers are signed integers
 * of unbounded size; a number is negative when its text starts with '-',
 * optionally followed by spaces.
 */
module Converter {
  import opened Wrappers
  import opened Digits

  /** Why the constructor rejects a pair of bases. The source throws the same
      exception for all four and tells them apart by its message. */
  datatype BaseError = TooFewDigits | NullDigit | DuplicateDigit | ReservedDigit

  /** Why a conversion rejects its input text. */
  datatype ConversionError = InvalidDigit

  // ---------------------------------------------------------------------------
  // Bases as the caller supplies them: lists whose slots may be null.
  // ---------------------------------------------------------------------------

  /** The characters of a list that has no null slot. */
  function Unwrap(b: seq<Option<char>>): (r: seq<char>)
    requires None !in b
    ensures |r| == |b| && forall i :: 0 <= i < |b| ==> b[i] == Some(r[i])
  {
    assert forall i :: 0 <= i < |b| ==> b[i] in b && b[i].Some?;
    var r := seq(|b|, i requires 0 <= i < |b| => b[i].value);
    assert forall i :: 0 <= i < |b| ==> r[i] == b[i].value;
    r
  }

  /** A supplied base the constructor accepts. */
  predicate ValidBase(b: seq<Option<char>>) {
    None !in b && IsAlphabet(Unwrap(b))
  }

  /** The first of the constructor's checks that a pair of bases fails, in the
      order the constructor makes them, or None when both bases pass. */
  function FirstViolation(b1: seq<Option<char>>, b2: seq<Option<char>>): (r: Option<BaseError>)
    ensures r == None <==> ValidBase(b1) && ValidBase(b2)
  {
    if !(|b1| >= 2 && |b2| >= 2) then Some(TooFewDigits)
    else if None in b1 || None in b2 then Some(NullDigit)
    else if !(Distinct(Unwrap(b1)) && Distinct(Unwrap(b2))) then Some(DuplicateDigit)
    else if ' ' in Unwrap(b1) || '-' in Unwrap(b1) || ' ' in Unwrap(b2) || '-' in Unwrap(b2) then Some(ReservedDigit)
    else None
  }

  /** The set of a list's elements, added in list order as a LinkedHashSet is
      filled. */
  function Elements(ds: seq<char>): (r: set<char>)
    ensures forall c :: c in r <==> c in ds
  {
    if ds == [] then {} else Elements(ds[..|ds| - 1]) + {ds[|ds| - 1]}
  }

  /** Collecting a list into a set keeps its size exactly when the list has no
      duplicates, which is how the constructor detects duplicate digits. */
  lemma {:induction false} ElementsCountDistinct(ds: seq<char>)
    ensures |Elements(ds)| <= |ds|
    ensures |Elements(ds)| == |ds| <==> Distinct(ds)
    decreases |ds|
  {
    if ds != [] {
      var p, c := ds[..|ds| - 1], ds[|ds| - 1];
      ElementsCountDistinct(p);
      assert ds == p + [c];
      DistinctSnoc(p, c);
      assert Elements(ds) == Elements(p) + {c};
      if c in p {
        assert Elements(ds) == Elements(p);
      } else {
        assert |Elements(ds)| == |Elements(p)| + 1;
      }
    }
  }

  /** A list extended by one element has no duplicates exactly when the list
      has none and does not hold that element. */
  lemma DistinctSnoc(p: seq<char>, c: char)
    ensures Distinct(p + [c]) <==> Distinct(p) && c !in p
  {
    var ds := p + [c];
    if c in p {
      var k :| 0 <= k < |p| && p[k] == c;
      assert ds[k] == ds[|p|];
    }
    if Distinct(ds) {
      forall i, j | 0 <= i < j < |p| ensures p[i] != p[j] {
        assert ds[i] == p[i] && ds[j] == p[j];
      }
    }
    if Distinct(p) && c !in p {
      forall i, j | 0 <= i < j < |ds| ensures ds[i] != ds[j] {
        if j < |p| {
          assert ds[i] == p[i] && ds[j] == p[j];
        } else {
          assert ds[i] == p[i];
        }
      }
    }
  }

  // ---------------------------------------------------------------------------
  // Reading the sign prefix, and the value of a number text.
  // ---------------------------------------------------------------------------

  /** The text after its leading spaces. */
  function DropSpaces(s: string): (r: string)
    ensures |r| <= |s|
  {
    if |s| > 0 && s[0] == ' ' then DropSpaces(s[1..]) else s
  }

  /** What DropSpaces removes is a run of spaces at the front, and it removes
      the whole run. */
  lemma {:induction false} DropSpacesSpec(s: string)
    ensures var r := DropSpaces(s);
      r == s[|s| - |r|..] &&
      (forall i :: 0 <= i < |s| - |r| ==> s[i] == ' ') &&
      (|r| > 0 ==> r[0] != ' ')
    decreases |s|
  {
    if |s| > 0 && s[0] == ' ' {
      var t := s[1..];
      DropSpacesSpec(t);
      var r := DropSpaces(t);
      assert t[|t| - |r|..] == s[|s| - |r|..];
      forall i | 0 <= i < |s| - |r| ensures s[i] == ' ' {
        if i > 0 { assert s[i] == t[i - 1]; }
      }
    }
  }

  /** The text with the prefix matched by the regular expression "^- *" removed:
      one leading '-' and every space right after it. A text that does not start
      with '-' is left as it is; the text is negative exactly when it shrinks. */
  function StripSign(s: string): (r: string)
    ensures |r| <= |s|
    ensures |r| < |s| <==> |s| > 0 && s[0] == '-'
  {
    if |s| > 0 && s[0] == '-' then DropSpaces(s[1..]) else s
  }

  /** StripSign removes exactly a '-' and the run of spaces after it, when the
      text starts with '-', and nothing otherwise. */
  lemma StripSignSpec(s: string)
    ensures var r := StripSign(s);
      r == s[|s| - |r|..] &&
      (|r| < |s| ==> (forall i :: 1 <= i < |s| - |r| ==> s[i] == ' ') && (|r| > 0 ==> r[0] != ' '))
  {
    if |s| > 0 && s[0] == '-' {
      DropSpacesSpec(s[1..]);
      var r := StripSign(s);
      assert s[1..][|s| - 1 - |r|..] == s[|s| - |r|..];
      forall i | 1 <= i < |s| - |r| ensures s[i] == ' ' {
        assert s[i] == s[1..][i - 1];
      }
    }
  }

  /** The text carries the sign prefix. */
  predicate IsNegative(s: string) {
    |StripSign(s)| < |s|
  }

  /** The signed value of a text in base b: the positional value of the digits
      after the sign prefix, negated when there was a sign prefix; an error when
      one of those characters is not a digit of b. */
  function Decimal(b: seq<char>, s: string): Result<int, ConversionError> {
    var input := StripSign(s);
    if !AllIn(b, input) then Failure(InvalidDigit)
    else if IsNegative(s) then Success(-Value(b, input))
    else Success(Value(b, input))
  }

  /** The text of s re-written in base b2: a '-' when s carries the sign prefix,
      then the canonical base-b2 digits of the magnitude of s read in base b1. */
  function Convert(b1: seq<char>, b2: seq<char>, s: string): Result<string, ConversionError>
    requires |b2| >= 2
  {
    var input := StripSign(s);
    if !AllIn(b1, input) then Failure(InvalidDigit)
    else
      var digits := Encode(b2, Value(b1, input));
      Success(if IsNegative(s) then ['-'] + digits else digits)
  }

  /** The digits of a converted text, without its optional '-'. */
  function Unsigned(s: string): string {
    if |s| > 0 && s[0] == '-' then s[1..] else s
  }

  /** The absolute value. */
  function Abs(x: int): nat {
    if x < 0 then -x else x
  }

  // ---------------------------------------------------------------------------
  // Properties of the sign prefix and of Decimal.
  // ---------------------------------------------------------------------------

  /** The digits of a text are left alone by StripSign when none of them is a
      '-', so stripping a stripped valid text again changes nothing. */
  lemma StripSignOfDigits(b: seq<char>, t: string)
    requires '-' !in b && AllIn(b, t)
    ensures StripSign(t) == t
  {
    if |t| > 0 {
      assert t[0] in b;
    }
  }

  /** A '-' followed by any run of spaces negates the value of the digits that
      follow. */
  lemma NegativeInput(b: seq<char>, pad: string, t: string)
    requires forall i :: 0 <= i < |pad| ==> pad[i] == ' '
    requires t == [] || (t[0] != ' ' && t[0] != '-')
    ensures Decimal(b, ['-'] + pad + t).Success? <==> Decimal(b, t).Success?
    ensures Decimal(b, t).Success? ==> Decimal(b, ['-'] + pad + t).value == -Decimal(b, t).value
  {
    var s := ['-'] + pad + t;
    assert s[1..] == pad + t;
    DropSpacesPrefix(pad, t);
    assert StripSign(s) == t;
    assert IsNegative(s);
    assert StripSign(t) == t && !IsNegative(t);
  }

  /** A text with the sign prefix converts to a '-' in front of the conversion
      of the digits after the prefix (unless those start with a second '-'). */
  lemma NegativeConvert(b1: seq<char>, b2: seq<char>, s: string)
    requires |b2| >= 2 && IsNegative(s)
    requires StripSign(s) == [] || StripSign(s)[0] != '-'
    ensures Convert(b1, b2, s).Success? <==> Convert(b1, b2, StripSign(s)).Success?
    ensures Convert(b1, b2, s).Success? ==>
              Convert(b1, b2, s).value == ['-'] + Convert(b1, b2, StripSign(s)).value
  {
    var t := StripSign(s);
    StripSignSpec(s);
    assert StripSign(t) == t;
  }

  /** A '-' followed by any run of spaces in front of a text that converts to
      out converts to '-' followed by out. */
  lemma SpacedNegativeConvert(b1: seq<char>, b2: seq<char>, pad: string, t: string, out: string)
    requires |b2| >= 2 && forall i :: 0 <= i < |pad| ==> pad[i] == ' '
    requires t == [] || (t[0] != ' ' && t[0] != '-')
    requires Convert(b1, b2, t) == Success(out)
    ensures Convert(b1, b2, ['-'] + pad + t) == Success(['-'] + out)
  {
    var s := ['-'] + pad + t;
    assert s[0] == '-' && s[1..] == pad + t;
    DropSpacesPrefix(pad, t);
    NegativeConvert(b1, b2, s);
  }

  /** Dropping leading spaces from a run of spaces followed by text that does
      not start with a space leaves exactly that text. */
  lemma {:induction false} DropSpacesPrefix(pad: string, t: string)
    requires forall i :: 0 <= i < |pad| ==> pad[i] == ' '
    requires t == [] || t[0] != ' '
    ensures DropSpaces(pad + t) == t
    decreases |pad|
  {
    if pad == [] {
      assert pad + t == t;
    } else {
      assert (pad + t)[0] == ' ';
      assert (pad + t)[1..] == pad[1..] + t;
      DropSpacesPrefix(pad[1..], t);
    }
  }

  /** Only a single leading '-' and the spaces after it are stripped: a second
      '-' or a leading space is an invalid digit. */
  lemma OnlyOneSignStripped(b: seq<char>, t: string)
    requires IsAlphabet(b)
    ensures Decimal(b, ['-', '-'] + t).Failure?
    ensures Decimal(b, [' '] + t).Failure?
  {
    var s := ['-', '-'] + t;
    assert s[1..] == ['-'] + t;
    assert StripSign(s)[0] == '-';
    assert StripSign([' '] + t)[0] == ' ';
  }

  /** The sign of the result follows the sign prefix alone. */
  lemma DecimalSign(b: seq<char>, s: string)
    requires Decimal(b, s).Success?
    ensures IsNegative(s) <==> |s| > 0 && s[0] == '-'
    ensures IsNegative(s) ==> Decimal(b, s).value <= 0
    ensures !IsNegative(s) ==> Decimal(b, s).value >= 0
    ensures Abs(Decimal(b, s).value) == Value(b, StripSign(s))
  {
  }

  // ---------------------------------------------------------------------------
  // Properties of Convert.
  // ---------------------------------------------------------------------------

  /** Converting preserves the value: the emitted digits read in base b2 give
      the magnitude Decimal computes in base b1, and the conversion fails exactly
      when Decimal does. */
  lemma ConvertPreservesValue(b1: seq<char>, b2: seq<char>, s: string)
    requires IsAlphabet(b2)
    ensures Convert(b1, b2, s).Success? <==> Decimal(b1, s).Success?
    ensures Convert(b1, b2, s).Success? ==>
              Value(b2, Unsigned(Convert(b1, b2, s).value)) == Abs(Decimal(b1, s).value)
  {
    var input := StripSign(s);
    if AllIn(b1, input) {
      var digits := Encode(b2, Value(b1, input));
      EncodeValue(b2, Value(b1, input));
      EncodeCanonical(b2, Value(b1, input));
      assert digits[0] in b2;
      assert Unsigned(Convert(b1, b2, s).value) == digits;
    }
  }

  /** Reading a converted text back in base b2 gives the signed value the
      input has in base b1. */
  lemma ConvertDecodes(b1: seq<char>, b2: seq<char>, s: string)
    requires IsAlphabet(b2) && Convert(b1, b2, s).Success?
    ensures Decimal(b2, Convert(b1, b2, s).value) == Decimal(b1, s)
  {
    var n := Value(b1, StripSign(s));
    EncodeCanonical(b2, n);
    EncodeValue(b2, n);
    StripConverted(b2, IsNegative(s), Encode(b2, n));
  }

  /** The shape of a converted text: non-empty; a leading '-' exactly when the
      input had the sign prefix (even for zero); then the canonical digits of
      base b2, which are the single zero digit b2[0] exactly when the value is 0. */
  lemma ConvertShape(b1: seq<char>, b2: seq<char>, s: string)
    requires IsAlphabet(b2) && Convert(b1, b2, s).Success?
    ensures var out := Convert(b1, b2, s).value;
      |out| >= 1 &&
      (out[0] == '-' <==> |s| > 0 && s[0] == '-') &&
      Canonical(b2, Unsigned(out)) &&
      (Unsigned(out) == [b2[0]] <==> Decimal(b1, s).value == 0)
  {
    var input := StripSign(s);
    var n := Value(b1, input);
    var digits := Encode(b2, n);
    EncodeCanonical(b2, n);
    assert digits[0] in b2;
    var out := Convert(b1, b2, s).value;
    assert Unsigned(out) == digits;
  }

  /** The sign prefix and digits of a converted text are recognised again when
      it is read back in base b2. */
  lemma {:induction false} StripConverted(b2: seq<char>, neg: bool, digits: string)
    requires IsAlphabet(b2) && Canonical(b2, digits)
    ensures var out := if neg then ['-'] + digits else digits;
      StripSign(out) == digits && (IsNegative(out) <==> neg)
  {
    assert digits[0] in b2;
    if neg {
      var out := ['-'] + digits;
      assert out[1..] == digits;
      DropSpacesPrefix([], digits);
      assert [] + digits == digits;
    }
  }

  /** Converting to base b2 and back to base b1 gives the normal form of the
      input in base b1: the same sign and canonical digits of the same value. */
  lemma ConvertRoundTrip(b1: seq<char>, b2: seq<char>, s: string)
    requires IsAlphabet(b1) && IsAlphabet(b2) && Convert(b1, b2, s).Success?
    ensures Convert(b2, b1, Convert(b1, b2, s).value) == Convert(b1, b1, s)
  {
    var input := StripSign(s);
    var n := Value(b1, input);
    var digits := Encode(b2, n);
    EncodeCanonical(b2, n);
    EncodeValue(b2, n);
    StripConverted(b2, IsNegative(s), digits);
  }

  /** A text that is already in normal form converts to itself. */
  lemma NormalFormFixed(b: seq<char>, neg: bool, digits: string)
    requires IsAlphabet(b) && Canonical(b, digits)
    ensures var s := if neg then ['-'] + digits else digits;
      Convert(b, b, s) == Success(s)
  {
    StripConverted(b, neg, digits);
    CanonicalEncode(b, digits);
  }

  /** Converting a normal-form text to base b2 and converting the result back
      restores the text exactly. */
  lemma ReverseRestores(b1: seq<char>, b2: seq<char>, neg: bool, digits: string)
    requires IsAlphabet(b1) && IsAlphabet(b2) && Canonical(b1, digits)
    ensures var s := if neg then ['-'] + digits else digits;
      Convert(b1, b2, s).Success? &&
      Convert(b2, b1, Convert(b1, b2, s).value) == Success(s)
  {
    var s := if neg then ['-'] + digits else digits;
    StripConverted(b1, neg, digits);
    ConvertRoundTrip(b1, b2, s);
    NormalFormFixed(b1, neg, digits);
  }

  // ---------------------------------------------------------------------------
  // The converter object.
  // ---------------------------------------------------------------------------

  class NumberSystemConverter {
    /** The digits of the input number system; index = digit value. */
    const base1: seq<char>
    /** The digits of the output number system; index = digit value. */
    const base2: seq<char>
    /** The converter last built by GetReversedConverter, if any. */
    var reversedConverter: NumberSystemConverter?

    /** Both bases passed the constructor's checks. */
    predicate ValidBases() {
      IsAlphabet(base1) && IsAlphabet(base2)
    }

    /** The object invariant: valid bases, and a stored reversed converter has
        them swapped. */
    ghost predicate Valid()
      reads this
    {
      ValidBases() &&
      (reversedConverter != null ==> reversedConverter.base1 == base2 && reversedConverter.base2 == base1)
    }

    /** Stores the (already checked) bases. */
    constructor (base1: seq<char>, base2: seq<char>)
      requires IsAlphabet(base1) && IsAlphabet(base2)
      ensures this.base1 == base1 && this.base2 == base2
      ensures reversedConverter == null && Valid()
    {
      this.base1 := base1;
      this.base2 := base2;
      reversedConverter := null;
    }

    /** The constructor's argument checks, in the order it makes them: the
        sizes, null slots, duplicates (a set of the digits smaller than the
        list), then ' ' or '-' (removing them from that set changes it). */
    static method CheckBases(base1: seq<Option<char>>, base2: seq<Option<char>>) returns (err: Option<BaseError>)
      ensures err == FirstViolation(base1, base2)
    {
      if !(|base1| >= 2 && |base2| >= 2) {
        return Some(TooFewDigits);
      }
      if None in base1 || None in base2 {
        return Some(NullDigit);
      }
      var digits1, digits2 := Unwrap(base1), Unwrap(base2);
      var set1, set2 := Elements(digits1), Elements(digits2);
      ElementsCountDistinct(digits1);
      ElementsCountDistinct(digits2);
      if !(|base1| == |set1| && |base2| == |set2|) {
        return Some(DuplicateDigit);
      }
      // Removing ' ' and '-' from each set changes it when it held either.
      var changed1 := ' ' in set1 || '-' in set1;
      var changed2 := ' ' in set2 || '-' in set2;
      if changed1 || changed2 {
        return Some(ReservedDigit);
      }
      return None;
    }

    /** Creates a converter, or reports the first check the bases fail. The
        converter keeps its own copies of the bases, equal to the supplied ones. */
    static method Create(base1: seq<Option<char>>, base2: seq<Option<char>>)
      returns (r: Result<NumberSystemConverter, BaseError>)
      ensures r.Success? <==> ValidBase(base1) && ValidBase(base2)
      ensures r.Failure? ==> FirstViolation(base1, base2) == Some(r.error)
      ensures r.Success? ==> fresh(r.value) && r.value.Valid() && r.value.reversedConverter == null
      ensures r.Success? ==> r.value.base1 == Unwrap(base1) && r.value.base2 == Unwrap(base2)
    {
      var err := CheckBases(base1, base2);
      if err.Some? {
        return Failure(err.value);
      }
      var c := new NumberSystemConverter(Unwrap(base1), Unwrap(base2));
      return Success(c);
    }

    /** Whether every character of the text is a digit of base 1: the characters
        of base 1 are removed from a copy of the text, and none may remain. */
    method CheckNoInvalidDigit(base1Digits: string) returns (ok: bool)
      ensures ok <==> AllIn(base1, base1Digits)
    {
      var inputChars: seq<char> := [];
      var i := 0;
      while i < |base1Digits|
        invariant 0 <= i <= |base1Digits|
        invariant forall c :: c in inputChars <==> c in base1Digits[..i] && c !in base1
      {
        if base1Digits[i] !in base1 {
          inputChars := inputChars + [base1Digits[i]];
        }
        i := i + 1;
      }
      assert base1Digits[..i] == base1Digits;
      ok := |inputChars| == 0;
      if !ok {
        assert inputChars[0] in inputChars;
      }
    }

    /** The signed value of a base-1 text, summing digit value times the radix
        to the power of the position, from the rightmost digit leftward. */
    method ToDecimal(base1Digits: string) returns (r: Result<int, ConversionError>)
      ensures r == Decimal(base1, base1Digits)
    {
      var input := StripSign(base1Digits);
      var isNegative := |input| < |base1Digits|;
      var ok := CheckNoInvalidDigit(input);
      if !ok {
        return Failure(InvalidDigit);
      }
      var decimal := 0;
      var base := |base1|;
      var exponent := 0;
      var i := |input| - 1;
      while i >= 0
        invariant -1 <= i < |input|
        invariant exponent == |input| - 1 - i
        invariant decimal == Value(base1, input[i + 1..])
      {
        var pos := IndexOf(base1, input[i]);
        assert Value(base1, input[i..]) == pos * Pow(base, exponent) + decimal by {
          assert input[i..] == [input[i]] + input[i + 1..];
          ValuePrepend(base1, input[i], input[i + 1..]);
        }
        decimal := pos * Pow(base, exponent) + decimal;
        exponent := exponent + 1;
        i := i - 1;
      }
      assert input[0..] == input;
      assert decimal == Value(base1, input);
      return Success(if isNegative then -decimal else decimal);
    }

    /** The base-1 text re-written in base 2: the magnitude is divided by the
        radix of base 2 repeatedly, each remainder's digit put in front of the
        output, the final quotient's digit in front of those, and a '-' in front
        of everything when the input had the sign prefix. */
    method ToBase2(base1Digits: string) returns (r: Result<string, ConversionError>)
      requires ValidBases()
      ensures r == Convert(base1, base2, base1Digits)
    {
      var input := StripSign(base1Digits);
      var isNegative := |input| < |base1Digits|;
      var ok := CheckNoInvalidDigit(input);
      if !ok {
        return Failure(InvalidDigit);
      }
      var outputNumberStr: string := [];
      StripSignOfDigits(base1, input);
      var decimal := ToDecimal(input);
      assert decimal == Success(Value(base1, input));
      var number := decimal.value;
      ghost var magnitude: nat := number;
      var base := |base2|;
      while number >= base
        invariant 0 <= number
        invariant Encode(base2, number) + outputNumberStr == Encode(base2, magnitude)
        decreases number
      {
        DivMod(number, base);
        var quotient, remainder := number / base, number % base;
        assert Encode(base2, number) == Encode(base2, quotient) + [base2[remainder]];
        assert Encode(base2, quotient) + ([base2[remainder]] + outputNumberStr)
            == (Encode(base2, quotient) + [base2[remainder]]) + outputNumberStr;
        outputNumberStr := [base2[remainder]] + outputNumberStr;
        number := quotient;
      }
      assert Encode(base2, number) == [base2[number]];
      outputNumberStr := [base2[number]] + outputNumberStr;
      assert outputNumberStr == Encode(base2, magnitude);
      if isNegative {
        outputNumberStr := ['-'] + outputNumberStr;
      }
      return Success(outputNumberStr);
    }

    /** The input base. */
    function GetBase1(): (r: seq<char>)
      requires ValidBases()
      ensures r == base1 && IsAlphabet(r)
    {
      base1
    }

    /** The output base. */
    function GetBase2(): (r: seq<char>)
      requires ValidBases()
      ensures r == base2 && IsAlphabet(r)
    {
      base2
    }

    /** A converter from base 2 to base 1. A new one is built and stored on every
        call; the value returned is the one stored before the call when there was
        one, otherwise the new one. Either way its bases are this one's swapped. */
    method GetReversedConverter() returns (r: NumberSystemConverter)
      requires Valid()
      modifies this
      ensures Valid() && reversedConverter != null && fresh(reversedConverter)
      ensures reversedConverter.reversedConverter == null && reversedConverter.Valid()
      ensures r == if old(reversedConverter) != null then old(reversedConverter) else reversedConverter
      ensures r.base1 == base2 && r.base2 == base1 && r.ValidBases()
    {
      var previous := reversedConverter;
      reversedConverter := new NumberSystemConverter(base2, base1);
      r := if previous != null then previous else reversedConverter;
    }

    /** The reversed converter built lazily, once: a new one only when none is
        stored, and the stored one returned on every later call. */
    method GetReversedConverterOnce() returns (r: NumberSystemConverter)
      requires Valid()
      modifies this
      ensures Valid() && reversedConverter == r
      ensures old(reversedConverter) != null ==> r == old(reversedConverter)
      ensures old(reversedConverter) == null ==> fresh(r) && r.reversedConverter == null && r.Valid()
      ensures r.base1 == base2 && r.base2 == base1 && r.ValidBases()
    {
      if reversedConverter == null {
        reversedConverter := new NumberSystemConverter(base2, base1);
      }
      r := reversedConverter;
    }

    /** Two converters are equal when their bases are equal as ordered lists. */
    function Equals(o: NumberSystemConverter?): (eq: bool)
      ensures eq <==> o != null && base1 == o.base1 && base2 == o.base2
    {
      if o == this then true
      else if o == null then false
      else base1 == o.base1 && base2 == o.base2
    }
  }

  /** Equality of converters is an equivalence relation. */
  lemma EqualsIsEquivalence(a: NumberSystemConverter, b: NumberSystemConverter, c: NumberSystemConverter)
    ensures a.Equals(a)
    ensures a.Equals(b) <==> b.Equals(a)
    ensures a.Equals(b) && b.Equals(c) ==> a.Equals(c)
    ensures !a.Equals(null)
  {
  }
}
