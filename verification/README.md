# number-system-converter in Dafny

A model of `NumberSystemConverter`, a Java class that rewrites an integer from
one positional number system to another. A number system (a *base*) is an
ordered list of digit characters: the digit at index `i` stands for the value
`i`, so the radix is the list's length. The constructor takes an input base
(base 1) and an output base (base 2). It rejects bases that are too short,
contain a null slot, repeat a digit, or use one of the two structural
characters `' '` and `'-'`. `toDecimal` reads a base-1 text as a signed integer.
`toBase2` rewrites a base-1 text in base 2. A text is negative when it starts
with `'-'`; any spaces right after the sign are skipped. `getReversedConverter`
gives a converter from base 2 back to base 1. `NumberSystem` supplies five
predefined bases: binary, octal, decimal, hexadecimal and base 36, with
upper-case letters only.

The project has four modules:

- `Digits` (`digits.dfy`) is positional notation over an arbitrary alphabet. It
  defines `IndexOf` (the semantics of `List.indexOf`) and `Value`, the value of
  a digit string. It also defines `Encode`, the canonical digit string of a
  natural number, and `Canonical`, the shape `toBase2` emits. It proves that
  `Encode` and `Value` are inverse on canonical strings.
- `NumberSystem` (`number_system.dfy`) holds the five predefined bases. It
  proves their sizes, that each is a valid base, that each extends the next
  smaller one, and the digit values they share.
- `Converter` (`number_system_converter.dfy`) holds the constructor's checks,
  the sign prefix, the two specification functions `Decimal` and `Convert`,
  and the class `NumberSystemConverter`. The class's methods `ToDecimal` and
  `ToBase2` keep the source's loops and are proved equal to `Decimal` and
  `Convert`. The properties of conversion (value preservation, output shape,
  round trips) are lemmas about those functions.
- `ConverterScenarios` (`converter_scenarios.dfy`) works through the concrete
  cases of the repository's unit tests.

How the Java maps onto the model:

- Java `List<Character>` bases become `seq<char>`.
- At the construction boundary, a base whose slots may be null is a
  `seq<Option<char>>`.
- `IllegalArgumentException`s become `Failure` values: `BaseError` for the
  constructor and `InvalidDigit` for a text.
- `BigDecimal` values become unbounded `int`. Every value here is an integer
  with scale 0.

`getReversedConverter` reads a `reversedConverter` field through
`firstNonNull`, which is the shape of lazy initialisation: build the reversed
converter on the first call and return the stored one afterwards. Java
evaluates both arguments before `firstNonNull` runs, so the code actually
builds and stores a new converter on every call. It returns the previously
stored one when there was one. The model follows the code; see "Findings".

## Model

| member | source | states |
|---|---|---|
| Digits.IndexOf | src/main/java/com/github/wnameless/math/NumberSystemConverter.java:114 | the digit value is the index of the first occurrence of the character in the base, and -1 exactly when the character is absent |
| Digits.IndexOfDistinct | src/main/java/com/github/wnameless/math/NumberSystemConverter.java:114 | in a base without duplicates the k-th digit has value k |
| Digits.Value | src/main/java/com/github/wnameless/math/NumberSystemConverter.java:110-117 | the value of a string of valid digits lies in [0, radix^length) |
| Digits.ValuePrepend | src/main/java/com/github/wnameless/math/NumberSystemConverter.java:113-116 | a digit followed by k more digits contributes its value times radix^k; summing these terms right to left gives the positional value |
| Digits.EncodeValue | src/main/java/com/github/wnameless/math/NumberSystemConverter.java:141-149 | the digits produced by repeated division by the radix read back to the original number |
| Digits.EncodeCanonical | src/main/java/com/github/wnameless/math/NumberSystemConverter.java:141-149 | the produced digits are non-empty, valid, and have no leading zero digit; they are the single zero digit exactly for 0, and at least two digits once the number reaches the radix |
| Digits.CanonicalEncode | src/main/java/com/github/wnameless/math/NumberSystemConverter.java:141-149 | every canonical digit string is what repeated division produces for its own value |
| Digits.CanonicalUnique | src/main/java/com/github/wnameless/math/NumberSystemConverter.java:141-149 | two canonical digit strings have the same value exactly when they are the same string |
| NumberSystem.Sizes | src/main/java/com/github/wnameless/math/NumberSystem.java:38-64 | the radixes are 2, 8, 10, 16 and 36 |
| NumberSystem.PrefixChain | src/main/java/com/github/wnameless/math/NumberSystem.java:38-64 | each predefined base is a prefix of the next larger one |
| NumberSystem.Base36Increasing | src/main/java/com/github/wnameless/math/NumberSystem.java:61-64 | the base-36 digits are in strictly increasing character order |
| NumberSystem.AllAreAlphabets | src/main/java/com/github/wnameless/math/NumberSystem.java:38-64 | every predefined base has at least two digits, no duplicate, and neither ' ' nor '-', so the constructor accepts it |
| NumberSystem.DigitValue | src/main/java/com/github/wnameless/math/NumberSystem.java:38-64 | in every predefined base the k-th digit has value k |
| NumberSystem.SharedDigitValue | src/main/java/com/github/wnameless/math/NumberSystem.java:38-64 | a digit of a base keeps its value in any base that extends it |
| NumberSystem.DigitValuesAgree | src/main/java/com/github/wnameless/math/NumberSystem.java:38-64 | a digit of a smaller predefined base has the same value in the next larger one |
| NumberSystem.ZeroAndOne | src/main/java/com/github/wnameless/math/NumberSystem.java:38-64 | '0' has value 0 and '1' has value 1 in every predefined base |
| NumberSystem.NoLowerCaseDigits | src/main/java/com/github/wnameless/math/NumberSystem.java:55-64 | no lower-case letter is a digit of HEX or BASE_36 |
| Converter.FirstViolation | src/main/java/com/github/wnameless/math/NumberSystemConverter.java:67-82 | no check fails exactly when both bases are valid (no null slot, at least two digits, distinct, neither ' ' nor '-') |
| Converter.Elements | src/main/java/com/github/wnameless/math/NumberSystemConverter.java:72-73 | the set built from a list holds exactly the list's elements |
| Converter.ElementsCountDistinct | src/main/java/com/github/wnameless/math/NumberSystemConverter.java:72-76 | the set is never larger than the list, and is as large exactly when the list has no duplicate |
| Converter.DropSpacesSpec | src/main/java/com/github/wnameless/math/NumberSystemConverter.java:105 | dropping leading spaces removes a run of spaces at the front, and the whole run |
| Converter.StripSign | src/main/java/com/github/wnameless/math/NumberSystemConverter.java:105-106 | removing the sign prefix never lengthens the text, and shortens it exactly when the text starts with '-' |
| Converter.StripSignSpec | src/main/java/com/github/wnameless/math/NumberSystemConverter.java:105 | what is removed is one '-' and the whole run of spaces after it, and nothing when the text does not start with '-' |
| Converter.DropSpacesPrefix | src/main/java/com/github/wnameless/math/NumberSystemConverter.java:105 | spaces in front of a text that does not start with a space are all dropped |
| Converter.StripSignOfDigits | src/main/java/com/github/wnameless/math/NumberSystemConverter.java:132-138 | a text of valid digits has no sign prefix, so toBase2 passing its stripped input to toDecimal strips nothing more |
| Converter.NegativeInput | src/main/java/com/github/wnameless/math/NumberSystemConverter.java:105-119 | '-' followed by any spaces and digits is valid exactly when the digits are, and its value is their value negated |
| Converter.OnlyOneSignStripped | src/main/java/com/github/wnameless/math/NumberSystemConverter.java:105-108 | a second '-' or a leading space is rejected as an invalid digit |
| Converter.DecimalSign | src/main/java/com/github/wnameless/math/NumberSystemConverter.java:105-119 | the text is negative exactly when it starts with '-'; the result's sign follows, and its magnitude is the value of the digits after the prefix |
| Converter.NegativeConvert | src/main/java/com/github/wnameless/math/NumberSystemConverter.java:132-151 | a text with the sign prefix converts exactly when its digits do, to '-' followed by their conversion |
| Converter.SpacedNegativeConvert | src/main/java/com/github/wnameless/math/NumberSystemConverter.java:132-151 | '-' followed by any spaces and a text converting to out converts to '-' followed by out |
| Converter.ConvertPreservesValue | src/main/java/com/github/wnameless/math/NumberSystemConverter.java:129-154 | toBase2 fails exactly when toDecimal fails, and the output digits read in base 2 give the magnitude toDecimal computes |
| Converter.ConvertDecodes | src/main/java/com/github/wnameless/math/NumberSystemConverter.java:129-154 | reading the output of toBase2 back in base 2 gives exactly the signed value toDecimal gives for the input in base 1 |
| Converter.ConvertShape | src/main/java/com/github/wnameless/math/NumberSystemConverter.java:137-153 | the output is non-empty and has a leading '-' exactly when the input starts with '-' (even for zero); its digits are canonical, and are the single zero digit exactly when the value is 0 |
| Converter.StripConverted | src/main/java/com/github/wnameless/math/NumberSystemConverter.java:132-133 | an output of toBase2 read back has exactly its own sign and digits |
| Converter.ConvertRoundTrip | src/main/java/com/github/wnameless/math/NumberSystemConverter.java:129-154 | converting to base 2 and back gives what converting base 1 to itself gives: same sign, canonical digits of the same value |
| Converter.NormalFormFixed | src/main/java/com/github/wnameless/math/NumberSystemConverter.java:129-154 | a text with an optional '-' and canonical digits converts to itself when both bases are the same |
| Converter.ReverseRestores | src/main/java/com/github/wnameless/math/NumberSystemConverter.java:129-154 | converting a normal-form text to base 2 and back with the reversed bases restores it exactly |
| Converter.NumberSystemConverter.constructor | src/main/java/com/github/wnameless/math/NumberSystemConverter.java:84-85 | stores the two bases, with no reversed converter yet |
| Converter.NumberSystemConverter.CheckBases | src/main/java/com/github/wnameless/math/NumberSystemConverter.java:67-82 | the four checks in the source's order (sizes, nulls, set size against list size, removing ' ' and '-' from the set) report the first failing one |
| Converter.NumberSystemConverter.Create | src/main/java/com/github/wnameless/math/NumberSystemConverter.java:63-86 | construction succeeds exactly when both bases are valid; otherwise it reports the first failing check; the new converter holds equal copies of the bases |
| Converter.NumberSystemConverter.CheckNoInvalidDigit | src/main/java/com/github/wnameless/math/NumberSystemConverter.java:88-93 | removing every base-1 digit from the text leaves nothing exactly when every character is a base-1 digit |
| Converter.NumberSystemConverter.ToDecimal | src/main/java/com/github/wnameless/math/NumberSystemConverter.java:102-120 | the right-to-left sum of digit value times radix power, negated after a sign prefix, is Decimal: an invalid-digit failure or the signed positional value |
| Converter.NumberSystemConverter.ToBase2 | src/main/java/com/github/wnameless/math/NumberSystemConverter.java:129-154 | the division loop and the final digit build the canonical base-2 digits of the magnitude, with '-' after a sign prefix, which is Convert |
| Converter.NumberSystemConverter.GetBase1 | src/main/java/com/github/wnameless/math/NumberSystemConverter.java:161-163 | returns the input base, a valid base |
| Converter.NumberSystemConverter.GetBase2 | src/main/java/com/github/wnameless/math/NumberSystemConverter.java:170-172 | returns the output base, a valid base |
| Converter.NumberSystemConverter.GetReversedConverter | src/main/java/com/github/wnameless/math/NumberSystemConverter.java:180-183 | always stores a new converter with the bases swapped; returns the previously stored one if there was one, else the new one; either way its bases are swapped |
| Converter.NumberSystemConverter.GetReversedConverterOnce | src/main/java/com/github/wnameless/math/NumberSystemConverter.java:180-183 | builds the swapped converter only when none is stored, and returns the stored one thereafter |
| Converter.NumberSystemConverter.Equals | src/main/java/com/github/wnameless/math/NumberSystemConverter.java:190-199 | equal exactly when the other converter is not null and both bases are equal as ordered lists |
| Converter.EqualsIsEquivalence | src/main/java/com/github/wnameless/math/NumberSystemConverter.java:190-199 | equality is reflexive, symmetric and transitive, and never holds against null |
| ConverterScenarios.PredefinedBasesAccepted | src/test/java/com/github/wnameless/math/NumberSystemConverterTest.java:146-151 | any two predefined bases make a converter |
| ConverterScenarios.InvalidBasesRejected | src/test/java/com/github/wnameless/math/NumberSystemConverterTest.java:51-89 | a one-digit base, a null slot, a repeated digit, and ' ' or '-' as a digit are each rejected, in either position, by the check the source makes first |
| ConverterScenarios.HexSixtyFour | src/test/java/com/github/wnameless/math/NumberSystemConverterTest.java:93 | the HEX digits "64" have value 100 |
| ConverterScenarios.HexToDecimalPositive | src/test/java/com/github/wnameless/math/NumberSystemConverterTest.java:93 | HEX "64" is 100 |
| ConverterScenarios.HexToDecimalNegative | src/test/java/com/github/wnameless/math/NumberSystemConverterTest.java:94 | HEX "-64" is -100 |
| ConverterScenarios.HexInvalidDigit | src/test/java/com/github/wnameless/math/NumberSystemConverterTest.java:97-111 | "64$" is rejected by both toDecimal and toBase2 |
| ConverterScenarios.OctalHundred | src/test/java/com/github/wnameless/math/NumberSystemConverterTest.java:104 | 100 is "144" in OCT |
| ConverterScenarios.HexToOctPositive | src/test/java/com/github/wnameless/math/NumberSystemConverterTest.java:104 | HEX "64" becomes OCT "144" |
| ConverterScenarios.HexToOctNegative | src/test/java/com/github/wnameless/math/NumberSystemConverterTest.java:105 | '-', any run of spaces, then HEX "64" becomes OCT "-144" |
| ConverterScenarios.DecimalToQuinaryExample | src/main/java/com/github/wnameless/math/NumberSystemConverter.java:129-154 | with the user-defined base "01234", decimal "100" becomes "400" |
| ConverterScenarios.LowerCaseRejected | src/test/java/com/github/wnameless/math/NumberSystemConverterTest.java:152-155 | a text with a lower-case letter anywhere, signed or not, is rejected by HEX and BASE_36, which is why the test upper-cases its input |
| ConverterScenarios.ReversedHexToOct | src/test/java/com/github/wnameless/math/NumberSystemConverterTest.java:168-172 | the reverse of a HEX to OCT converter equals a new OCT to HEX converter |
| ConverterScenarios.ReversedConverterRebuilt | src/main/java/com/github/wnameless/math/NumberSystemConverter.java:180-183 | three calls on a new converter return the same converter twice, then a different but equal one |
| ConverterScenarios.ReversedConverterBuiltOnce | src/main/java/com/github/wnameless/math/NumberSystemConverter.java:180-183 | with lazy construction, three calls return the same converter |

## Left out

- `hashCode` and `toString` are not modelled; they produce a hash and a message text.
- Null references for a whole base or for the input text (`checkNotNull`) are not modelled, because Dafny sequences cannot be null. Null slots inside a base are modelled, as `None`.
- Exception classes and messages are not modelled; each check yields one error value. The size message speaks of "more than 2 digits", but the check accepts exactly two, and the model follows the check.
- `BigDecimal.pow` throws for exponents above 999999999, that is, for texts of more than a billion digits. The model uses unbounded integers and has no such limit.
- The equality check's rejection of objects of other classes is not modelled; `Equals` takes a converter or null.
- The defensive copy of the bases is implicit: sequences are values and the bases are `const` fields, so a caller cannot change them afterwards.
- The 128-bit HEX to BASE_36 test value is not worked out digit by digit. The general `ConvertRoundTrip` and `ReverseRestores` lemmas state the round trip it checks.
- Concurrent calls to `getReversedConverter` are not modelled.
- Java `char`s are UTF-16 code units, while Dafny `char`s are Unicode scalar values. Two Java cases have no counterpart in the model: a base holding a lone surrogate, and an input character outside the Basic Multilingual Plane, which `toCharArray` and `charAt` split into two separate digits.
- Converter.NumberSystemConverter.GetReversedConverter: when it returns the previously stored converter, the model states only that its bases are the swapped bases, not that its own stored converter is consistent.

## Findings

| source | as written | input that shows it | evidently intended | confidence | as-written member | corrected member |
|---|---|---|---|---|---|---|
| src/main/java/com/github/wnameless/math/NumberSystemConverter.java:180-183 | The reversed converter is passed as the fallback argument of `firstNonNull`. Java evaluates arguments eagerly, so every call builds and stores a new converter. | A new converter asked for its reverse three times: the second and third answers are different objects. | The reversed converter is built once, on the first call, and the same object is returned ever after. | high; not executed | ConverterScenarios.ReversedConverterRebuilt | Converter.NumberSystemConverter.GetReversedConverterOnce |
