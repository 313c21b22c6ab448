/** The digit alphabets of common number systems. */
module NumberSystem {
  import opened Digits

  /** Binary digit system. */
  const BIN: seq<char> := "01"

  /** Octal digit system. */
  const OCT: seq<char> := "01234567"

  /** Decimal digit system. */
  const DEC: seq<char> := "0123456789"

  /** Hexadecimal digit system (upper-case letters only). */
  const HEX: seq<char> := "0123456789ABCDEF"

  /** Base-36 digit system (upper-case letters only). */
  const BASE_36: seq<char> := "0123456789ABCDEFGHIJKLMNOPQRSTUVWXYZ"

  /** The radix of each predefined system. */
  lemma Sizes()
    ensures |BIN| == 2 && |OCT| == 8 && |DEC| == 10 && |HEX| == 16 && |BASE_36| == 36
  {
  }

  /** Each alphabet extends the next smaller one. */
  lemma PrefixChain()
    ensures BIN <= OCT && OCT <= DEC && DEC <= HEX && HEX <= BASE_36
  {
  }

  /** Symbols in strictly increasing character order. */
  predicate Increasing(s: seq<char>) {
    forall i :: 0 <= i < |s| - 1 ==> s[i] < s[i + 1]
  }

  /** Strictly increasing symbols are pairwise distinct. */
  lemma {:induction false} IncreasingDistinct(s: seq<char>)
    requires Increasing(s)
    ensures Distinct(s)
    ensures forall i :: 0 <= i < |s| ==> s[0] <= s[i] <= s[|s| - 1]
    decreases |s|
  {
    if |s| > 1 {
      var t := s[1..];
      assert Increasing(t) by {
        forall i | 0 <= i < |t| - 1 ensures t[i] < t[i + 1] {
          assert t[i] == s[i + 1] && t[i + 1] == s[i + 2];
        }
      }
      IncreasingDistinct(t);
      forall i, j | 0 <= i < j < |s| ensures s[i] != s[j] {
        if i > 0 {
          assert s[i] == t[i - 1] && s[j] == t[j - 1];
        } else {
          assert s[j] == t[j - 1] && s[0] < t[0];
        }
      }
    }
  }

  /** The base-36 digits are in strictly increasing character order. */
  lemma Base36Increasing()
    ensures Increasing(BASE_36)
  {
  }

  /** A prefix of a strictly increasing sequence is strictly increasing. */
  lemma PrefixIncreasing(s: seq<char>, t: seq<char>)
    requires s <= t && Increasing(t)
    ensures Increasing(s)
  {
    forall i | 0 <= i < |s| - 1 ensures s[i] < s[i + 1] {
      assert s[i] == t[i] && s[i + 1] == t[i + 1];
    }
  }

  /** An increasing sequence of digits from '0' upward is an alphabet. */
  lemma IncreasingAlphabet(s: seq<char>)
    requires |s| >= 2 && s[0] == '0' && Increasing(s)
    ensures IsAlphabet(s)
  {
    IncreasingDistinct(s);
    assert forall i :: 0 <= i < |s| ==> '0' <= s[i];
  }

  /** Every predefined system is an alphabet the converter accepts: at least two
      digits, no duplicate digit, and neither ' ' nor '-'. */
  lemma AllAreAlphabets()
    ensures IsAlphabet(BIN) && IsAlphabet(OCT) && IsAlphabet(DEC)
    ensures IsAlphabet(HEX) && IsAlphabet(BASE_36)
  {
    Base36Increasing();
    PrefixChain();
    PrefixIncreasing(BIN, BASE_36);
    PrefixIncreasing(OCT, BASE_36);
    PrefixIncreasing(DEC, BASE_36);
    PrefixIncreasing(HEX, BASE_36);
    IncreasingAlphabet(BIN);
    IncreasingAlphabet(OCT);
    IncreasingAlphabet(DEC);
    IncreasingAlphabet(HEX);
    IncreasingAlphabet(BASE_36);
  }

  /** In every predefined system the k-th symbol is the digit of value k. */
  lemma DigitValue(s: seq<char>, k: nat)
    requires s in [BIN, OCT, DEC, HEX, BASE_36] && k < |s|
    ensures IndexOf(s, s[k]) == k
  {
    AllAreAlphabets();
    IndexOfDistinct(s, k);
  }

  /** In an alphabet a digit shared with a longer alphabet that extends it has
      the same value in both. */
  lemma {:induction false} SharedDigitValue(a: seq<char>, b: seq<char>, c: char)
    requires a <= b && c in a
    ensures IndexOf(a, c) == IndexOf(b, c)
    decreases |a|
  {
    if a[0] != c {
      assert b[0] == a[0];
      assert a[1..] <= b[1..];
      SharedDigitValue(a[1..], b[1..], c);
    }
  }

  /** A digit of a smaller predefined system keeps its value in every larger one. */
  lemma DigitValuesAgree(c: char)
    ensures c in BIN ==> IndexOf(BIN, c) == IndexOf(OCT, c)
    ensures c in OCT ==> IndexOf(OCT, c) == IndexOf(DEC, c)
    ensures c in DEC ==> IndexOf(DEC, c) == IndexOf(HEX, c)
    ensures c in HEX ==> IndexOf(HEX, c) == IndexOf(BASE_36, c)
  {
    PrefixChain();
    if c in BIN { SharedDigitValue(BIN, OCT, c); }
    if c in OCT { SharedDigitValue(OCT, DEC, c); }
    if c in DEC { SharedDigitValue(DEC, HEX, c); }
    if c in HEX { SharedDigitValue(HEX, BASE_36, c); }
  }

  /** '0' is the zero digit and '1' the unit digit of every predefined system. */
  lemma ZeroAndOne(s: seq<char>)
    requires s in [BIN, OCT, DEC, HEX, BASE_36]
    ensures IndexOf(s, '0') == 0 && IndexOf(s, '1') == 1
  {
    assert s[0] == '0' && s[1] == '1';
    DigitValue(s, 0);
    DigitValue(s, 1);
  }

  /** The letter digits are upper case only: no lower-case letter is a digit of
      HEX or BASE_36. */
  lemma NoLowerCaseDigits(c: char)
    requires 'a' <= c <= 'z'
    ensures c !in HEX && c !in BASE_36
  {
    Base36Increasing();
    IncreasingDistinct(BASE_36);
    PrefixChain();
    assert forall k :: 0 <= k < |BASE_36| ==> BASE_36[k] <= 'Z' < c;
    assert forall k :: 0 <= k < |HEX| ==> HEX[k] == BASE_36[k];
  }
}
