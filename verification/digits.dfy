/**
 * Positional notation over a user-defined digit alphabet: the symbol at index i
 * of the alphabet stands for the digit value i, and a digit string is read with
 * its rightmost symbol as the least significant digit.
 */
module Digits {

  /** No symbol occurs twice in the alphabet. */
  predicate Distinct(b: seq<char>) {
    forall i, j :: 0 <= i < j < |b| ==> b[i] != b[j]
  }

  /** An alphabet a converter accepts: at least two digits, pairwise distinct,
      and neither of the structural characters ' ' and '-'. */
  predicate IsAlphabet(b: seq<char>) {
    |b| >= 2 && Distinct(b) && ' ' !in b && '-' !in b
  }

  /** Every symbol of ds is a digit of b. */
  predicate AllIn(b: seq<char>, ds: seq<char>) {
    forall i :: 0 <= i < |ds| ==> ds[i] in b
  }

  /** The index of the first occurrence of c in b, or -1 when c is absent
      (the behaviour of java.util.List.indexOf). */
  function IndexOf(b: seq<char>, c: char): (i: int)
    ensures -1 <= i < |b|
    ensures i == -1 <==> c !in b
    ensures 0 <= i ==> b[i] == c && forall j :: 0 <= j < i ==> b[j] != c
  {
    if b == [] then -1
    else if b[0] == c then 0
    else
      var k := IndexOf(b[1..], c);
      if k < 0 then -1 else k + 1
  }

  /** In an alphabet without duplicates a digit's value is its position. */
  lemma IndexOfDistinct(b: seq<char>, k: nat)
    requires Distinct(b) && k < |b|
    ensures IndexOf(b, b[k]) == k
  {
  }

  /** base raised to the power e. */
  function Pow(base: nat, e: nat): (r: nat)
    ensures base >= 1 ==> r >= 1
  {
    if e == 0 then 1 else base * Pow(base, e - 1)
  }

  /** The value of the digit string ds in alphabet b, read most significant
      digit first (Horner's rule). */
  function Value(b: seq<char>, ds: seq<char>): (r: int)
    ensures AllIn(b, ds) ==> 0 <= r < Pow(|b|, |ds|)
  {
    if ds == [] then 0
    else
      var p := Value(b, ds[..|ds| - 1]);
      var d := IndexOf(b, ds[|ds| - 1]);
      assert AllIn(b, ds) ==> AllIn(b, ds[..|ds| - 1]) && 0 <= d < |b|;
      assert AllIn(b, ds) ==> p * |b| + d < Pow(|b|, |ds|) by {
        if AllIn(b, ds) {
          BoundStep(p, d, |b|, Pow(|b|, |ds| - 1));
        }
      }
      p * |b| + d
  }

  /** Arithmetic step of the bound on Value: one more digit multiplies the range by the base. */
  lemma BoundStep(p: int, d: int, base: nat, bound: nat)
    requires 0 <= p < bound && 0 <= d < base
    ensures p * base + d < bound * base
  {
    assert p * base <= (bound - 1) * base;
  }

  /** Value read least significant digit first: the leading digit c of [c] + ds
      contributes its index times the base to the power of the number of digits
      to its right. Summing these terms from the right is the positional sum. */
  lemma {:induction false} ValuePrepend(b: seq<char>, c: char, ds: seq<char>)
    ensures Value(b, [c] + ds) == IndexOf(b, c) * Pow(|b|, |ds|) + Value(b, ds)
    decreases |ds|
  {
    var s := [c] + ds;
    if ds == [] {
      assert s[..|s| - 1] == [];
    } else {
      var init := ds[..|ds| - 1];
      assert s[..|s| - 1] == [c] + init;
      assert s[|s| - 1] == ds[|ds| - 1];
      ValuePrepend(b, c, init);
      var B, x, d := |b|, IndexOf(b, c), IndexOf(b, ds[|ds| - 1]);
      assert Value(b, s) == Value(b, [c] + init) * B + d;
      assert Value(b, ds) == Value(b, init) * B + d;
      assert Pow(B, |ds|) == B * Pow(B, |init|);
      Regroup(x, Pow(B, |init|), Value(b, init), B, d);
    }
  }

  /** Arithmetic step of ValuePrepend: shifting a prefix left by one digit. */
  lemma Regroup(x: int, P: int, V: int, B: int, d: int)
    ensures (x * P + V) * B + d == x * (B * P) + (V * B + d)
  {
    assert (x * P + V) * B == x * P * B + V * B;
    assert x * P * B == x * (B * P);
  }

  /** The canonical digit string of a value in alphabet b: it is non-empty, uses
      only digits of b, and has no leading zero digit b[0] unless it is the
      single digit b[0]. */
  predicate Canonical(b: seq<char>, ds: seq<char>)
    requires |b| >= 1
  {
    |ds| >= 1 && AllIn(b, ds) && (|ds| > 1 ==> ds[0] != b[0])
  }

  /** The canonical digit string of n in alphabet b, obtained by repeated
      division by the base; the remainders are the digits from the right. */
  function Encode(b: seq<char>, n: nat): (r: seq<char>)
    requires |b| >= 2
    decreases n
  {
    if n < |b| then [b[n]] else Encode(b, n / |b|) + [b[n % |b|]]
  }

  /** Euclidean division of a natural number by an alphabet size. */
  lemma DivMod(n: nat, base: nat)
    requires base >= 2
    ensures n == (n / base) * base + n % base && 0 <= n % base < base
    ensures n >= base ==> 1 <= n / base < n
  {
  }

  /** Encoding and then reading back the digits gives the number again. */
  lemma {:induction false} EncodeValue(b: seq<char>, n: nat)
    requires |b| >= 2 && Distinct(b)
    ensures Value(b, Encode(b, n)) == n
    decreases n
  {
    var e := Encode(b, n);
    var B := |b|;
    if n < B {
      assert e[..0] == [];
      IndexOfDistinct(b, n);
    } else {
      DivMod(n, B);
      var q, r := n / B, n % B;
      var eq := Encode(b, q);
      assert e == eq + [b[r]];
      EncodeValue(b, q);
      assert e[..|e| - 1] == eq;
      IndexOfDistinct(b, r);
      assert Value(b, e) == Value(b, eq) * B + r;
    }
  }

  /** Encode always yields the canonical form, and yields the single digit b[0]
      exactly when n is zero. */
  lemma {:induction false} EncodeCanonical(b: seq<char>, n: nat)
    requires |b| >= 2 && Distinct(b)
    ensures Canonical(b, Encode(b, n))
    ensures Encode(b, n) == [b[0]] <==> n == 0
    ensures n >= |b| ==> |Encode(b, n)| >= 2
    decreases n
  {
    var e := Encode(b, n);
    var B := |b|;
    if n >= B {
      DivMod(n, B);
      var q, r := n / B, n % B;
      EncodeCanonical(b, q);
      var eq := Encode(b, q);
      assert e == eq + [b[r]];
      assert e[0] == eq[0];
      assert forall i :: 0 <= i < |e| ==> e[i] in b by {
        forall i | 0 <= i < |e| ensures e[i] in b {
          if i < |eq| { assert e[i] == eq[i]; } else { assert e[i] == b[r]; }
        }
      }
      if |eq| == 1 {
        assert eq != [b[0]];
        assert eq[0] != b[0];
      }
    } else {
      if n != 0 {
        assert e[0] == b[n] != b[0];
      }
    }
  }

  /** A canonical string whose leading digit is not the zero digit has a
      positive value. */
  lemma ValuePositive(b: seq<char>, ds: seq<char>)
    requires |b| >= 2 && Distinct(b) && AllIn(b, ds)
    requires |ds| >= 1 && ds[0] != b[0]
    ensures Value(b, ds) >= 1
  {
    var rest := ds[1..];
    assert ds == [ds[0]] + rest;
    ValuePrepend(b, ds[0], rest);
    assert AllIn(b, rest) by {
      forall i | 0 <= i < |rest| ensures rest[i] in b {
        assert rest[i] == ds[i + 1];
      }
    }
    var k := IndexOf(b, ds[0]);
    var P := Pow(|b|, |rest|);
    assert k >= 1 && P >= 1;
    MulAtLeast(k, P);
  }

  /** Division by the base recovers the leading digits and the last digit. */
  lemma DivModStep(p: int, d: int, base: int)
    requires base >= 1 && 0 <= d < base
    ensures (p * base + d) / base == p && (p * base + d) % base == d
  {
    var n := p * base + d;
    var q, r := n / base, n % base;
    assert (q - p) * base == d - r;
    if q > p { MulAtLeast(q - p, base); }
    if q < p { MulAtLeast(p - q, base); }
  }

  /** A positive multiple of base is at least base. */
  lemma MulAtLeast(k: int, base: int)
    requires k >= 1 && base >= 1
    ensures k * base >= base
  {
  }

  /** A canonical string of two or more digits is a canonical string of
      positive value followed by one more digit. */
  lemma CanonicalSplit(b: seq<char>, ds: seq<char>)
    requires |b| >= 2 && Distinct(b) && Canonical(b, ds) && |ds| >= 2
    ensures var init, d := ds[..|ds| - 1], IndexOf(b, ds[|ds| - 1]);
      0 <= d < |b| && ds == init + [b[d]] && Canonical(b, init) &&
      Value(b, init) >= 1 && Value(b, ds) == Value(b, init) * |b| + d
  {
    var init := ds[..|ds| - 1];
    assert ds == init + [ds[|ds| - 1]];
    assert init[0] == ds[0];
    assert AllIn(b, init) by {
      forall i | 0 <= i < |init| ensures init[i] in b {
        assert init[i] == ds[i];
      }
    }
    ValuePositive(b, init);
  }

  /** Encode inverts Value on canonical strings: every canonical digit string is
      the encoding of its own value, so the canonical form of a value is unique. */
  lemma {:induction false} CanonicalEncode(b: seq<char>, ds: seq<char>)
    requires |b| >= 2 && Distinct(b) && Canonical(b, ds)
    ensures Encode(b, Value(b, ds)) == ds
    decreases |ds|
  {
    var B := |b|;
    var init, d := ds[..|ds| - 1], IndexOf(b, ds[|ds| - 1]);
    if |ds| == 1 {
      assert ds == [b[d]] && init == [];
      assert Value(b, ds) == Value(b, []) * B + d;
    } else {
      CanonicalSplit(b, ds);
      var v := Value(b, init);
      DivModStep(v, d, B);
      MulAtLeast(v, B);
      assert Encode(b, v * B + d) == Encode(b, v) + [b[d]];
      CanonicalEncode(b, init);
    }
  }

  /** Two canonical strings with the same value are the same string. */
  lemma CanonicalUnique(b: seq<char>, x: seq<char>, y: seq<char>)
    requires |b| >= 2 && Distinct(b) && Canonical(b, x) && Canonical(b, y)
    ensures Value(b, x) == Value(b, y) <==> x == y
  {
    if Value(b, x) == Value(b, y) {
      CanonicalEncode(b, x);
      CanonicalEncode(b, y);
    }
  }
}
