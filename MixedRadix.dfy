/** Mixed-radix numbering: position `j` has its own base `r[j]` and the
    weight (divisor) of position `j` is the product of the bases before it.
    `Digits` is the formula the generator evaluates for each counter;
    `Decode` and `Encode` are an independent recursive reference, and
    the lemmas prove that the counters `0 .. Product(r) - 1` and the digit
    tuples below the bases correspond one to one, position 0 fastest. */
module MixedRadix {

  /** Every base is at least 1 (every candidate list is non-empty). */
  predicate Positive(r: seq<nat>) {
    forall j | 0 <= j < |r| :: r[j] >= 1
  }

  /** A digit tuple that fits the bases. */
  predicate InRange(d: seq<nat>, r: seq<nat>) {
    |d| == |r| && forall j | 0 <= j < |d| :: d[j] < r[j]
  }

  function Product(r: seq<nat>): (p: nat)
    ensures Positive(r) ==> p >= 1
  {
    if |r| == 0 then 1 else r[0] * Product(r[1..])
  }

  /** The weight of position `j`: the product of the bases before it. */
  function Divisor(r: seq<nat>, j: nat): (d: nat)
    requires Positive(r) && j <= |r|
    ensures d >= 1
  {
    assert Positive(r[..j]);
    Product(r[..j])
  }

  /** Digit `j` of counter `i`: `(i / divisor[j]) % r[j]`, for every `j`. */
  function Digits(i: nat, r: seq<nat>): (d: seq<nat>)
    requires Positive(r)
    ensures InRange(d, r)
  {
    seq(|r|, j requires 0 <= j < |r| => (i / Divisor(r, j)) % r[j])
  }

  /** Reference decoding: least significant digit first. */
  function Decode(i: nat, r: seq<nat>): (d: seq<nat>)
    requires Positive(r)
    ensures |d| == |r|
    decreases |r|
  {
    if |r| == 0 then [] else [i % r[0]] + Decode(i / r[0], r[1..])
  }

  /** Reference encoding: the value of a digit tuple. */
  function Encode(d: seq<nat>, r: seq<nat>): nat
    requires |d| == |r|
  {
    if |r| == 0 then 0 else d[0] + r[0] * Encode(d[1..], r[1..])
  }

  // ---- arithmetic helpers -------------------------------------------------

  lemma AtLeastOneMultiple(k: int, a: nat)
    ensures k >= 1 ==> k * a >= a
  {
  }

  lemma DivModUnique(x: int, a: int, q: int, m: int)
    requires a > 0 && 0 <= m < a && x == q * a + m
    ensures x / a == q && x % a == m
  {
    var k := q - x / a;
    assert k * a == x % a - m by {
      assert x == (x / a) * a + x % a;
    }
    AtLeastOneMultiple(k, a);
    AtLeastOneMultiple(-k, a);
    assert (-k) * a == -(k * a);
  }

  lemma DivBelow(i: nat, a: nat, b: nat)
    requires a > 0 && i < a * b
    ensures i / a < b
  {
  }

  lemma MulMonotone(a: nat, b: nat, c: nat)
    requires b <= c
    ensures a * b <= a * c
  {
  }

  lemma MulAssoc(a: int, b: int, c: int)
    ensures a * (b * c) == (a * b) * c
  {
  }

  lemma DivDiv(i: nat, a: nat, b: nat)
    requires a > 0 && b > 0
    ensures i / (a * b) == (i / a) / b
  {
    var q, m := i / a, i % a;
    var q2, m2 := q / b, q % b;
    assert i == q * a + m;
    assert q == q2 * b + m2;
    assert q * a == q2 * (a * b) + m2 * a by {
      MulAssoc(q2, b, a);
      assert q * a == q2 * b * a + m2 * a;
    }
    assert m2 * a + m < a * b by {
      MulMonotone(a, m2, b - 1);
      assert a * (b - 1) == a * b - a;
      assert m2 * a == a * m2;
    }
    DivModUnique(i, a * b, q2, m2 * a + m);
  }

  // ---- the product ---------------------------------------------------------

  /** Extending the bases by one multiplies the product by the new base:
      the step `curMod *= count` of the generator. */
  lemma {:induction false} ProductSnoc(r: seq<nat>, x: nat)
    ensures Product(r + [x]) == Product(r) * x
  {
    if |r| > 0 {
      assert (r + [x])[1..] == r[1..] + [x];
      ProductSnoc(r[1..], x);
      MulAssoc(r[0], Product(r[1..]), x);
    }
  }

  /** The product of the first `j + 1` bases. */
  lemma ProductPrefix(r: seq<nat>, j: nat)
    requires j < |r|
    ensures Product(r[..j + 1]) == Product(r[..j]) * r[j]
  {
    assert r[..j + 1] == r[..j] + [r[j]];
    ProductSnoc(r[..j], r[j]);
  }

  /** Bases of 1 do not change the product. */
  lemma {:induction false} ProductOfOnes(r: seq<nat>)
    requires forall j | 0 <= j < |r| :: r[j] == 1
    ensures Product(r) == 1
  {
    if |r| > 0 {
      ProductOfOnes(r[1..]);
    }
  }

  // ---- the reference codec ------------------------------------------------

  /** Every encoded tuple lies below the product. */
  lemma {:induction false} EncodeBelow(d: seq<nat>, r: seq<nat>)
    requires InRange(d, r)
    ensures Encode(d, r) < Product(r)
  {
    if |r| > 0 {
      EncodeBelow(d[1..], r[1..]);
      var e, p := Encode(d[1..], r[1..]), Product(r[1..]);
      MulMonotone(r[0], e, p - 1);
      assert r[0] * (p - 1) == r[0] * p - r[0];
    }
  }

  lemma {:induction false} EncodeDecode(i: nat, r: seq<nat>)
    requires Positive(r) && i < Product(r)
    ensures Encode(Decode(i, r), r) == i
    decreases |r|
  {
    if |r| > 0 {
      var a, q, d := r[0], i / r[0], Decode(i, r);
      DivBelow(i, a, Product(r[1..]));
      EncodeDecode(q, r[1..]);
      assert d[0] == i % a && d[1..] == Decode(q, r[1..]);
      assert i == i % a + a * q;
    }
  }

  lemma {:induction false} DecodeEncode(d: seq<nat>, r: seq<nat>)
    requires Positive(r) && InRange(d, r)
    ensures Decode(Encode(d, r), r) == d
  {
    if |r| > 0 {
      var e := Encode(d[1..], r[1..]);
      DivModUnique(Encode(d, r), r[0], e, d[0]);
      DecodeEncode(d[1..], r[1..]);
    }
  }

  /** The divisor formula computes the reference digits. */
  lemma {:induction false} DigitsDecode(i: nat, r: seq<nat>)
    requires Positive(r)
    ensures Digits(i, r) == Decode(i, r)
    decreases |r|
  {
    if |r| > 0 {
      DigitsDecode(i / r[0], r[1..]);
      forall j | 0 <= j < |r|
        ensures Digits(i, r)[j] == Decode(i, r)[j]
      {
        if j > 0 {
          assert r[..j][1..] == r[1..][..j - 1];
          assert Divisor(r, j) == r[0] * Divisor(r[1..], j - 1);
          DivDiv(i, r[0], Divisor(r[1..], j - 1));
          assert Digits(i / r[0], r[1..])[j - 1] == Decode(i, r)[j];
        }
      }
    }
  }

  // ---- the bijection ------------------------------------------------------

  /** Two distinct counters below the product give distinct digit tuples. */
  lemma DigitsInjective(i1: nat, i2: nat, r: seq<nat>)
    requires Positive(r) && i1 < Product(r) && i2 < Product(r)
    requires Digits(i1, r) == Digits(i2, r)
    ensures i1 == i2
  {
    DigitsDecode(i1, r);
    DigitsDecode(i2, r);
    EncodeDecode(i1, r);
    EncodeDecode(i2, r);
  }

  /** Every digit tuple below the bases is the digit tuple of a counter
      below the product. */
  lemma DigitsSurjective(d: seq<nat>, r: seq<nat>)
    requires Positive(r) && InRange(d, r)
    ensures exists i: nat :: i < Product(r) && Digits(i, r) == d
  {
    EncodeBelow(d, r);
    DecodeEncode(d, r);
    DigitsDecode(Encode(d, r), r);
  }

  /** Position 0 varies fastest: unless position 0 is at its last digit,
      the next counter only advances position 0. */
  lemma NextCounter(i: nat, r: seq<nat>)
    requires Positive(r) && |r| > 0 && i + 1 < Product(r)
    requires Digits(i, r)[0] + 1 < r[0]
    ensures Digits(i + 1, r) == Digits(i, r)[0 := Digits(i, r)[0] + 1]
  {
    DigitsDecode(i, r);
    DigitsDecode(i + 1, r);
    var d := Decode(i, r);
    var d' := d[0 := d[0] + 1];
    EncodeDecode(i, r);
    assert d'[1..] == d[1..];
    assert Encode(d', r) == Encode(d, r) + 1;
    DecodeEncode(d', r);
    assert Decode(i + 1, r) == d';
  }

  /** Counter 0 picks digit 0 everywhere. */
  lemma DigitsOfZero(r: seq<nat>)
    requires Positive(r)
    ensures forall j | 0 <= j < |r| :: Digits(0, r)[j] == 0
  {
  }
}
