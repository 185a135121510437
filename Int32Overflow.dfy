/** `curMod` in the source is a 32-bit `int` multiplied without overflow
    checking, so the product of the list lengths wraps around once it
    passes 2^31 - 1.  The rest of the model counts with unbounded `nat`s:
    that is the intended behaviour.  This module models the wrapping
    product as written and shows where the two part. */
module Int32Overflow {
  import opened MixedRadix
  import opened Text
  import opened Generator

  const Int32Max: int := 0x7fff_ffff
  const Int32Range: int := 0x1_0000_0000

  /** The 32-bit two's-complement value of `x`, as unchecked C# arithmetic
      yields it. */
  function Wrap(x: int): (w: int)
    ensures -Int32Max - 1 <= w <= Int32Max
    ensures (w - x) % Int32Range == 0
    ensures -Int32Max - 1 <= x <= Int32Max ==> w == x
  {
    (x + Int32Max + 1) % Int32Range - Int32Max - 1
  }

  /** `curMod` after the first loop as written: each step multiplies by one
      list length and wraps the result. */
  function CurModAsWritten(r: seq<nat>): int {
    if |r| == 0 then 1 else Wrap(CurModAsWritten(r[..|r| - 1]) * r[|r| - 1])
  }

  lemma ProductOfPrefix(r: seq<nat>)
    requires Positive(r) && |r| > 0
    ensures Product(r[..|r| - 1]) <= Product(r)
  {
    var n := |r| - 1;
    var p, x := Product(r[..n]), r[n];
    assert r == r[..n] + [x];
    ProductSnoc(r[..n], x);
    assert x >= 1;
    AtLeastOneMultiple(x, p);
    assert x * p == p * x;
  }

  /** While the product fits in an `int`, the wrapping product is the
      product. */
  lemma {:induction false} AgreesWhileItFits(r: seq<nat>)
    requires Positive(r) && Product(r) <= Int32Max
    ensures CurModAsWritten(r) == Product(r)
  {
    if |r| > 0 {
      var n := |r| - 1;
      ProductOfPrefix(r);
      assert Positive(r[..n]);
      AgreesWhileItFits(r[..n]);
      assert r == r[..n] + [r[n]];
      ProductSnoc(r[..n], r[n]);
    }
  }

  /** Eight lists of sixteen candidates: the product is 2^32, which the
      32-bit `curMod` wraps to 0. */
  lemma EightBySixteen()
    ensures Product(seq(8, _ => 16)) == Int32Range
    ensures CurModAsWritten(seq(8, _ => 16)) == 0
  {
    var r: seq<nat> := seq(8, _ => 16);
    assert r[..0] == [];
    assert r[..1][..0] == r[..0];
    assert CurModAsWritten(r[..1]) == 16;
    assert r[..2][..1] == r[..1];
    assert CurModAsWritten(r[..2]) == 256;
    assert r[..3][..2] == r[..2];
    assert CurModAsWritten(r[..3]) == 4096;
    assert r[..4][..3] == r[..3];
    assert CurModAsWritten(r[..4]) == 65536;
    assert r[..5][..4] == r[..4];
    assert CurModAsWritten(r[..5]) == 1048576;
    assert r[..6][..5] == r[..5];
    assert CurModAsWritten(r[..6]) == 16777216;
    assert r[..7][..6] == r[..6];
    assert CurModAsWritten(r[..7]) == 268435456;
    assert r[..8][..7] == r[..7];
    assert CurModAsWritten(r[..8]) == 0;
    assert r[7..][1..] == r[8..];
    assert Product(r[7..]) == 16;
    assert r[6..][1..] == r[7..];
    assert Product(r[6..]) == 256;
    assert r[5..][1..] == r[6..];
    assert Product(r[5..]) == 4096;
    assert r[4..][1..] == r[5..];
    assert Product(r[4..]) == 65536;
    assert r[3..][1..] == r[4..];
    assert Product(r[3..]) == 1048576;
    assert r[2..][1..] == r[3..];
    assert Product(r[2..]) == 16777216;
    assert r[1..][1..] == r[2..];
    assert Product(r[1..]) == 268435456;
    assert r[0..][1..] == r[1..];
    assert Product(r[0..]) == 4294967296;
    assert r[0..] == r && r[..8] == r;
  }

  /** A title of eight copies of a word the dictionary gives fifteen
      synonyms: there are 2^32 variants, but `curMod` as written is 0, so
      the result array as written is empty. */
  lemma OverflowExample(synonyms: seq<string>)
    requires |synonyms| == 15
    ensures var title := Join(seq(8, _ => "a"));
            var cands := Candidates(Split(title), map["a" := synonyms], s => s);
            |Variants(cands)| == Int32Range && CurModAsWritten(Counts(cands)) == 0
  {
    var parts := seq(8, _ => "a");
    SplitJoin(parts);
    var cands := Candidates(parts, map["a" := synonyms], s => s);
    assert Counts(cands) == seq(8, _ => 16);
    EightBySixteen();
  }
}
