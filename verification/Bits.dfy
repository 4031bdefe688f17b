/** Bits of unsigned machine words, as numbers. */
module Bits {
  import opened Arith

  /** Bit i of w: (w >> i) & 1. */
  predicate Bit(w: nat, i: nat) {
    if i == 0 then w % 2 == 1 else Bit(w / 2, i - 1)
  }

  lemma HalveThenDivide(w: nat, m: nat)
    requires m > 0
    ensures w / 2 / m == w / (2 * m)
  {
    var q, r := w / (2 * m), w % (2 * m);
    assert w == 2 * (m * q) + r;
    assert w / 2 == m * q + r / 2;
    DivUnique(w / 2, m, q, r / 2);
  }

  lemma {:induction false} BitIsDigit(w: nat, i: nat)
    ensures Bit(w, i) <==> w / Pow2(i) % 2 == 1
  {
    if i > 0 {
      BitIsDigit(w / 2, i - 1);
      HalveThenDivide(w, Pow2(i - 1));
    }
  }

  /** w | (1 << i) */
  function SetBit(w: nat, i: nat): nat {
    if i == 0 then w - w % 2 + 1 else w % 2 + 2 * SetBit(w / 2, i - 1)
  }

  /** w & ~(1 << i) */
  function ClearBit(w: nat, i: nat): nat {
    if i == 0 then w - w % 2 else w % 2 + 2 * ClearBit(w / 2, i - 1)
  }

  lemma {:induction false} BitOfSet(w: nat, i: nat, j: nat)
    ensures Bit(SetBit(w, i), j) <==> j == i || Bit(w, j)
  {
    if i > 0 && j > 0 {
      BitOfSet(w / 2, i - 1, j - 1);
      assert SetBit(w, i) / 2 == SetBit(w / 2, i - 1);
    } else if j > 0 {
      assert SetBit(w, i) / 2 == w / 2;
    }
  }

  lemma {:induction false} BitOfClear(w: nat, i: nat, j: nat)
    ensures Bit(ClearBit(w, i), j) <==> j != i && Bit(w, j)
  {
    if i > 0 && j > 0 {
      BitOfClear(w / 2, i - 1, j - 1);
      assert ClearBit(w, i) / 2 == ClearBit(w / 2, i - 1);
    } else if j > 0 {
      assert ClearBit(w, i) / 2 == w / 2;
    }
  }

  lemma {:induction false} ClearAbsent(w: nat, i: nat)
    requires !Bit(w, i)
    ensures ClearBit(w, i) == w
  {
    if i > 0 { ClearAbsent(w / 2, i - 1); }
  }

  lemma {:induction false} SetPresent(w: nat, i: nat)
    requires Bit(w, i)
    ensures SetBit(w, i) == w
  {
    if i > 0 { SetPresent(w / 2, i - 1); }
  }

  lemma {:induction false} ClearShrinks(w: nat, i: nat)
    ensures ClearBit(w, i) <= w
  {
    if i > 0 { ClearShrinks(w / 2, i - 1); }
  }
}
