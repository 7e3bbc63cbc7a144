/** Words as numbers: single bits, and the bitwise "or" and "and not" that layers are switched with. */
module LayerWord {
  import opened MatrixBits

  const WORD := 0x1_0000

  predicate TestAt(x: nat, i: nat) { if i == 0 then x % 2 == 1 else TestAt(x / 2, i - 1) }

  /** 1 << i, for the bits of a word. */
  function OneAt(i: nat): (x: nat)
    requires i < 16
    ensures 0 < x < WORD
  {
    OneBelow(i, 16);
    assert Power2(6) == 64 && Power2(11) == 2048 && Power2(16) == WORD;
    Power2(i)
  }

  lemma {:induction false} OneBelow(i: nat, n: nat)
    requires i < n
    ensures 0 < Power2(i) < Power2(n)
  {
    if i > 0 {
      OneBelow(i - 1, n - 1);
    }
  }

  function Or(x: nat, y: nat): nat {
    if x == 0 then y else 2 * Or(x / 2, y / 2) + (if x % 2 == 1 || y % 2 == 1 then 1 else 0)
  }

  function AndNot(x: nat, y: nat): nat {
    if x == 0 then 0 else 2 * AndNot(x / 2, y / 2) + (if x % 2 == 1 && y % 2 == 0 then 1 else 0)
  }

  lemma {:induction false} TestZero(i: nat)
    ensures !TestAt(0, i)
  {
    if i > 0 {
      TestZero(i - 1);
    }
  }

  lemma {:induction false} TestOr(x: nat, y: nat, i: nat)
    ensures TestAt(Or(x, y), i) <==> TestAt(x, i) || TestAt(y, i)
    decreases i
  {
    if x == 0 {
      TestZero(i);
    } else if i > 0 {
      TestOr(x / 2, y / 2, i - 1);
      assert Or(x, y) / 2 == Or(x / 2, y / 2);
    }
  }

  lemma {:induction false} TestAndNot(x: nat, y: nat, i: nat)
    ensures TestAt(AndNot(x, y), i) <==> TestAt(x, i) && !TestAt(y, i)
    decreases i
  {
    if x == 0 {
      TestZero(i);
    } else if i > 0 {
      TestAndNot(x / 2, y / 2, i - 1);
      assert AndNot(x, y) / 2 == AndNot(x / 2, y / 2);
    }
  }

  /** Masking with a single bit tests it. */
  lemma {:induction false} MaskTest(x: nat, i: nat)
    requires i < 16
    ensures And(x, OneAt(i)) != 0 <==> TestAt(x, i)
  {
    MaskTests(x, i);
  }

  lemma {:induction false} MaskTests(x: nat, i: nat)
    ensures And(x, Power2(i)) != 0 <==> TestAt(x, i)
    decreases i
  {
    if x == 0 {
      TestZero(i);
    } else if i > 0 {
      MaskTests(x / 2, i - 1);
      assert Power2(i) / 2 == Power2(i - 1) && Power2(i) % 2 == 0;
    }
  }
}
