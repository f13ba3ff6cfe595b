/** Shift and or on 64-bit words, bit by bit. */
module Words {
  import opened Bytes

  const BITS: nat := 64

  function Power2(s: nat): (p: nat)
    ensures p > 0
  {
    if s == 0 then 1 else 2 * Power2(s - 1)
  }

  lemma PowerOfWord()
    ensures Power2(BITS) == U64
  {
    assert Power2(10) == 0x400;
    assert Power2(20) == 0x10_0000;
    assert Power2(30) == 0x4000_0000;
    assert Power2(40) == 0x100_0000_0000;
    assert Power2(50) == 0x4_0000_0000_0000;
    assert Power2(60) == 0x1000_0000_0000_0000;
  }

  /** The bitwise or, from the lowest bit up. */
  function BitOr(x: nat, y: nat): nat {
    if x == 0 then y
    else if y == 0 then x
    else (if x % 2 == 1 || y % 2 == 1 then 1 else 0) + 2 * BitOr(x / 2, y / 2)
  }

  lemma {:induction false} OrFits(x: nat, y: nat, s: nat)
    requires x < Power2(s) && y < Power2(s)
    ensures BitOr(x, y) < Power2(s)
    decreases s
  {
    if x == 0 || y == 0 {
    } else {
      OrFits(x / 2, y / 2, s - 1);
    }
  }

  function Or(x: u64, y: u64): u64 {
    PowerOfWord();
    OrFits(x, y, BITS);
    BitOr(x, y)
  }

  function ShiftLeft(x: nat, s: nat): u64 {
    x * Power2(s) % U64
  }

  /** Where the words have no bit in common because one has none below `s` and the other none from `s` on, the or
      is the sum. */
  lemma {:induction false} OrIsSum(x: nat, y: nat, s: nat)
    requires x < Power2(s)
    ensures BitOr(x, y * Power2(s)) == x + y * Power2(s)
    decreases s
  {
    if s == 0 {
    } else {
      var half := y * Power2(s - 1);
      assert y * Power2(s) == 2 * half;
      OrIsSum(x / 2, y, s - 1);
      assert 2 * half / 2 == half;
    }
  }
}
