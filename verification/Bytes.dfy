/**
 Bytes, the C bit operators on them, and the NUL-terminated strings they form.

 A C string is modelled by the sequence of bytes before its terminating NUL.
 */
module Bytes {

  type byte = x: int | 0 <= x < 256

  ghost predicate NulFree(s: seq<byte>) {
    forall x :: 0 <= x < |s| ==> s[x] != 0
  }

  /** `s[i]` of a NUL-terminated string: the terminator may be read, nothing beyond it. */
  function CharAt(s: seq<byte>, i: nat): byte
    requires i <= |s|
  {
    if i < |s| then s[i] else 0
  }

  /** The pattern cursor: GETC and PEEKC deliver 0 for ever once the pattern is used up. */
  function Peek(pat: seq<byte>, i: nat): byte {
    if i < |pat| then pat[i] else 0
  }

  // ----- bit operators -----

  predicate Bit(a: nat, k: nat) {
    if k == 0 then a % 2 == 1 else Bit(a / 2, k - 1)
  }

  function Or(a: nat, b: nat): nat
    decreases a + b
  {
    if a == 0 && b == 0 then 0
    else 2 * Or(a / 2, b / 2) + (if a % 2 == 1 || b % 2 == 1 then 1 else 0)
  }

  function And(a: nat, b: nat): nat {
    if a == 0 then 0
    else 2 * And(a / 2, b / 2) + (if a % 2 == 1 && b % 2 == 1 then 1 else 0)
  }

  function Xor(a: nat, b: nat): nat
    decreases a + b
  {
    if a == 0 && b == 0 then 0
    else 2 * Xor(a / 2, b / 2) + (if a % 2 != b % 2 then 1 else 0)
  }

  function Pow2(n: nat): nat
    ensures Pow2(n) > 0
  {
    if n == 0 then 1 else 2 * Pow2(n - 1)
  }

  lemma {:induction false} ZeroHasNoBits(k: nat)
    ensures !Bit(0, k)
  {
    if k != 0 { ZeroHasNoBits(k - 1); }
  }

  lemma {:induction false} OrBits(a: nat, b: nat, k: nat)
    ensures Bit(Or(a, b), k) <==> Bit(a, k) || Bit(b, k)
    decreases k
  {
    if a == 0 && b == 0 {
      ZeroHasNoBits(k);
    } else if k != 0 {
      OrBits(a / 2, b / 2, k - 1);
    }
  }

  lemma {:induction false} AndBits(a: nat, b: nat, k: nat)
    ensures Bit(And(a, b), k) <==> Bit(a, k) && Bit(b, k)
    decreases k
  {
    if a == 0 {
      ZeroHasNoBits(k);
    } else if k != 0 {
      AndBits(a / 2, b / 2, k - 1);
    }
  }

  lemma {:induction false} XorBits(a: nat, b: nat, k: nat)
    ensures Bit(Xor(a, b), k) <==> Bit(a, k) != Bit(b, k)
    decreases k
  {
    if a == 0 && b == 0 {
      ZeroHasNoBits(k);
    } else if k != 0 {
      XorBits(a / 2, b / 2, k - 1);
    }
  }

  lemma {:induction false} Pow2Bits(n: nat, k: nat)
    ensures Bit(Pow2(n), k) <==> k == n
    decreases k
  {
    if n == 0 {
      if k != 0 { ZeroHasNoBits(k - 1); }
    } else if k != 0 {
      Pow2Bits(n - 1, k - 1);
    }
  }

  /** `n` bits stay `n` bits. */
  lemma {:induction false} OpsBound(a: nat, b: nat, n: nat)
    requires a < Pow2(n) && b < Pow2(n)
    ensures Or(a, b) < Pow2(n) && And(a, b) < Pow2(n) && Xor(a, b) < Pow2(n)
    decreases n
  {
    if n != 0 { OpsBound(a / 2, b / 2, n - 1); }
  }

  /** A number below 2^n is determined by its low n bits. */
  lemma {:induction false} SameBits(a: nat, b: nat, n: nat)
    requires a < Pow2(n) && b < Pow2(n)
    requires forall k :: 0 <= k < n ==> Bit(a, k) == Bit(b, k)
    ensures a == b
    decreases n
  {
    if n != 0 {
      assert Bit(a, 0) == Bit(b, 0);
      forall k | 0 <= k < n - 1 ensures Bit(a / 2, k) == Bit(b / 2, k) {
        assert Bit(a, k + 1) == Bit(b, k + 1);
      }
      SameBits(a / 2, b / 2, n - 1);
    }
  }

  /** x & 0377 keeps eight bits, x & 0200 is the sign bit of a char: the masks of the class tests. */
  lemma HighBit(c: byte)
    ensures Bit(c, 7) <==> c >= 128
  {
    assert Bit(c, 7) == (c / 2 / 2 / 2 / 2 / 2 / 2 / 2 % 2 == 1) by {
      assert Bit(c, 7) == Bit(c / 2, 6) == Bit(c / 2 / 2, 5) == Bit(c / 2 / 2 / 2, 4);
      assert Bit(c / 2 / 2 / 2, 4) == Bit(c / 2 / 2 / 2 / 2, 3) == Bit(c / 2 / 2 / 2 / 2 / 2, 2);
    }
  }
}
