/** The character-class bitmaps written by PLACE and read by ISTHERE. */
module Bitmaps {
  import opened Bytes

  const BITTAB: seq<byte> := [1, 2, 4, 8, 16, 32, 64, 128]

  /** ISTHERE(c): the bit of `c` is on in the map that starts at `ep`. */
  predicate IsThere(code: seq<byte>, ep: nat, c: byte)
    requires ep + c / 8 < |code|
  {
    And(code[ep + c / 8], BITTAB[c % 8]) != 0
  }

  /** One byte of the map, after PLACE(c) has been applied to it. */
  function PlaceIn(b: byte, c: byte): (r: byte)
    ensures forall k :: 0 <= k < 8 ==> (Bit(r, k) <==> Bit(b, k) || k == c % 8)
  {
    BitTable(c % 8);
    assert Pow2(8) == 256 by { Pow2Eight(); }
    OpsBound(b, BITTAB[c % 8], 8);
    assert forall k :: 0 <= k < 8 ==> (Bit(Or(b, BITTAB[c % 8]), k) <==> Bit(b, k) || k == c % 8) by {
      forall k | 0 <= k < 8 ensures Bit(Or(b, BITTAB[c % 8]), k) <==> Bit(b, k) || k == c % 8 {
        OrBits(b, BITTAB[c % 8], k);
        Pow2Bits(c % 8, k);
      }
    }
    Or(b, BITTAB[c % 8])
  }

  /** The map holds exactly the members of `members` below 8 * |bitmap|. */
  ghost predicate Holds(bitmap: seq<byte>, members: set<byte>) {
    forall c: byte :: c / 8 < |bitmap| ==> (Bit(bitmap[c / 8], c % 8) <==> c in members)
  }

  /** The map of a set, as one number per eight characters. */
  function Pack(members: set<byte>, first: nat, n: nat): (r: nat)
    requires first + n <= 256
    ensures r < Pow2(n)
    decreases n
  {
    if n == 0 then 0
    else 2 * Pack(members, first + 1, n - 1) + (if first in members then 1 else 0)
  }

  function Bitmap(members: set<byte>, n: nat): (r: seq<byte>)
    requires n <= 32
    ensures |r| == n
  {
    Pow2Eight();
    seq(n, i requires 0 <= i < n => Pack(members, 8 * i, 8))
  }

  function MembersOf(bitmap: seq<byte>): set<byte>
    requires |bitmap| <= 32
  {
    set c: byte | c / 8 < |bitmap| && IsThere(bitmap, 0, c)
  }

  lemma Pow2Eight()
    ensures Pow2(8) == 256
  {
    assert Pow2(4) == 16;
  }

  lemma BitTable(k: nat)
    requires k < 8
    ensures BITTAB[k] == Pow2(k)
  {
    assert Pow2(4) == 16;
    assert Pow2(5) == 32 && Pow2(6) == 64 && Pow2(7) == 128;
  }

  lemma {:induction false} PackBits(members: set<byte>, first: nat, n: nat, k: nat)
    requires first + n <= 256 && k < n
    ensures Bit(Pack(members, first, n), k) <==> first + k in members
    decreases n
  {
    if k != 0 { PackBits(members, first + 1, n - 1, k - 1); }
  }

  /** ISTHERE reads the bit that PLACE sets. */
  lemma IsThereIsBit(code: seq<byte>, ep: nat, c: byte)
    requires ep + c / 8 < |code|
    ensures IsThere(code, ep, c) <==> Bit(code[ep + c / 8], c % 8)
  {
    var b, m := code[ep + c / 8], BITTAB[c % 8];
    BitTable(c % 8);
    Pow2Eight();
    AndBits(b, m, c % 8);
    Pow2Bits(c % 8, c % 8);
    ZeroHasNoBits(c % 8);
    if And(b, m) != 0 && !Bit(b, c % 8) {
      OpsBound(b, m, 8);
      forall k | 0 <= k < 8 ensures Bit(And(b, m), k) == Bit(0, k) {
        AndBits(b, m, k);
        Pow2Bits(c % 8, k);
        ZeroHasNoBits(k);
      }
      SameBits(And(b, m), 0, 8);
      assert false;
    }
  }

  lemma BitmapHolds(members: set<byte>, n: nat)
    requires n <= 32
    ensures Holds(Bitmap(members, n), members)
  {
    forall c: byte | c / 8 < n
      ensures Bit(Bitmap(members, n)[c / 8], c % 8) <==> c in members
    {
      PackBits(members, 8 * (c / 8), 8, c % 8);
    }
  }

  /** The bytes of a map are determined by the set it holds. */
  lemma BitmapUnique(bitmap: seq<byte>, members: set<byte>)
    requires |bitmap| <= 32
    requires Holds(bitmap, members)
    ensures bitmap == Bitmap(members, |bitmap|)
  {
    var r := Bitmap(members, |bitmap|);
    BitmapHolds(members, |bitmap|);
    forall i | 0 <= i < |bitmap| ensures bitmap[i] == r[i] {
      forall k | 0 <= k < 8 ensures Bit(bitmap[i], k) == Bit(r[i], k) {
        var c: byte := 8 * i + k;
        assert c / 8 == i && c % 8 == k;
      }
      Pow2Eight();
      SameBits(bitmap[i], r[i], 8);
    }
  }

  /** Reading a written map back gives the set, cut to the map's width. */
  lemma BitmapMembers(members: set<byte>, n: nat)
    requires n <= 32
    ensures MembersOf(Bitmap(members, n)) == set c | c in members && c / 8 < n
  {
    var bm := Bitmap(members, n);
    BitmapHolds(members, n);
    forall c: byte | c / 8 < n ensures IsThere(bm, 0, c) <==> c in members {
      IsThereIsBit(bm, 0, c);
    }
  }

  /** c & 0200 */
  lemma SignBit(c: byte)
    ensures And(c, 0x80) == 0 <==> c < 128
  {
    HighBit(c);
    IsThereIsBit([c, 0, 0, 0, 0, 0, 0, 0, 0, 0, 0, 0, 0, 0, 0, 0], 0, 7);
  }
}
