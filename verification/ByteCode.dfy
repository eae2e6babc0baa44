/**
 Reading byte code: where the items of a program stand in it, and the tests that
 `advance` makes on one character of the text.
 */
module ByteCode {
  import opened Bytes
  import opened Bitmaps
  import opened Program

  // ----- character tests -----

  predicate IsSingle(op: byte) {
    op == CCHR || op == CDOT || op == CXCL || op == CCL || op == NCCL
  }

  /** Operand bytes of a single-character opcode. */
  function Width(op: byte): nat {
    if op == CCHR then 1
    else if op == CXCL then 32
    else if op == CCL || op == NCCL then 16
    else 0
  }

  /** The condition on which the plain form goes on and the starred form keeps counting. */
  predicate Test(code: seq<byte>, ep: nat, op: byte, c: byte)
    requires ep + Width(op) <= |code|
  {
    if op == CCHR then code[ep] == c
    else if op == CDOT then c != 0
    else if op == CXCL then IsThere(code, ep, c)
    else if op == CCL || op == NCCL then
      (And(c, 0x80) == 0 && (SignBit(c); IsThere(code, ep, c))) != (op == NCCL)
    else false
  }

  /** The condition on which the interval form stops counting. */
  predicate RangeRejects(code: seq<byte>, ep: nat, op: byte, c: byte)
    requires ep + Width(op) <= |code|
  {
    if op == CCHR then c != code[ep]
    else if op == CDOT then c == 0
    else if op == CXCL then !IsThere(code, ep, c)
    else if op == CCL || op == NCCL then
      (And(c, 0x80) != 0 || (SignBit(c); !IsThere(code, ep, c))) != (op == NCCL)
    else true
  }

  /** Every form of a single-character opcode accepts exactly the characters its atom stands for. */
  lemma TestIsAccepts(a: Atom, code: seq<byte>, ep: nat, c: byte)
    requires GoodAtom(a) && ep <= |code| && Operand(One(a)) <= code[ep..]
    ensures IsSingle(AtomOp(a)) && |Operand(One(a))| == Width(AtomOp(a))
    ensures Test(code, ep, AtomOp(a), c) <==> Accepts(a, c)
    ensures RangeRejects(code, ep, AtomOp(a), c) <==> !Accepts(a, c)
    ensures !Accepts(a, 0)
  {
    if a.Set? { SetTest(a, code, ep, c); }
  }

  /** What the map of a class holds. */
  ghost function HeldBy(a: Atom): set<byte>
    requires a.Set?
  {
    if Wide(a.members) then if a.neg then Complement(a.members) else a.members
    else if a.neg then a.members + {0} else a.members
  }

  lemma MapTest(a: Atom, code: seq<byte>, ep: nat, c: byte)
    requires a.Set? && ep <= |code| && Operand(One(a)) <= code[ep..]
    requires c / 8 < Width(AtomOp(a))
    ensures IsThere(code, ep, c) <==> c in HeldBy(a)
  {
    var m := Operand(One(a));
    assert m == Bitmap(HeldBy(a), |m|);
    BitmapHolds(HeldBy(a), |m|);
    IsThereIsBit(code, ep, c);
    assert code[ep + c / 8] == code[ep..][c / 8] == m[c / 8];
  }

  lemma SetTest(a: Atom, code: seq<byte>, ep: nat, c: byte)
    requires a.Set? && GoodAtom(a) && ep <= |code| && Operand(One(a)) <= code[ep..]
    ensures |Operand(One(a))| == Width(AtomOp(a))
    ensures Test(code, ep, AtomOp(a), c) <==> Accepts(a, c)
    ensures RangeRejects(code, ep, AtomOp(a), c) <==> !Accepts(a, c)
  {
    SignBit(c);
    if c / 8 < Width(AtomOp(a)) { MapTest(a, code, ep, c); }
  }

  // ----- placement -----

  /** The code of items `t`, `t+1`, ... stands at `ep`. */
  ghost predicate Placed(code: seq<byte>, ep: nat, p: seq<Item>, t: nat) {
    ep <= |code| && t <= |p| && CodeFrom(p, t) <= code[ep..]
  }

  /** Bytes of an item behind its opcode. */
  ghost function Tail(x: Item): nat {
    |Operand(x.base)| + (if x.ranges != [] then 2 else 0)
  }

  lemma PlacedItem(code: seq<byte>, ep: nat, p: seq<Item>, t: nat)
    requires Placed(code, ep, p, t) && t < |p| && Shaped(p[t])
    ensures ep + 1 + Tail(p[t]) < |code|
    ensures code[ep] == Opcode(p[t])
    ensures Operand(p[t].base) <= code[ep + 1..]
    ensures p[t].ranges != [] ==>
      var at := ep + 1 + |Operand(p[t].base)|;
      code[at] == p[t].ranges[0].lo && code[at + 1] == p[t].ranges[0].hi
    ensures Placed(code, ep + 1 + Tail(p[t]), p, t + 1)
  {
    hide Opcode, Operand, ItemCode, Shaped;
    var x := p[t];
    var m, n := ItemCode(x), CodeFrom(p, t + 1);
    ItemBytes(x);
    assert CodeFrom(p, t) == m + n && |n| >= 1;
    hide CodeFrom;
    Window(code, ep, m, n);
    assert code[ep + 1..][..|Operand(x.base)|] == m[1..1 + |Operand(x.base)|];
    assert forall y :: 0 <= y < |m| ==> code[ep + y] == m[y];
  }

  /** The bytes of an item with at most one interval. */
  lemma {:induction false} ItemBytes(x: Item)
    requires Shaped(x)
    ensures var m, w := ItemCode(x), |Operand(x.base)|;
      && |m| == 1 + Tail(x) && m[0] == Opcode(x) && m[1..1 + w] == Operand(x.base)
      && (x.ranges != [] ==> m[1 + w] == x.ranges[0].lo && m[2 + w] == x.ranges[0].hi)
  {
    hide Opcode, Operand, GoodAtom;
    if x.ranges != [] {
      assert x.ranges == [x.ranges[0]];
      assert RangeCode(x.ranges[..0]) == [];
      assert RangeCode(x.ranges) == [x.ranges[0].lo, x.ranges[0].hi];
    }
  }

  lemma {:induction false} Window(code: seq<byte>, ep: nat, m: seq<byte>, n: seq<byte>)
    requires ep <= |code| && m + n <= code[ep..]
    ensures ep + |m| + |n| <= |code| && code[ep..ep + |m|] == m && n <= code[ep + |m|..]
  {
    assert code[ep..][..|m| + |n|] == m + n;
    assert code[ep + |m|..][..|n|] == (m + n)[|m|..] == n;
  }

  lemma PlacedEnd(code: seq<byte>, ep: nat, p: seq<Item>)
    requires Placed(code, ep, p, |p|)
    ensures ep < |code| && code[ep] == CCEOF
  {
    assert code[ep] == code[ep..][0];
  }

  /** The opcode tells the kind of the item. */
  lemma OpcodeOf(x: Item)
    requires Shaped(x)
    ensures match x.base {
      case One(a) =>
        var n := Opcode(x) - AtomOp(a);
        match SuffixOf(x) { case Once => n == 0 case Star => n == STAR case Between(_, _) => n == RNGE }
      case Dol => Opcode(x) == CDOL
      case Open(_) => Opcode(x) == CBRA
      case Close(_) => Opcode(x) == CKET
      case Back(_) => Opcode(x) == if x.star then CBACK + STAR else CBACK
    }
  {
    hide OrStar, OrRange, Wide;
    OpcodeBits(BaseOp(x.base));
  }
}
