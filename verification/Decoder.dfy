/**
 Reading a program back from its byte code.
 */
module Decoder {
  import opened Bytes
  import opened Bitmaps
  import opened Program
  import opened ByteCode
  import opened Semantics

  function DecodeAtom(b: seq<byte>, op: byte): Atom
    requires IsSingle(op) && 1 + Width(op) <= |b|
  {
    if op == CCHR then Chr(b[1])
    else if op == CDOT then Any
    else if op == CXCL then Set(false, MembersOf(b[1..33]))
    else if op == NCCL then Set(true, MembersOf(b[1..17]) - {0})
    else Set(false, MembersOf(b[1..17]))
  }

  /** The first item of the code and its length. */
  function DecodeItem(b: seq<byte>): (r: Option<(Item, nat)>)
    requires b != []
    ensures r.Some? ==> 0 < r.value.1 <= |b|
  {
    var op := b[0];
    var flag := op % 4;
    if op == CDOL then Some((Item(Dol, false, []), 1))
    else if op == CBRA && |b| > 1 then Some((Item(Open(b[1]), false, []), 2))
    else if op == CKET && |b| > 1 then Some((Item(Close(b[1]), false, []), 2))
    else if (op == CBACK || op == CBACK + STAR) && |b| > 1 then Some((Item(Back(b[1]), op != CBACK, []), 2))
    else if IsSingle(op - flag) && flag != RNGE && flag <= STAR && 1 + Width(op - flag) <= |b| then
      Some((Item(One(DecodeAtom(b, op - flag)), flag == STAR, []), 1 + Width(op - flag)))
    else if IsSingle(op - flag) && flag == RNGE && 3 + Width(op - flag) <= |b| then
      var w := 1 + Width(op - flag);
      Some((Item(One(DecodeAtom(b, op - flag)), false, [Range(b[w], b[w + 1])]), w + 2))
    else None
  }

  /** A whole program: items up to a CCEOF that is the last byte. */
  function Decode(b: seq<byte>): Option<seq<Item>> {
    if b == [] then None
    else if b[0] == CCEOF then if |b| == 1 then Some([]) else None
    else
      match DecodeItem(b)
      case None => None
      case Some((x, n)) =>
        match Decode(b[n..])
        case None => None
        case Some(xs) => Some([x] + xs)
  }

  /** What survives in the code: an interval absorbs a star, a wide complement is written out. */
  function Normal(x: Item): Item {
    var base := match x.base
      case One(Set(neg, members)) =>
        if neg && Wide(members) then One(Set(false, Complement(members)))
        else if neg then One(Set(true, members - {0}))
        else x.base
      case _ => x.base;
    Item(base, x.star && x.ranges == [], x.ranges)
  }

  function NormalAll(p: seq<Item>, t: nat): seq<Item>
    requires t <= |p|
    decreases |p| - t
  {
    if t == |p| then [] else [Normal(p[t])] + NormalAll(p, t + 1)
  }

  /** The code says how long the item is. */
  predicate Decodable(x: Item) {
    match x.base
    case One(_) => |x.ranges| <= 1
    case Back(_) => x.ranges == []
    case _ => !x.star && x.ranges == []
  }

  ghost predicate DecodableAll(p: seq<Item>) {
    forall t :: 0 <= t < |p| ==> Decodable(p[t])
  }

  lemma {:induction false} NormalMeans(x: Item, c: byte)
    ensures SuffixOf(Normal(x)) == SuffixOf(x)
    ensures x.base.One? ==> Normal(x).base.One? && (Accepts(Normal(x).base.atom, c) <==> Accepts(x.base.atom, c))
    ensures !x.base.One? ==> Normal(x).base == x.base
  {
  }

  lemma {:induction false} DecodeClass(neg: bool, members: set<byte>, b: seq<byte>)
    requires var w := Width(AtomOp(Set(neg, members)));
      1 + w <= |b| && b[1..1 + w] == MapOf(neg, members)
    ensures One(DecodeAtom(b, AtomOp(Set(neg, members)))) == Normal(Item(One(Set(neg, members)), false, [])).base
  {
    var w := Width(AtomOp(Set(neg, members)));
    var held := if Wide(members) then if neg then Complement(members) else members
                else if neg then members + {0} else members;
    ReadBack(b, w, held);
    hide Bitmap, MembersOf, Complement;
    if neg && !Wide(members) { assert held - {0} == members - {0}; }
  }

  lemma {:induction false} ReadBack(b: seq<byte>, w: nat, held: set<byte>)
    requires w <= 32 && 1 + w <= |b| && b[1..1 + w] == Bitmap(held, w) && forall c :: c in held ==> c / 8 < w
    ensures MembersOf(b[1..1 + w]) == held
  {
    BitmapMembers(held, w);
    assert (set c | c in held && c / 8 < w) == held;
  }

  /** The opcode of a decodable item, by its kind. */
  lemma {:induction false} OpcodeKind(x: Item)
    requires Decodable(x)
    ensures x.base.One? ==>
      var flag := if x.ranges != [] then RNGE else if x.star then STAR else 0;
      Opcode(x) == AtomOp(x.base.atom) + flag && Opcode(x) % 4 == flag
    ensures x.base.Back? ==> Opcode(x) == if x.star then CBACK + STAR else CBACK
    ensures !x.base.One? && !x.base.Back? ==> Opcode(x) == BaseOp(x.base)
  {
    hide OrStar, OrRange;
    OpcodeBits(BaseOp(x.base));
  }

  /** Opcode, operand and bounds stand where they are looked for. */
  lemma {:induction false} CodeParts(x: Item, rest: seq<byte>)
    requires |x.ranges| <= 1
    ensures var b, w := ItemCode(x) + rest, |Operand(x.base)|;
      && |ItemCode(x)| == 1 + w + 2 * |x.ranges| && b[0] == Opcode(x) && b[1..1 + w] == Operand(x.base)
      && (x.ranges != [] ==> b[1 + w] == x.ranges[0].lo && b[2 + w] == x.ranges[0].hi)
  {
    hide Opcode, Operand;
    if x.ranges != [] {
      assert x.ranges == [x.ranges[0]] && RangeCode(x.ranges[..0]) == [];
      assert RangeCode(x.ranges) == [x.ranges[0].lo, x.ranges[0].hi];
    }
  }

  lemma {:induction false} DecodeSingle(x: Item, rest: seq<byte>)
    requires Decodable(x) && x.base.One?
    ensures DecodeItem(ItemCode(x) + rest) == Some((Normal(x), |ItemCode(x)|))
  {
    hide Opcode, Wide, Bitmap, ItemCode, RangeCode;
    var b, op := ItemCode(x) + rest, AtomOp(x.base.atom);
    var w := |Operand(x.base)|;
    assert w == Width(op) && IsSingle(op);
    OpcodeKind(x);
    CodeParts(x, rest);
    if x.ranges != [] { assert x.ranges == [x.ranges[0]]; }
    match x.base.atom
    case Chr(c) => assert b[1] == c;
    case Any =>
    case Set(neg, members) => DecodeClass(neg, members, b);
  }

  lemma {:induction false} DecodeFirst(x: Item, rest: seq<byte>)
    requires Decodable(x)
    ensures DecodeItem(ItemCode(x) + rest) == Some((Normal(x), |ItemCode(x)|))
    ensures ItemCode(x)[0] != CCEOF
  {
    OpcodeKind(x);
    if x.base.One? {
      DecodeSingle(x, rest);
    } else {
      assert ItemCode(x) == [Opcode(x)] + Operand(x.base);
    }
  }

  lemma {:induction false} DecodeFrom(p: seq<Item>, t: nat)
    requires t <= |p| && forall u :: t <= u < |p| ==> Decodable(p[u])
    ensures Decode(CodeFrom(p, t)) == Some(NormalAll(p, t))
    decreases |p| - t
  {
    if t < |p| {
      hide ItemCode, DecodeItem, Normal, Decodable;
      var m, rest := ItemCode(p[t]), CodeFrom(p, t + 1);
      DecodeFirst(p[t], rest);
      DecodeFrom(p, t + 1);
      assert (m + rest)[|m|..] == rest;
    }
  }

  lemma {:induction false} DecodedIsDecodable(b: seq<byte>, xs: seq<Item>, t: nat)
    requires Decode(b) == Some(xs) && t < |xs|
    ensures Decodable(xs[t])
    decreases |b|
  {
    var n := DecodeItem(b).value.1;
    if t > 0 { DecodedIsDecodable(b[n..], xs[1..], t - 1); }
  }

  lemma {:induction false} NormalAt(p: seq<Item>, t: nat, u: nat)
    requires t <= u < |p|
    ensures |NormalAll(p, t)| == |p| - t && NormalAll(p, t)[u - t] == Normal(p[u])
    decreases u - t
  {
    if t < u { NormalAt(p, t + 1, u); } else { NormalLength(p, t + 1); }
  }

  lemma {:induction false} NormalLength(p: seq<Item>, t: nat)
    requires t <= |p|
    ensures |NormalAll(p, t)| == |p| - t
    decreases |p| - t
  {
    if t < |p| { NormalLength(p, t + 1); }
  }

  /** A program is read back from its code, with its one CCEOF at the end, exactly when no item carries a second
      interval, or an interval or star that its opcode does not know. */
  lemma {:induction false} DecodeIff(p: seq<Item>)
    ensures Decode(Code(p)) == Some(NormalAll(p, 0)) <==> DecodableAll(p)
  {
    hide Decode, Code, Normal;
    if DecodableAll(p) {
      DecodeFrom(p, 0);
      CodeIs(p);
    }
    if Decode(Code(p)) == Some(NormalAll(p, 0)) {
      forall t | 0 <= t < |p| ensures Decodable(p[t]) {
        NormalAt(p, 0, t);
        DecodedIsDecodable(Code(p), NormalAll(p, 0), t);
        NormalDecodable(p[t]);
      }
    }
  }

  lemma {:induction false} CodeIs(p: seq<Item>)
    ensures Code(p) == CodeFrom(p, 0)
  {
  }

  lemma {:induction false} NormalDecodable(x: Item)
    requires Decodable(Normal(x))
    ensures Decodable(x)
  {
  }

  // ----- what is read back means the same -----

  lemma {:induction false} NormalItem(e: Env, f: Env, x: Item, i: nat, c: Caps, k: nat)
    requires e.s == f.s && e.locs == f.locs && i <= |e.s| && Decodable(x)
    ensures Feasible(e, x, i, c, k) <==> Feasible(f, Normal(x), i, c, k)
    ensures NextPos(e, x, i, c, k) == NextPos(f, Normal(x), i, c, k)
    ensures NextCaps(x, i, c) == NextCaps(Normal(x), i, c)
    ensures Stuck(e, x, c) <==> Stuck(f, Normal(x), c)
  {
    if x.base.One? {
      forall b: byte ensures Accepts(Normal(x).base.atom, b) <==> Accepts(x.base.atom, b) { NormalMeans(x, b); }
    }
    NormalMeans(x, 0);
    hide Normal, Accepts, SuffixOf, Captured, Power;
  }

  /** `q` is `p` with every item in its normal form. */
  ghost predicate IsNormal(p: seq<Item>, q: seq<Item>) {
    |q| == |p| && forall t :: 0 <= t < |p| ==> q[t] == Normal(p[t])
  }

  lemma {:induction false} NormalAllIs(p: seq<Item>)
    ensures IsNormal(p, NormalAll(p, 0))
  {
    hide Normal;
    NormalLength(p, 0);
    forall t | 0 <= t < |p| ensures NormalAll(p, 0)[t] == Normal(p[t]) { NormalAt(p, 0, t); }
  }

  /** The program that is read back has the same derivations, with the same ends and captures. */
  lemma {:induction false} NormalDerives(e: Env, q: seq<Item>, t: nat, i: nat, c: Caps, ks: seq<nat>)
    requires DecodableAll(e.p) && IsNormal(e.p, q)
    ensures Derives(e.(p := q), t, i, c, ks) <==> Derives(e, t, i, c, ks)
    ensures Derives(e, t, i, c, ks) ==> Exec(e.(p := q), t, i, c, ks) == Exec(e, t, i, c, ks)
    decreases ks
  {
    hide Feasible, NextPos, NextCaps, Normal, Decodable;
    if t < |e.p| && i <= |e.s| && |ks| == |e.p| - t {
      var x, k := e.p[t], ks[0];
      NormalItem(e, e.(p := q), x, i, c, k);
      if Feasible(e, x, i, c, k) {
        NextPosBound(e, x, i, c, k);
        NormalDerives(e, q, t + 1, NextPos(e, x, i, c, k), NextCaps(x, i, c), ks[1..]);
      }
    }
  }

  lemma {:induction false} NormalStuck(e: Env, q: seq<Item>, t: nat, i: nat, c: Caps, qs: seq<nat>)
    requires DecodableAll(e.p) && IsNormal(e.p, q)
    ensures LeadsToStuck(e.(p := q), t, i, c, qs) <==> LeadsToStuck(e, t, i, c, qs)
    decreases qs
  {
    hide Feasible, NextPos, NextCaps, Normal, Decodable, Stuck;
    if t < |e.p| && i <= |e.s| {
      var x, k := e.p[t], if qs == [] then 0 else qs[0];
      NormalItem(e, e.(p := q), x, i, c, k);
      if qs != [] {
        NormalStuck(e, q, t + 1, NextPos(e, x, i, c, k), NextCaps(x, i, c), qs[1..]);
      }
    }
  }

  /** Nor are the groups different. */
  lemma {:induction false} NormalGroups(p: seq<Item>, q: seq<Item>, t: nat, c: Caps, d: Caps)
    requires IsNormal(p, q)
    ensures Similar(q, t, c, d) <==> Similar(p, t, c, d)
  {
    forall x | 0 <= x < |p|
      ensures forall g: byte ::
        (p[x].base == Open(g) <==> q[x].base == Open(g)) && (p[x].base == Close(g) <==> q[x].base == Close(g))
    {
      NormalMeans(p[x], 0);
    }
    hide Normal;
    forall g: byte ensures OpenedBefore(p, t, g) <==> OpenedBefore(q, t, g) { }
    forall g: byte ensures ClosedBefore(p, t, g) <==> ClosedBefore(q, t, g) { }
  }

  lemma {:induction false} ShapedDecodable(p: seq<Item>)
    requires ShapedAll(p)
    ensures DecodableAll(p)
  {
    forall t | 0 <= t < |p| ensures Decodable(p[t]) { assert Shaped(p[t]); }
  }
}
