/**
 The compiled program: a list of items, and its byte code.

 An item is an opcode with its operand, an optional STAR, and the bounds of the
 intervals written after it.
 */
module Program {
  import opened Bytes
  import opened Bitmaps

  const CBRA: byte := 2
  const CCHR: byte := 4
  const CDOT: byte := 8
  const CCL: byte := 12
  const CXCL: byte := 16
  const CDOL: byte := 20
  const CCEOF: byte := 22
  const CKET: byte := 24
  const CBACK: byte := 36
  const NCCL: byte := 40

  const STAR: byte := 1
  const RNGE: byte := 3

  const NBRA := 9

  datatype Option<+T> = None | Some(value: T)

  /** What a single character of the text is compared with. */
  datatype Atom =
    | Chr(c: byte)
    | Any
    | Set(neg: bool, members: set<byte>)

  datatype Base =
    | One(atom: Atom)
    | Dol
    | Open(g: byte)
    | Close(g: byte)
    | Back(g: byte)

  datatype Range = Range(lo: byte, hi: byte)

  datatype Item = Item(base: Base, star: bool, ranges: seq<Range>)

  /** How often an item is to be matched: an interval wins over a star. */
  datatype Suffix = Once | Star | Between(lo: byte, hi: byte)

  function SuffixOf(x: Item): Suffix {
    if x.ranges != [] then Between(x.ranges[0].lo, x.ranges[0].hi)
    else if x.star then Star
    else Once
  }

  /** Meaning of an atom: NUL is never accepted by a class or by a dot. */
  predicate Accepts(a: Atom, c: byte) {
    match a
    case Chr(d) => c == d
    case Any => c != 0
    case Set(neg, members) => c != 0 && (c in members) != neg
  }

  // ----- byte code -----

  predicate Wide(members: set<byte>) {
    exists c :: c in members && c >= 128
  }

  /** The non-NUL characters outside the set. */
  function Complement(members: set<byte>): set<byte> {
    set c: byte | 0 < c < 256 && c !in members
  }

  function AtomOp(a: Atom): byte {
    match a
    case Chr(_) => CCHR
    case Any => CDOT
    case Set(neg, members) => if Wide(members) then CXCL else if neg then NCCL else CCL
  }

  function BaseOp(b: Base): byte {
    match b
    case One(a) => AtomOp(a)
    case Dol => CDOL
    case Open(_) => CBRA
    case Close(_) => CKET
    case Back(_) => CBACK
  }

  /** `op | STAR` */
  function OrStar(op: byte): (r: byte)
  {
    Pow2Eight(); OpsBound(op, STAR, 8);
    Or(op, STAR)
  }

  /** `op | RNGE` */
  function OrRange(op: byte): (r: byte)
  {
    Pow2Eight(); OpsBound(op, RNGE, 8);
    Or(op, RNGE)
  }

  function Opcode(x: Item): byte {
    if x.ranges != [] then OrRange(BaseOp(x.base))
    else if x.star then OrStar(BaseOp(x.base))
    else BaseOp(x.base)
  }

  function MapOf(neg: bool, members: set<byte>): seq<byte> {
    if Wide(members) then Bitmap(if neg then Complement(members) else members, 32)
    else Bitmap(if neg then members + {0} else members, 16)
  }

  function Operand(b: Base): seq<byte> {
    match b
    case One(Chr(c)) => [c]
    case One(Any) => []
    case One(Set(neg, members)) => MapOf(neg, members)
    case Dol => []
    case Open(g) => [g]
    case Close(g) => [g]
    case Back(g) => [g]
  }

  /** The operand when it is one byte. */
  function OneOperand(base: Base): Option<byte> {
    match base
    case One(Chr(c)) => Some(c)
    case Open(g) => Some(g)
    case Close(g) => Some(g)
    case Back(g) => Some(g)
    case _ => None
  }

  function RangeCode(ranges: seq<Range>): seq<byte> {
    if ranges == [] then []
    else RangeCode(ranges[..|ranges| - 1]) + [ranges[|ranges| - 1].lo, ranges[|ranges| - 1].hi]
  }

  function ItemCode(x: Item): (r: seq<byte>)
    ensures |r| >= 1
  {
    [Opcode(x)] + Operand(x.base) + RangeCode(x.ranges)
  }

  /** The byte code of items `t`, `t+1`, ... with the closing CCEOF. */
  function CodeFrom(p: seq<Item>, t: nat): (r: seq<byte>)
    requires t <= |p|
    ensures |r| >= 1
    decreases |p| - t
  {
    if t == |p| then [CCEOF] else ItemCode(p[t]) + CodeFrom(p, t + 1)
  }

  function Code(p: seq<Item>): seq<byte> {
    CodeFrom(p, 0)
  }

  /** The byte code of the items, without CCEOF: what the compiler has written so far. */
  function ItemsCode(p: seq<Item>): seq<byte> {
    if p == [] then [] else ItemsCode(p[..|p| - 1]) + ItemCode(p[|p| - 1])
  }

  lemma {:induction false} CodeSplit(p: seq<Item>, t: nat)
    requires t <= |p|
    ensures Code(p) == ItemsCode(p[..t]) + CodeFrom(p, t)
  {
    hide ItemCode;
    if t == 0 {
      assert p[..0] == [];
    } else {
      CodeSplit(p, t - 1);
      assert p[..t][..t - 1] == p[..t - 1];
    }
  }

  lemma CodeEnds(p: seq<Item>)
    ensures Code(p) == ItemsCode(p) + [CCEOF]
  {
    CodeSplit(p, |p|);
    assert p[..|p|] == p;
  }

  /** The patches of `*lastep`: a star or an interval sets low bits of the opcode, in either order. */
  lemma OpcodeBits(op: byte)
    ensures OrStar(op) == op + 1 - op % 2
    ensures OrRange(op) == op - op % 4 + 3
    ensures OrRange(OrStar(op)) == OrRange(op) == OrStar(OrRange(op))
  {
    hide OrStar, OrRange;
    OrStarIs(op);
    OrRangeIs(op);
    OrStarIs(OrRange(op));
    OrRangeIs(OrStar(op));
    assert op == 4 * (op / 4) + op % 4;
  }

  lemma OrZero(a: nat)
    ensures Or(a, 0) == a
  {
    if a != 0 { OrZero(a / 2); }
  }

  lemma OrStarIs(op: byte)
    ensures OrStar(op) == op + 1 - op % 2
  {
    OrZero(op / 2);
  }

  lemma OrRangeIs(op: byte)
    ensures OrRange(op) == op - op % 4 + 3
  {
    OrZero(op / 2 / 2);
    assert Or(op / 2, 1) == 2 * Or(op / 2 / 2, 0) + 1;
  }

  // ----- programs the matcher can run -----

  ghost predicate GoodAtom(a: Atom) {
    match a
    case Chr(c) => c != 0
    case Any => true
    case Set(_, members) => 0 !in members
  }

  /** At most one interval, with its bounds in order, and only on a single-character item;
      a star only on a single-character item or a back-reference. */
  ghost predicate Shaped(x: Item) {
    match x.base
    case One(a) =>
      GoodAtom(a) && |x.ranges| <= 1 && (x.ranges != [] ==> x.ranges[0].lo <= x.ranges[0].hi && x.ranges[0].lo < 255)
    case Dol => !x.star && x.ranges == []
    case Open(g) => g < NBRA && !x.star && x.ranges == []
    case Close(g) => g < NBRA && !x.star && x.ranges == []
    case Back(g) => g < NBRA && x.ranges == []
  }

  ghost predicate ShapedAll(p: seq<Item>) {
    forall t :: 0 <= t < |p| ==> Shaped(p[t])
  }

  /** No item from `t` on opens (closes) group `g`. */
  ghost predicate NoOpen(p: seq<Item>, t: nat, g: byte) {
    forall x :: t <= x < |p| ==> p[x].base != Open(g)
  }

  ghost predicate NoClose(p: seq<Item>, t: nat, g: byte) {
    forall x :: t <= x < |p| ==> p[x].base != Close(g)
  }

  ghost predicate OpenedBefore(p: seq<Item>, t: nat, g: byte) {
    exists x :: 0 <= x < t && x < |p| && p[x].base == Open(g)
  }

  ghost predicate ClosedBefore(p: seq<Item>, t: nat, g: byte) {
    exists x :: 0 <= x < t && x < |p| && p[x].base == Close(g)
  }

  /** Each group is opened once and then closed once; a back-reference stands after its group's end. */
  ghost predicate Grouped(p: seq<Item>) {
    forall t :: 0 <= t < |p| ==> GroupedAt(p, t)
  }

  ghost predicate GroupedAt(p: seq<Item>, t: nat)
    requires t < |p|
  {
    match p[t].base
    case Open(g) => NoOpen(p, t + 1, g) && !ClosedBefore(p, t, g)
    case Close(g) => NoClose(p, t + 1, g) && OpenedBefore(p, t, g)
    case Back(g) => ClosedBefore(p, t, g)
    case _ => true
  }

  ghost predicate Runnable(p: seq<Item>) {
    ShapedAll(p) && Grouped(p)
  }

  /** The group of a back-reference is not written again from there on. */
  lemma BackIsSettled(p: seq<Item>, t: nat, g: byte)
    requires Grouped(p) && t < |p| && p[t].base == Back(g)
    ensures NoOpen(p, t, g) && NoClose(p, t, g)
    ensures OpenedBefore(p, t, g) && ClosedBefore(p, t, g)
  {
    assert GroupedAt(p, t);
    var c :| 0 <= c < t && c < |p| && p[c].base == Close(g);
    assert GroupedAt(p, c);
    forall x | t <= x < |p| ensures p[x].base != Open(g) {
      assert GroupedAt(p, x);
    }
  }
}
