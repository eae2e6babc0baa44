/**
 `advance` on values: how each opcode moves the state of a run, and why that is one step of the search.
 */
module Interpreter {
  import opened Bytes
  import opened Program
  import opened ByteCode
  import opened Semantics

  /** ecmp(s1, s2, n): strncmp, which stops at a NUL, finds no difference. */
  predicate Ecmp(s: seq<byte>, a: nat, b: nat, n: nat)
    requires a <= |s| && b <= |s| && NulFree(s)
    decreases n
  {
    n == 0 ||
    (CharAt(s, a) == CharAt(s, b) && (CharAt(s, a) == 0 || Ecmp(s, a + 1, b + 1, n - 1)))
  }

  /** An empty string is found everywhere. */
  lemma {:induction false} EcmpZero(s: seq<byte>, a: nat)
    requires a <= |s| && NulFree(s)
    ensures forall b: nat :: b <= |s| ==> Ecmp(s, a, b, 0)
  {
  }

  lemma {:induction false} EcmpIsPrefix(s: seq<byte>, a: nat, b: nat, n: nat)
    requires a + n <= |s| && b <= |s| && NulFree(s)
    ensures Ecmp(s, a, b, n) <==> s[a..a + n] <= s[b..]
    decreases n
  {
    if n != 0 {
      var w := s[a..a + n];
      if s[a] == CharAt(s, b) {
        EcmpIsPrefix(s, a + 1, b + 1, n - 1);
        assert s[a + 1..a + n] == w[1..];
        assert s[b + 1..] == s[b..][1..];
        assert w == [w[0]] + w[1..];
        assert s[b..] == [s[b]] + s[b..][1..];
      } else if w <= s[b..] {
        assert s[b] == w[0];
      }
    }
  }

  ghost predicate Repeated(x: Item) {
    match x.base
    case One(_) => !SuffixOf(x).Once?
    case Back(_) => x.star
    case _ => false
  }

  /** Number of repeated items from `t` on: a bound on the depth of recursion of `advance`. */
  ghost function Repeats(p: seq<Item>, t: nat): nat
    requires t <= |p|
    decreases |p| - t
  {
    if t == |p| then 0 else (if Repeated(p[t]) then 1 else 0) + Repeats(p, t + 1)
  }

  /** The state of `advance` in front of item `u`: what it was called for is what is left to do. */
  ghost predicate Running(e: Env, code: seq<byte>, t: nat, c0: Caps, v: Verdict, u: nat, ep: nat, lp: nat, c: Caps) {
    && t <= u <= |e.p| && lp <= |e.s| && Runnable(e.p)
    && Placed(code, ep, e.p, u)
    && Repeats(e.p, u) <= Repeats(e.p, t)
    && CapsOk(e.p, u, c, lp)
    && Search(e, u, lp, c) == v
    && Agree(e.p, t, c0, c)
  }

  lemma {:induction false} PlacedInside(code: seq<byte>, ep: nat, p: seq<Item>, t: nat)
    requires Placed(code, ep, p, t)
    ensures t <= |p|
  {
  }

  lemma {:induction false} RunningStart(e: Env, code: seq<byte>, t: nat, ep: nat, lp: nat, c: Caps)
    requires t <= |e.p| && lp <= |e.s| && Runnable(e.p) && Placed(code, ep, e.p, t) && CapsOk(e.p, t, c, lp)
    ensures Running(e, code, t, c, Search(e, t, lp, c), t, ep, lp, c)
  {
    hide Search, Placed, Repeats, Runnable;
    AgreeSelf(e.p, t, c);
  }

  /** What the state in front of item `u` gives: at the end, a match; at a repeated item, room to recurse. */
  lemma {:induction false} RunningFacts(e: Env, code: seq<byte>, t: nat, c0: Caps, v: Verdict, u: nat, ep: nat,
                                        lp: nat, c: Caps)
    requires Running(e, code, t, c0, v, u, ep, lp, c)
    ensures t <= u <= |e.p| && lp <= |e.s| && Runnable(e.p) && Placed(code, ep, e.p, u) && CapsOk(e.p, u, c, lp)
    ensures Search(e, u, lp, c) == v && Agree(e.p, t, c0, c)
    ensures u < |e.p| ==> Shaped(e.p[u])
    ensures u == |e.p| ==> v == Yes(lp, c)
    ensures u < |e.p| && Repeated(e.p[u]) ==> Repeats(e.p, u + 1) < Repeats(e.p, t)
  {
  }

  /** An item that can be matched in one way only is passed. */
  lemma {:induction false} PassItem(e: Env, code: seq<byte>, t: nat, c0: Caps, v: Verdict, u: nat, ep: nat, lp: nat,
                                    c: Caps, k: nat)
    requires Running(e, code, t, c0, v, u, ep, lp, c) && u < |e.p| && !Stuck(e, e.p[u], c)
    requires Low(e, e.p[u], lp, c) == High(e, e.p[u], lp, c) == k
    ensures Running(e, code, t, c0, v, u + 1, ep + 1 + Tail(e.p[u]),
                    NextPos(e, e.p[u], lp, c, k), NextCaps(e.p[u], lp, c))
  {
    var p := e.p;
    assert Shaped(p[u]);
    PlacedItem(code, ep, p, u);
    Forced(e, u, lp, c, k);
    CapsOkStep(p, u, c, lp, NextPos(e, p[u], lp, c, k));
    forall g: byte | g < NBRA && NoOpen(p, t, g)
      ensures c0.starts[g] == NextCaps(p[u], lp, c).starts[g]
    {
      assert p[u].base != Open(g);
    }
    forall g: byte | g < NBRA && NoClose(p, t, g)
      ensures c0.ends[g] == NextCaps(p[u], lp, c).ends[g]
    {
      assert p[u].base != Close(g);
    }
  }

  /** What was written by items from `u` on was written by items from `t` on. */
  lemma {:induction false} AgreeFrom(p: seq<Item>, t: nat, u: nat, b: Caps, c: Caps, d: Caps)
    requires t <= u && Agree(p, t, b, c) && Agree(p, u, c, d)
    ensures Agree(p, t, b, d)
  {
    forall g: byte | NoOpen(p, t, g) ensures NoOpen(p, u, g) {}
    forall g: byte | NoClose(p, t, g) ensures NoClose(p, u, g) {}
  }

  /** The opcode at `ep` and what it says about the item there. */
  ghost predicate Fetched(x: Item, op: byte) {
    match x.base
    case One(a) =>
      IsSingle(AtomOp(a)) && |Operand(x.base)| == Width(AtomOp(a)) &&
      op == AtomOp(a) + (match SuffixOf(x) case Once => 0 case Star => STAR case Between(_, _) => RNGE)
    case Dol => op == CDOL
    case Open(_) => op == CBRA
    case Close(_) => op == CKET
    case Back(_) => op == if x.star then CBACK + STAR else CBACK
  }

  /** An opcode without STAR or RNGE. */
  predicate IsPlain(op: byte) {
    op == CDOL || op == CBRA || op == CKET || op == CBACK || IsSingle(op)
  }

  lemma {:induction false} RunnableShaped(p: seq<Item>)
    requires Runnable(p)
    ensures ShapedAll(p)
  {
  }

  lemma {:induction false} FetchedPlain(x: Item, op: byte)
    requires Fetched(x, op)
    ensures IsPlain(op) <==> !Repeated(x)
  {
    hide Operand, AtomOp;
  }

  lemma {:induction false} Fetch(code: seq<byte>, ep: nat, p: seq<Item>, u: nat)
    requires Placed(code, ep, p, u) && ShapedAll(p)
    ensures ep < |code|
    ensures code[ep] == CCEOF <==> u == |p|
    ensures u < |p| ==> Fetched(p[u], code[ep]) && ep + 1 + Tail(p[u]) < |code| && Operand(p[u].base) <= code[ep + 1..]
    ensures u < |p| && (p[u].base.Open? || p[u].base.Close? || p[u].base.Back?) ==> code[ep + 1] == p[u].base.g < NBRA
  {
    if u == |p| {
      PlacedEnd(code, ep, p);
    } else {
      PlacedItem(code, ep, p, u);
      OpcodeOf(p[u]);
      match p[u].base
      case One(a) => TestIsAccepts(a, code, ep + 1, 0);
      case Dol =>
      case _ => assert code[ep + 1] == code[ep + 1..][0];
    }
  }

  lemma {:induction false} SingleStep(e: Env, code: seq<byte>, t: nat, c0: Caps, v: Verdict, u: nat, ep: nat,
                                      lp: nat, c: Caps)
    requires Running(e, code, t, c0, v, u, ep, lp, c) && u < |e.p| && Fetched(e.p[u], code[ep]) && IsSingle(code[ep])
    requires ep + 1 + Tail(e.p[u]) < |code| && Operand(e.p[u].base) <= code[ep + 1..]
    ensures e.p[u].base.One? && Tail(e.p[u]) == Width(code[ep])
    ensures if Test(code, ep + 1, code[ep], CharAt(e.s, lp))
            then Running(e, code, t, c0, v, u + 1, ep + 1 + Width(code[ep]), lp + 1, c)
            else v == No
  {
    hide Running, Low, High, Search, Operand, AtomOp, Test, Runnable;
    RunningFacts(e, code, t, c0, v, u, ep, lp, c);
    TestIsAccepts(e.p[u].base.atom, code, ep + 1, CharAt(e.s, lp));
    SingleCount(e, u, lp, c);
    if Accepts(e.p[u].base.atom, CharAt(e.s, lp)) {
      PassItem(e, code, t, c0, v, u, ep, lp, c, 1);
    } else {
      BlockedHere(e, code, t, c0, v, u, ep, lp, c);
    }
  }

  lemma {:induction false} SingleCount(e: Env, u: nat, lp: nat, c: Caps)
    requires u < |e.p| && lp <= |e.s| && Shaped(e.p[u]) && e.p[u].base.One? && SuffixOf(e.p[u]).Once?
    ensures Low(e, e.p[u], lp, c) == 1
    ensures High(e, e.p[u], lp, c) == if Accepts(e.p[u].base.atom, CharAt(e.s, lp)) then 1 else 0
  {
  }

  /** An item that cannot be matched ends the run. */
  lemma {:induction false} BlockedHere(e: Env, code: seq<byte>, t: nat, c0: Caps, v: Verdict, u: nat, ep: nat,
                                       lp: nat, c: Caps)
    requires Running(e, code, t, c0, v, u, ep, lp, c) && u < |e.p| && !Stuck(e, e.p[u], c)
    requires High(e, e.p[u], lp, c) < Low(e, e.p[u], lp, c)
    ensures v == No
  {
    hide High, Low, Agree, CapsOk, Placed;
    Blocked(e, u, lp, c);
  }

  /** The comparison made by CBACK, as a count of the item. */
  lemma {:induction false} BackCount(e: Env, u: nat, lp: nat, c: Caps)
    requires u < |e.p| && Runnable(e.p) && lp <= |e.s| && NulFree(e.s) && CapsOk(e.p, u, c, lp)
    requires e.p[u].base.Back? && !e.p[u].star
    ensures var g := e.p[u].base.g;
      && g < NBRA && 0 <= c.starts[g] <= c.ends[g] <= lp
      && Low(e, e.p[u], lp, c) == 1
      && var ct := c.ends[g] - c.starts[g];
      && NextPos(e, e.p[u], lp, c, 1) == lp + ct
      && High(e, e.p[u], lp, c) == if Ecmp(e.s, c.starts[g], lp, ct) then 1 else 0
  {
    BackOk(e.p, u, c, lp);
    var g := e.p[u].base.g;
    EcmpIsPrefix(e.s, c.starts[g], lp, c.ends[g] - c.starts[g]);
    var w := Captured(e.s, c, g);
    assert Power(w, 1) == w + Power(w, 0) == w;
  }

  lemma {:induction false} BackStep(e: Env, code: seq<byte>, t: nat, c0: Caps, v: Verdict, u: nat, ep: nat, lp: nat,
                                    c: Caps, same: bool, ct: nat)
    requires Running(e, code, t, c0, v, u, ep, lp, c) && u < |e.p|
    requires e.p[u].base.Back? && !e.p[u].star
    requires Low(e, e.p[u], lp, c) == 1 && High(e, e.p[u], lp, c) == (if same then 1 else 0)
    requires NextPos(e, e.p[u], lp, c, 1) == lp + ct
    ensures if same then Running(e, code, t, c0, v, u + 1, ep + 2, lp + ct, c) else v == No
  {
    hide Running, Low, High, Search, NextPos, Runnable;
    RunningFacts(e, code, t, c0, v, u, ep, lp, c);
    if same {
      PassItem(e, code, t, c0, v, u, ep, lp, c, 1);
    } else {
      BlockedHere(e, code, t, c0, v, u, ep, lp, c);
    }
  }

  /** CDOL, CBRA and CKET. */
  lemma {:induction false} MarkStep(e: Env, code: seq<byte>, t: nat, c0: Caps, v: Verdict, u: nat, ep: nat, lp: nat,
                                    c: Caps)
    requires Running(e, code, t, c0, v, u, ep, lp, c) && u < |e.p| && NulFree(e.s)
    ensures e.p[u].base.Dol? ==>
      if CharAt(e.s, lp) == 0 then Running(e, code, t, c0, v, u + 1, ep + 1, lp, c) else v == No
    ensures e.p[u].base.Open? || e.p[u].base.Close? ==>
      Running(e, code, t, c0, v, u + 1, ep + 2, lp, NextCaps(e.p[u], lp, c))
  {
    hide Running, Search, Runnable;
    RunningFacts(e, code, t, c0, v, u, ep, lp, c);
    if e.p[u].base.Open? || e.p[u].base.Close? || (e.p[u].base.Dol? && CharAt(e.s, lp) == 0) {
      PassItem(e, code, t, c0, v, u, ep, lp, c, 0);
    } else if e.p[u].base.Dol? {
      BlockedHere(e, code, t, c0, v, u, ep, lp, c);
    }
  }

  /** A program that begins with a plain CCHR matches only where its character stands. */
  lemma {:induction false} FirstChar(e: Env, code: seq<byte>, p2: nat)
    requires Runnable(e.p) && Placed(code, p2, e.p, 0) && p2 + 1 < |code| && code[p2] == CCHR
    ensures forall i, d :: 0 <= i <= |e.s| && CharAt(e.s, i) != code[p2 + 1] ==> Search(e, 0, i, d).No?
  {
    Fetch(code, p2, e.p, 0);
    assert e.p[0].base.One? && e.p[0].base.atom.Chr?;
    assert code[p2 + 1] == code[p2 + 1..][0];
    forall i, d | 0 <= i <= |e.s| && CharAt(e.s, i) != code[p2 + 1] ensures Search(e, 0, i, d).No? {
      Blocked(e, 0, i, d);
    }
  }
}
