/** The global state of regexp.h, and the functions that work on it: compile, step, advance and getrnge. */
module RegexpH {
  import opened Bytes
  import opened Program
  import opened ByteCode
  import opened Semantics
  import opened Interpreter
  import opened Pattern
  import opened Lexer
  import opened Emitter
  import opened Assembly
  import opened Overrun

  /** What a call of `advance` or `step` does: return 0, return 1, or run for ever. */
  datatype Answer = Failed | Matched | Diverges

  /** A leading circumflex is not a token. */
  function FirstToken(pat: seq<byte>): nat {
    if Peek(pat, 0) == CARET then 1 else 0
  }

  class Regexp {
    const braslist: array<int>
    const braelist: array<int>
    var loc1: int
    var loc2: int
    var locs: int
    var circf: bool
    var sed: bool
    var nbra: nat
    var nodelim: bool
    var low: int
    var size: int

    /** Static storage at program start; -1 stands for a null pointer. */
    constructor ()
      ensures Valid() && fresh(braslist) && fresh(braelist) && loc1 == loc2 == locs == -1 && !circf && !sed && !nodelim
      ensures nbra == 0 && low == 0 && size == 0
      ensures forall g :: 0 <= g < NBRA ==> braslist[g] == braelist[g] == -1
    {
      braslist := new int[NBRA](_ => -1);
      braelist := new int[NBRA](_ => -1);
      loc1, loc2, locs, circf, sed, nodelim, nbra, low, size := -1, -1, -1, false, false, false, 0, 0, 0;
    }

    ghost predicate Valid()
      reads this
    {
      braslist.Length == NBRA && braelist.Length == NBRA && braslist != braelist
    }

    ghost function Captures(): Caps
      reads braslist, braelist
    {
      Caps(braslist[..], braelist[..])
    }

    /** The call did what the search found. */
    ghost predicate Answers(r: Answer, v: Verdict)
      reads this, braslist, braelist
    {
      match v
      case No => r == Failed
      case Never => r == Diverges
      case Yes(end, caps) => r == Matched && loc2 == end && Captures() == caps
    }

    /** braslist[x.g] = lp, or braelist[x.g] = lp */
    method Record(b: Base, lp: nat)
      requires Valid() && (b.Open? || b.Close?) && b.g < NBRA
      modifies braslist, braelist
      ensures Captures() == NextCaps(Item(b, false, []), lp, old(Captures()))
    {
      if b.Open? {
        braslist[b.g] := lp;
      } else {
        braelist[b.g] := lp;
      }
    }

    method Getrnge(code: seq<byte>, str: nat)
      requires str + 1 < |code|
      modifies `low, `size
      ensures low == code[str]
      ensures code[str + 1] == 255 ==> size == 20000
      ensures code[str + 1] != 255 ==> low + size == code[str + 1]
    {
      low := code[str];
      size := if code[str + 1] == 255 then 20000 else code[str + 1] - low;
    }

    /** The loops of CDOT|STAR, CCHR|STAR, CXCL|STAR, CCL|STAR and NCCL|STAR: `lp` ends up
        one past the first character that is not accepted. */
    method ScanStar(s: seq<byte>, start: nat, code: seq<byte>, ep: nat, op: byte, ghost a: Atom) returns (lp: nat)
      requires start <= |s| && ep <= |code| && GoodAtom(a) && op == AtomOp(a) && Operand(One(a)) <= code[ep..]
      requires ep + Width(op) <= |code|
      ensures lp == start + Reps(a, s, start) + 1
    {
      hide Test, Operand, AtomOp, Width;
      lp := start;
      var c := CharAt(s, lp);
      lp := lp + 1;
      TestIsAccepts(a, code, ep, c);
      while Test(code, ep, op, c)
        invariant start < lp <= |s| + 1
        invariant c == CharAt(s, lp - 1)
        invariant Test(code, ep, op, c) <==> Accepts(a, c)
        invariant !Accepts(a, 0)
        invariant Reps(a, s, start) == lp - 1 - start + Reps(a, s, lp - 1)
        decreases |s| + 1 - lp
      {
        c := CharAt(s, lp);
        lp := lp + 1;
        TestIsAccepts(a, code, ep, c);
      }
    }

    /** The loops of the RNGE forms. `ok` is false when `advance` returns 0 inside them. */
    method ScanRange(s: seq<byte>, start: nat, code: seq<byte>, ep: nat, op: byte, ghost a: Atom)
      returns (ok: bool, curlp: nat, lp: nat)
      requires start <= |s| && ep + Width(op) + 1 < |code|
      requires GoodAtom(a) && op == AtomOp(a) && Operand(One(a)) <= code[ep..]
      requires code[ep + Width(op)] <= code[ep + Width(op) + 1]
      modifies `low, `size
      ensures ok <==> code[ep + Width(op)] <= Reps(a, s, start)
      ensures ok ==> curlp == start + code[ep + Width(op)]
      ensures ok ==> lp == start + Min(Reps(a, s, start), MostReps(code[ep + Width(op)], code[ep + Width(op) + 1])) + 1
    {
      hide RangeRejects, Operand, AtomOp, Width;
      Getrnge(code, ep + Width(op));
      ghost var lo, reps, most := low, Reps(a, s, start), low + size;
      lp := start;
      curlp := start;
      while low != 0
        invariant 0 <= low <= lo && lp == start + (lo - low) <= |s|
        invariant reps == lp - start + Reps(a, s, lp)
        invariant low + size == most - (lo - low)
        decreases low
      {
        low := low - 1;
        var c := CharAt(s, lp);
        lp := lp + 1;
        TestIsAccepts(a, code, ep, c);
        if RangeRejects(code, ep, op, c) {
          ok := false;
          return;
        }
      }
      low := low - 1;
      curlp := lp;
      var more := size != 0;
      size := size - 1;
      while more
        invariant curlp <= lp <= |s|
        invariant reps == lp - start + Reps(a, s, lp)
        invariant lp - start + size == most - 1
        invariant if more then size >= 0 else size == -1
        decreases size + 1
      {
        var c := CharAt(s, lp);
        lp := lp + 1;
        TestIsAccepts(a, code, ep, c);
        if RangeRejects(code, ep, op, c) {
          break;
        }
        more := size != 0;
        size := size - 1;
      }
      if size < 0 {
        lp := lp + 1;
      }
      ok := true;
    }

    /** One attempt: item `t` has been repeated `k` times, the rest is matched from `lp`. */
    method TryCount(s: seq<byte>, lp: nat, code: seq<byte>, ep: nat,
                    ghost p: seq<Item>, ghost t: nat, ghost i: nat, ghost c: Caps, ghost k: nat, ghost depth: nat)
      returns (r: Answer)
      requires Valid() && NulFree(s) && i <= |s| && Runnable(p) && t < |p| && Placed(code, ep, p, t + 1)
      requires Repeated(p[t]) && CapsOk(p, t, c, i) && Agree(p, t + 1, c, Captures())
      requires var e := Env(p, s, locs);
        Low(e, p[t], i, c) <= k <= High(e, p[t], i, c) && lp == NextPos(e, p[t], i, c, k)
      requires depth + 1 + Repeats(p, t + 1) <= Repeats(p, 0)
      modifies `loc2, `low, `size, braslist, braelist
      ensures var e := Env(p, s, locs);
        if r == Failed then Down(e, t, i, c, k) == Down(e, t, i, c, k - 1) else Answers(r, Down(e, t, i, c, k))
      ensures r != Matched ==> loc2 == old(loc2)
      ensures Agree(p, t + 1, c, Captures())
      decreases Repeats(p, t + 1), 1
    {
      hide Search, Low, High, NextPos, Agree, CapsOk, Placed, Grouped, Feasible;
      ghost var e, d := Env(p, s, locs), Captures();
      FeasibleRange(e, p[t], i, c, k);
      NextPosBound(e, p[t], i, c, k);
      assert NextCaps(p[t], i, c) == c;
      CapsOkStep(p, t, c, i, lp);
      CapsOkAgree(p, t + 1, c, d, lp);
      SearchAgrees(e, t + 1, lp, c, d);
      r := Advance(s, lp, code, ep, p, t + 1, depth + 1);
      AgreeTrans(p, t + 1, c, d, Captures());
    }

    /** The code at `star:`: tries the ends from the longest down to `curlp`. `lp` is one too far on entry. */
    method TryEnds(s: seq<byte>, over: nat, curlp: nat, code: seq<byte>, ep: nat,
                   ghost p: seq<Item>, ghost t: nat, ghost i: nat, ghost depth: nat) returns (r: Answer)
      requires Valid() && NulFree(s) && i <= |s| && Runnable(p) && t < |p| && Placed(code, ep, p, t + 1)
      requires p[t].base.One? && Repeated(p[t]) && CapsOk(p, t, Captures(), i)
      requires curlp == i + Least(SuffixOf(p[t]))
      requires curlp < over == i + High(Env(p, s, locs), p[t], i, Captures()) + 1
      requires depth + 1 + Repeats(p, t + 1) <= Repeats(p, 0)
      modifies `loc2, `low, `size, braslist, braelist
      ensures Answers(r, Search(Env(p, s, locs), t, i, old(Captures())))
      ensures r != Matched ==> loc2 == old(loc2)
      ensures Agree(p, t + 1, old(Captures()), Captures())
      decreases Repeats(p, t + 1), 2
    {
      hide High, Agree, CapsOk, Placed, Grouped;
      ghost var e, c, x := Env(p, s, locs), Captures(), p[t];
      ghost var high := High(e, x, i, c);
      AgreeSelf(p, t + 1, c);
      SearchIsDown(e, t, i, c);
      var lp := over;
      while true
        invariant curlp < lp <= over
        invariant Down(e, t, i, c, high) == Down(e, t, i, c, lp - 1 - i)
        invariant curlp <= locs <= i + high ==> locs < lp
        invariant Agree(p, t + 1, c, Captures())
        invariant loc2 == old(loc2)
        decreases lp
      {
        lp := lp - 1;
        if lp == locs {
          break;
        }
        r := TryCount(s, lp, code, ep, p, t, i, c, lp - i, depth);
        if r != Failed {
          return;
        }
        if lp <= curlp {
          break;
        }
      }
      r := Failed;
    }

    /** Steps over the copies of a non-empty capture. */
    method CountCopies(s: seq<byte>, bbeg: nat, ct: nat, curlp: nat) returns (lp: nat, ghost k: nat)
      requires NulFree(s) && curlp <= |s| && bbeg + ct <= |s| && ct > 0
      ensures k == Copies(s[bbeg..bbeg + ct], s, curlp)
      ensures lp == curlp + |Power(s[bbeg..bbeg + ct], k)|
    {
      ghost var w := s[bbeg..bbeg + ct];
      lp, k := curlp, 0;
      EcmpIsPrefix(s, bbeg, lp, ct);
      while Ecmp(s, bbeg, lp, ct)
        invariant curlp <= lp <= |s| && lp == curlp + |Power(w, k)|
        invariant Copies(w, s, curlp) == k + Copies(w, s, lp)
        invariant Ecmp(s, bbeg, lp, ct) <==> w <= s[lp..]
        decreases |s| - lp
      {
        PowerGrows(w, k);
        lp := lp + ct;
        k := k + 1;
        EcmpIsPrefix(s, bbeg, lp, ct);
      }
    }

    /** CBACK|STAR */
    method TryCopies(s: seq<byte>, curlp: nat, code: seq<byte>, ep: nat, ghost p: seq<Item>, ghost t: nat,
                     ghost depth: nat)
      returns (r: Answer)
      requires Valid() && NulFree(s) && curlp <= |s| && Runnable(p) && t < |p| && Placed(code, ep, p, t)
      requires p[t].base.Back? && p[t].star && CapsOk(p, t, Captures(), curlp)
      requires depth + 1 + Repeats(p, t + 1) <= Repeats(p, 0)
      modifies `loc2, `low, `size, braslist, braelist
      ensures Answers(r, Search(Env(p, s, locs), t, curlp, old(Captures())))
      ensures r != Matched ==> loc2 == old(loc2)
      ensures Agree(p, t + 1, old(Captures()), Captures())
      decreases Repeats(p, t + 1), 3
    {
      hide Agree, CapsOk, Placed, Grouped;
      ghost var c := Captures();
      AgreeSelf(p, t + 1, c);
      BackOk(p, t, c, curlp);
      Fetch(code, ep, p, t);
      PlacedItem(code, ep, p, t);
      var g := code[ep + 1];
      var bbeg := braslist[g];
      var ct := braelist[g] - bbeg;
      assert Captured(s, c, g) == s[bbeg..bbeg + ct];
      if ct == 0 {
        // the loop goes on as long as `ecmp` holds, which it does, and does not move `lp`
        EcmpZero(s, bbeg);
        r := Diverges;
        return;
      }
      var over, k := CountCopies(s, bbeg, ct, curlp);
      SearchIsDown(Env(p, s, locs), t, curlp, c);
      r := TryDown(s, over, curlp, ct, code, ep + 2, p, t, k, depth);
    }

    /** The ends of the copies, from the last one back to `curlp`. */
    method TryDown(s: seq<byte>, over: nat, curlp: nat, ct: nat, code: seq<byte>, ep: nat,
                   ghost p: seq<Item>, ghost t: nat, ghost n: nat, ghost depth: nat) returns (r: Answer)
      requires Valid() && NulFree(s) && curlp <= |s| && Runnable(p) && t < |p| && Placed(code, ep, p, t + 1)
      requires p[t].base.Back? && p[t].star && CapsOk(p, t, Captures(), curlp)
      requires var w := Captured(s, Captures(), p[t].base.g);
        ct == |w| > 0 && n == Copies(w, s, curlp) && over == curlp + |Power(w, n)|
      requires depth + 1 + Repeats(p, t + 1) <= Repeats(p, 0)
      modifies `loc2, `low, `size, braslist, braelist
      ensures Answers(r, Down(Env(p, s, locs), t, curlp, old(Captures()), n))
      ensures r != Matched ==> loc2 == old(loc2)
      ensures Agree(p, t + 1, old(Captures()), Captures())
      decreases Repeats(p, t + 1), 2
    {
      hide Agree, CapsOk, Placed, Grouped, Captured;
      ghost var e, c := Env(p, s, locs), Captures();
      ghost var w := Captured(s, c, p[t].base.g);
      AgreeSelf(p, t + 1, c);
      var lp: int := over;
      ghost var k: int := n;
      while lp >= curlp
        invariant -1 <= k <= n
        invariant if k == -1 then lp < curlp else lp == curlp + |Power(w, k)|
        invariant Down(e, t, curlp, c, n) == Down(e, t, curlp, c, k)
        invariant Agree(p, t + 1, c, Captures())
        invariant loc2 == old(loc2)
        decreases k
      {
        r := TryCount(s, lp, code, ep, p, t, curlp, c, k, depth);
        if r != Failed {
          return;
        }
        lp := lp - ct;
        k := k - 1;
      }
      r := Failed;
    }

    /** `depth` counts the calls of `advance` that this one is nested in. */
    method Advance(s: seq<byte>, start: nat, code: seq<byte>, entry: nat, ghost p: seq<Item>, ghost t: nat,
                   ghost depth: nat)
      returns (r: Answer)
      requires Valid() && NulFree(s) && start <= |s| && Runnable(p) && Placed(code, entry, p, t)
      requires CapsOk(p, t, Captures(), start)
      requires depth + Repeats(p, t) <= Repeats(p, 0)
      modifies `loc2, `low, `size, braslist, braelist
      ensures Answers(r, Search(Env(p, s, locs), t, start, old(Captures())))
      ensures r != Matched ==> loc2 == old(loc2)
      ensures Agree(p, t, old(Captures()), Captures())
      decreases Repeats(p, t), 0
    {
      hide Running, Search, Agree, CapsOk, Placed, Grouped, Repeats, Operand, Tail, Fetched, Repeated, IsPlain;
      ghost var e, c0 := Env(p, s, locs), Captures();
      PlacedInside(code, entry, p, t);
      ghost var v := Search(e, t, start, c0);
      ghost var u := t;
      var lp: nat, ep: nat := start, entry;
      RunningStart(e, code, t, entry, start, c0);
      while true
        invariant Running(e, code, t, c0, v, u, ep, lp, Captures())
        invariant loc2 == old(loc2)
        decreases |p| - u
      {
        RunningFacts(e, code, t, c0, v, u, ep, lp, Captures());
        Fetch(code, ep, p, u);
        if u < |p| { FetchedPlain(p[u], code[ep]); }
        var op := code[ep];
        if op == CCEOF {
          loc2 := lp;
          return Matched;
        }
        if IsPlain(op) {
          var ok;
          ok, lp, ep := PlainItem(s, lp, code, ep, e, t, c0, v, u);
          if !ok {
            return Failed;
          }
        } else {
          ghost var c := Captures();
          r := RepeatedItem(s, lp, code, ep, p, u, depth);
          AgreeFrom(p, t, u + 1, c0, c, Captures());
          return;
        }
        u := u + 1;
      }
    }

    /** The opcodes without STAR or RNGE. */
    method PlainItem(s: seq<byte>, lp: nat, code: seq<byte>, ep: nat,
                     ghost e: Env, ghost t: nat, ghost c0: Caps, ghost v: Verdict, ghost u: nat)
      returns (ok: bool, lp': nat, ep': nat)
      requires Valid() && NulFree(s) && e.s == s
      requires Running(e, code, t, c0, v, u, ep, lp, Captures()) && u < |e.p| && !Repeated(e.p[u])
      modifies braslist, braelist
      ensures ok ==> Running(e, code, t, c0, v, u + 1, ep', lp', Captures())
      ensures !ok ==> v == No && Captures() == old(Captures())
    {
      hide Running, Search, Runnable, CapsOk, Placed, Test, Operand, Ecmp, Low, High, NextPos, Repeats;
      ghost var c := Captures();
      RunningFacts(e, code, t, c0, v, u, ep, lp, c);
      RunnableShaped(e.p);
      Fetch(code, ep, e.p, u);
      var op := code[ep];
      if op == CDOL {
        MarkStep(e, code, t, c0, v, u, ep, lp, c);
        return CharAt(s, lp) == 0, lp, ep + 1;
      } else if op == CBRA {
        MarkStep(e, code, t, c0, v, u, ep, lp, c);
        Record(Open(code[ep + 1]), lp);
        return true, lp, ep + 2;
      } else if op == CKET {
        MarkStep(e, code, t, c0, v, u, ep, lp, c);
        Record(Close(code[ep + 1]), lp);
        return true, lp, ep + 2;
      } else if op == CBACK {
        BackCount(e, u, lp, c);
        var bbeg := braslist[code[ep + 1]];
        var ct := braelist[code[ep + 1]] - bbeg;
        var same := Ecmp(s, bbeg, lp, ct);
        BackStep(e, code, t, c0, v, u, ep, lp, c, same, ct);
        return same, lp + ct, ep + 2;
      } else {  // CCHR, CDOT, CXCL, NCCL, CCL
        SingleStep(e, code, t, c0, v, u, ep, lp, c);
        return Test(code, ep + 1, op, CharAt(s, lp)), lp + 1, ep + 1 + Width(op);
      }
    }

    /** The opcodes with STAR or RNGE. */
    method RepeatedItem(s: seq<byte>, lp: nat, code: seq<byte>, ep: nat, ghost p: seq<Item>, ghost u: nat,
                        ghost depth: nat)
      returns (r: Answer)
      requires Valid() && NulFree(s) && lp <= |s| && Runnable(p) && Placed(code, ep, p, u) && u < |p|
      requires Repeated(p[u]) && CapsOk(p, u, Captures(), lp)
      requires depth + 1 + Repeats(p, u + 1) <= Repeats(p, 0)
      modifies `loc2, `low, `size, braslist, braelist
      ensures Answers(r, Search(Env(p, s, locs), u, lp, old(Captures())))
      ensures r != Matched ==> loc2 == old(loc2)
      ensures Agree(p, u + 1, old(Captures()), Captures())
      decreases Repeats(p, u + 1), 4
    {
      hide Agree, CapsOk, Placed, Grouped, Operand, AtomOp, Search;
      Fetch(code, ep, p, u);
      var op := code[ep];
      if op == CBACK + STAR {
        r := TryCopies(s, lp, code, ep, p, u, depth);
      } else if IsSingle(op - STAR) {
        r := StarItem(s, lp, code, ep, p, u, depth);
      } else {
        r := RangeItem(s, lp, code, ep, p, u, depth);
      }
    }

    /** CDOT|STAR, CCHR|STAR, CXCL|STAR, CCL|STAR, NCCL|STAR */
    method StarItem(s: seq<byte>, lp: nat, code: seq<byte>, ep: nat, ghost p: seq<Item>, ghost u: nat,
                    ghost depth: nat)
      returns (r: Answer)
      requires Valid() && NulFree(s) && lp <= |s| && Runnable(p) && Placed(code, ep, p, u) && u < |p|
      requires p[u].base.One? && SuffixOf(p[u]).Star? && CapsOk(p, u, Captures(), lp)
      requires depth + 1 + Repeats(p, u + 1) <= Repeats(p, 0)
      modifies `loc2, `low, `size, braslist, braelist
      ensures Answers(r, Search(Env(p, s, locs), u, lp, old(Captures())))
      ensures r != Matched ==> loc2 == old(loc2)
      ensures Agree(p, u + 1, old(Captures()), Captures())
      decreases Repeats(p, u + 1), 3
    {
      hide Agree, CapsOk, Placed, Grouped, Operand, AtomOp, Search;
      ghost var a := p[u].base.atom;
      assert Shaped(p[u]);
      Fetch(code, ep, p, u);
      PlacedItem(code, ep, p, u);
      var op := code[ep] - STAR;
      var over := ScanStar(s, lp, code, ep + 1, op, a);
      r := TryEnds(s, over, lp, code, ep + 1 + Width(op), p, u, lp, depth);
    }

    /** CDOT|RNGE, CCHR|RNGE, CXCL|RNGE, CCL|RNGE, NCCL|RNGE */
    method RangeItem(s: seq<byte>, lp: nat, code: seq<byte>, ep: nat, ghost p: seq<Item>, ghost u: nat,
                    ghost depth: nat)
      returns (r: Answer)
      requires Valid() && NulFree(s) && lp <= |s| && Runnable(p) && Placed(code, ep, p, u) && u < |p|
      requires p[u].base.One? && SuffixOf(p[u]).Between? && CapsOk(p, u, Captures(), lp)
      requires depth + 1 + Repeats(p, u + 1) <= Repeats(p, 0)
      modifies `loc2, `low, `size, braslist, braelist
      ensures Answers(r, Search(Env(p, s, locs), u, lp, old(Captures())))
      ensures r != Matched ==> loc2 == old(loc2)
      ensures Agree(p, u + 1, old(Captures()), Captures())
      decreases Repeats(p, u + 1), 3
    {
      hide Agree, CapsOk, Placed, Grouped, Operand, AtomOp, Search, Reps;
      ghost var a := p[u].base.atom;
      assert Shaped(p[u]);
      AgreeSelf(p, u + 1, Captures());
      Fetch(code, ep, p, u);
      PlacedItem(code, ep, p, u);
      var op := code[ep] - RNGE;
      var ok, curlp, over := ScanRange(s, lp, code, ep + 1, op, a);
      if !ok {
        Blocked(Env(p, s, locs), u, lp, Captures());
        return Failed;
      }
      r := TryEnds(s, over, curlp, code, ep + 1 + Width(op) + 2, p, u, lp, depth);
    }

    /** Finds the first start at or after `p1` at which the program matches; at `p1` only when circf is set.
        The captures on entry are left over from earlier calls. */
    method Step(s: seq<byte>, p1: nat, code: seq<byte>, p2: nat, ghost p: seq<Item>)
      returns (r: Answer, ghost from: nat)
      requires Valid() && NulFree(s) && p1 <= |s| && Runnable(p) && Placed(code, p2, p, 0)
      modifies `loc1, `loc2, `low, `size, braslist, braelist
      ensures p1 <= from <= |s| && (circf ==> from == p1)
      ensures Answers(r, Search(Env(p, s, locs), 0, from, old(Captures())))
      ensures r == Matched || circf ==> loc1 == from
      ensures !circf ==> forall i :: p1 <= i < from ==> Search(Env(p, s, locs), 0, i, old(Captures())).No?
      ensures !circf && r == Failed ==> from == |s|
    {
      from := p1;
      if circf {
        loc1 := p1;
        r := Advance(s, p1, code, p2, p, 0, 0);
      } else {
        Fetch(code, p2, p, 0);
        if code[p2] == CCHR {
          FirstChar(Env(p, s, locs), code, p2);
          r, from := ScanForChar(s, p1, code, p2, code[p2 + 1], p);
        } else {
          r, from := ScanAll(s, p1, code, p2, p);
        }
      }
    }

    /** The fast loop of `step`: starts that do not carry the first character are skipped. */
    method ScanForChar(s: seq<byte>, p1: nat, code: seq<byte>, p2: nat, c: byte, ghost p: seq<Item>)
      returns (r: Answer, ghost from: nat)
      requires Valid() && NulFree(s) && p1 <= |s| && Runnable(p) && Placed(code, p2, p, 0)
      requires forall i, d :: 0 <= i <= |s| && CharAt(s, i) != c ==> Search(Env(p, s, locs), 0, i, d).No?
      modifies `loc1, `loc2, `low, `size, braslist, braelist
      ensures p1 <= from <= |s|
      ensures Answers(r, Search(Env(p, s, locs), 0, from, old(Captures())))
      ensures r == Matched ==> loc1 == from
      ensures forall i :: p1 <= i < from ==> Search(Env(p, s, locs), 0, i, old(Captures())).No?
      ensures r == Failed ==> from == |s|
    {
      hide Agree, Grouped, Placed, Search;
      ghost var e, c0 := Env(p, s, locs), Captures();
      AgreeSelf(p, 0, c0);
      var i: nat := p1;
      while true
        invariant p1 <= i <= |s|
        invariant Agree(p, 0, c0, Captures())
        invariant forall j :: p1 <= j < i ==> Search(e, 0, j, c0).No?
        decreases |s| - i
      {
        r, from := Failed, i;
        if CharAt(s, i) == c {
          r := TryStart(s, i, code, p2, p, c0);
          if r != Failed {
            return;
          }
        }
        if CharAt(s, i) == 0 {
          return;
        }
        i := i + 1;
      }
    }

    /** The regular loop of `step`. */
    method ScanAll(s: seq<byte>, p1: nat, code: seq<byte>, p2: nat, ghost p: seq<Item>)
      returns (r: Answer, ghost from: nat)
      requires Valid() && NulFree(s) && p1 <= |s| && Runnable(p) && Placed(code, p2, p, 0)
      modifies `loc1, `loc2, `low, `size, braslist, braelist
      ensures p1 <= from <= |s|
      ensures Answers(r, Search(Env(p, s, locs), 0, from, old(Captures())))
      ensures r == Matched ==> loc1 == from
      ensures forall i :: p1 <= i < from ==> Search(Env(p, s, locs), 0, i, old(Captures())).No?
      ensures r == Failed ==> from == |s|
    {
      hide Agree, Grouped, Placed, Search;
      ghost var e, c0 := Env(p, s, locs), Captures();
      AgreeSelf(p, 0, c0);
      var i: nat := p1;
      while true
        invariant p1 <= i <= |s|
        invariant Agree(p, 0, c0, Captures())
        invariant forall j :: p1 <= j < i ==> Search(e, 0, j, c0).No?
        decreases |s| - i
      {
        from := i;
        r := TryStart(s, i, code, p2, p, c0);
        if r != Failed {
          return;
        }
        if CharAt(s, i) == 0 {
          return;
        }
        i := i + 1;
      }
    }

    /** advance at `i`, with loc1 set when it matches. */
    method TryStart(s: seq<byte>, i: nat, code: seq<byte>, p2: nat, ghost p: seq<Item>, ghost c0: Caps)
      returns (r: Answer)
      requires Valid() && NulFree(s) && i <= |s| && Runnable(p) && Placed(code, p2, p, 0) && Agree(p, 0, c0, Captures())
      modifies `loc1, `loc2, `low, `size, braslist, braelist
      ensures Answers(r, Search(Env(p, s, locs), 0, i, c0))
      ensures r == Matched ==> loc1 == i
      ensures Agree(p, 0, c0, Captures())
    {
      hide Agree, Grouped, Placed, Search;
      ghost var before := Captures();
      SearchAgrees(Env(p, s, locs), 0, i, c0, before);
      CapsOkStart(p, before);
      r := Advance(s, i, code, p2, p, 0, 0);
      AgreeTrans(p, 0, c0, before, Captures());
      if r == Matched {
        loc1 := i;
      }
    }

    // ----- compile -----

    /** case '{' behind a backslash: the last item gets an interval. */
    method IntervalToken(pat: seq<byte>, pos: nat, buf: array<byte>, ep: nat, endbuf: nat, lastep: int,
                         ghost bracket: seq<byte>, ghost bracketp: nat, ghost closed: nat,
                         ghost base: nat, ghost toks: seq<Token>)
      returns (err: nat, pos': nat)
      requires base <= ep < endbuf <= buf.Length && lastep != -1
      requires AtLimit(ep, endbuf, SecondBound(pat, pos)).Some? ==> endbuf < buf.Length
      requires Built(buf[..], base, ep, lastep, toks) && Groups(bracket, bracketp, closed, nbra, toks)
      modifies buf
      ensures Bounded(buf, base, endbuf, AtLimit(ep, endbuf, SecondBound(pat, pos)))
      ensures match LexInterval(pat, pos)
        case Token(tok, end) =>
          && err == 0 && pos' == end && ep + 2 <= endbuf + 1
          && (ep + 2 <= endbuf <==> AtLimit(ep, endbuf, SecondBound(pat, pos)).None?)
          && Built(buf[..], base, ep + 2, lastep, toks + [tok])
          && Groups(bracket, bracketp, closed, nbra, toks + [tok])
        case Stop => false
        case Wrong(code) => err == code
    {
      hide Built, Items, LexInterval, SecondBound, Opens, Closes, Stack, OrRange, RangeOf;
      ghost var b, next := buf[..], LexInterval(pat, pos);
      NotFirst(buf[..], base, ep, lastep, toks);
      SecondIsStored(pat, pos);
      buf[lastep] := OrRange(buf[lastep]);
      var r;
      r, pos' := CompileInterval(pat, pos, buf, ep);
      if r.Error? {
        err := r.code;
        return;
      }
      err := 0;
      GroupsStep(toks, next.tok);
      Patch(b, buf[..], base, ep, lastep, ep + 2, toks, next.tok);
    }

    /** The token behind a backslash: `pos` is at the character after it. */
    method Escape(pat: seq<byte>, pos: nat, buf: array<byte>, ep: nat, endbuf: nat, lastep: int,
                  bracket: array<byte>, bracketp: nat, closed: nat, ghost base: nat, ghost toks: seq<Token>)
      returns (err: nat, pos': nat, ep': nat, lastep': int, bracketp': nat, closed': nat)
      requires base <= ep < endbuf <= buf.Length && buf != bracket && bracket.Length == NBRA
      requires AtLimit(ep, endbuf, SecondEscape(pat, pos, toks)).Some? ==> endbuf < buf.Length
      requires Built(buf[..], base, ep, lastep, toks) && Groups(bracket[..], bracketp, closed, nbra, toks)
      modifies buf, bracket, `nbra
      ensures Bounded(buf, base, endbuf, AtLimit(ep, endbuf, SecondEscape(pat, pos, toks)))
      ensures match LexEscape(pat, pos, toks)
        case Token(tok, end) =>
          && err == 0 && pos' == end && ep' <= endbuf + 1
          && (ep' <= endbuf <==> AtLimit(ep, endbuf, SecondEscape(pat, pos, toks)).None?)
          && Built(buf[..], base, ep', lastep', toks + [tok])
          && Groups(bracket[..], bracketp', closed', nbra, toks + [tok])
        case Stop => false
        case Wrong(code) => err == code
    {
      hide Built, Items, LexInterval, SecondBound, Opens, Closes, Stack;
      var c := Peek(pat, pos);
      err, pos', ep', lastep', bracketp', closed' := 0, pos + 1, ep + 2, ep, bracketp, closed;
      if c == LPAREN {
        if nbra >= NBRA {
          err := 43;
          return;
        }
        GroupsStep(toks, GroupOpen);
        Emit(buf, ep, CBRA, nbra, base, lastep, toks, GroupOpen);
        bracket[bracketp] := nbra;
        bracketp' := bracketp + 1;
        nbra := nbra + 1;
        assert bracket[..bracketp'] == bracket[..bracketp] + [bracket[bracketp]];
      } else if c == RPAREN {
        if bracketp == 0 {
          err := 42;
          return;
        }
        GroupsStep(toks, GroupClose);
        bracketp' := bracketp - 1;
        Emit(buf, ep, CKET, bracket[bracketp'], base, lastep, toks, GroupClose);
        closed' := closed + 1;
      } else if c == LBRACE && lastep != -1 {
        NotFirst(buf[..], base, ep, lastep, toks);
        lastep' := lastep;
        err, pos' := IntervalToken(pat, pos + 1, buf, ep, endbuf, lastep, bracket[..], bracketp, closed, base, toks);
      } else if c == NEWLINE {
        err := 36;
      } else if ONE <= c <= NINE {
        if c - ONE >= closed {
          err := 25;
          return;
        }
        GroupsStep(toks, BackRef(c - ONE));
        Emit(buf, ep, CBACK, c - ONE, base, lastep, toks, BackRef(c - ONE));
      } else {
        NotFirst(buf[..], base, ep, lastep, toks);
        GroupsStep(toks, Quoted(c));
        Emit(buf, ep, CCHR, if c == LETTER_N then NEWLINE else c, base, lastep, toks, Quoted(c));
      }
    }

    /** One turn of the main loop, for a character that neither ends the pattern nor lies past its end. */
    method CompileToken(pat: seq<byte>, eof: byte, pos: nat, buf: array<byte>, ep: nat, endbuf: nat, lastep: int,
                        bracket: array<byte>, bracketp: nat, closed: nat, ghost base: nat, ghost toks: seq<Token>)
      returns (err: nat, pos': nat, ep': nat, lastep': int, bracketp': nat, closed': nat)
      requires NulFree(pat) && base <= ep < endbuf <= buf.Length && buf != bracket && bracket.Length == NBRA
      requires AtLimit(ep, endbuf, SecondByte(pat, eof, sed, pos, toks)).Some? ==> endbuf < buf.Length
      requires Built(buf[..], base, ep, lastep, toks) && Groups(bracket[..], bracketp, closed, nbra, toks)
      requires Peek(pat, pos) != eof && Peek(pat, pos) != NEWLINE && Peek(pat, pos) != 0
      modifies buf, bracket, `nbra
      ensures Bounded(buf, base, endbuf, AtLimit(ep, endbuf, SecondByte(pat, eof, sed, pos, toks)))
      ensures match NextToken(pat, eof, sed, pos, toks)
        case Token(tok, end) =>
          || (&& err == 0 && pos' == end && ep' <= endbuf + 1
              && (ep' <= endbuf <==> AtLimit(ep, endbuf, SecondByte(pat, eof, sed, pos, toks)).None?)
              && Built(buf[..], base, ep', lastep', toks + [tok])
              && Groups(bracket[..], bracketp', closed', nbra, toks + [tok]))
          || (&& err == 50 && endbuf <= base + |ItemsCode(Items(toks + [tok]))|
              && AtLimit(ep, endbuf, SecondByte(pat, eof, sed, pos, toks)).None?)
        case Stop => false
        case Wrong(code) => err == if code == 49 && endbuf <= ep + ClassRoom(pat, pos + 1) then 50 else code
    {
      hide Built, Groups, Items, ItemsCode, LexBracket, LexEscape, StarIsLiteral;
      var c := Peek(pat, pos);
      if c == BACKSLASH {
        EscapeCode(pat, pos + 1, toks);
        err, pos', ep', lastep', bracketp', closed' :=
          Escape(pat, pos + 1, buf, ep, endbuf, lastep, bracket, bracketp, closed, base, toks);
      } else if c == LBRACKET {
        bracketp', closed', lastep' := bracketp, closed, ep;
        ClassHasNoSecond(pat, pos + 1, toks);
        err, pos', ep' :=
          BracketToken(pat, pos + 1, buf, ep, endbuf, lastep, bracket[..], bracketp, closed, base, toks);
      } else {
        bracketp', closed', pos' := bracketp, closed, pos + 1;
        err := 0;
        ep', lastep' := PlainToken(pat, eof, pos, buf, ep, endbuf, lastep, bracket[..], bracketp, closed, base, toks);
      }
    }

    /** case '[' */
    method BracketToken(pat: seq<byte>, pos: nat, buf: array<byte>, ep: nat, endbuf: nat, ghost lastep: int,
                        ghost bracket: seq<byte>, ghost bracketp: nat, ghost closed: nat,
                        ghost base: nat, ghost toks: seq<Token>)
      returns (err: nat, pos': nat, ep': nat)
      requires NulFree(pat) && base <= ep < endbuf <= buf.Length
      requires Built(buf[..], base, ep, lastep, toks) && Groups(bracket, bracketp, closed, nbra, toks)
      modifies buf
      ensures OnlyWithin(buf, ep, endbuf)
      ensures match LexBracket(pat, pos)
        case Token(tok, end) =>
          || (&& err == 0 && pos' == end && ep' <= endbuf
              && Built(buf[..], base, ep', ep, toks + [tok])
              && Groups(bracket, bracketp, closed, nbra, toks + [tok]))
          || (err == 50 && endbuf <= base + |ItemsCode(Items(toks + [tok]))|)
        case Stop => false
        case Wrong(code) => code == 49 && err == if endbuf <= ep + ClassRoom(pat, pos) then 50 else code
    {
      hide Built, Items, ItemsCode, ItemCode, LexBracket, Opens, Closes, Stack;
      ghost var b, next := buf[..], LexBracket(pat, pos);
      var r;
      r, pos' := CompileBracket(pat, pos, buf, ep, endbuf);
      if r.Error? {
        if next.Token? { BracketSize(b, base, ep, lastep, toks, next.tok); }
        return r.code, pos', ep;
      }
      err, ep' := 0, r.ep;
      GroupsStep(toks, next.tok);
      Append(b, buf[..], base, ep, lastep, ep', toks, next.tok);
    }

    /** The characters that stand for an item, or a star, by themselves. */
    method PlainToken(pat: seq<byte>, eof: byte, pos: nat, buf: array<byte>, ep: nat, endbuf: nat, lastep: int,
                      ghost bracket: seq<byte>, ghost bracketp: nat, ghost closed: nat,
                      ghost base: nat, ghost toks: seq<Token>)
      returns (ep': nat, lastep': int)
      requires base <= ep < endbuf <= buf.Length
      requires AtLimit(ep, endbuf, SecondByte(pat, eof, sed, pos, toks)).Some? ==> endbuf < buf.Length
      requires Built(buf[..], base, ep, lastep, toks) && Groups(bracket, bracketp, closed, nbra, toks)
      requires Peek(pat, pos) !in {eof, NEWLINE, 0, LBRACKET, BACKSLASH}
      modifies buf
      ensures Bounded(buf, base, endbuf, AtLimit(ep, endbuf, SecondByte(pat, eof, sed, pos, toks)))
      ensures var next := NextToken(pat, eof, sed, pos, toks);
        && next.Token? && next.end == pos + 1 && ep' <= endbuf + 1
        && (ep' <= endbuf <==> AtLimit(ep, endbuf, SecondByte(pat, eof, sed, pos, toks)).None?)
        && Built(buf[..], base, ep', lastep', toks + [next.tok])
        && Groups(bracket, bracketp, closed, nbra, toks + [next.tok])
    {
      hide Built, Items, ItemsCode, LexBracket, LexEscape, Opens, Closes, Stack, StarIsLiteral;
      var c := Peek(pat, pos);
      ep', lastep' := ep, ep;
      GroupsStep(toks, NextToken(pat, eof, sed, pos, toks).tok);
      if c == PERIOD {
        EmitOne(buf, ep, CDOT, base, lastep, toks, AnyChar);
        ep' := ep + 1;
      } else if c == DOLLAR && (Peek(pat, pos + 1) == eof || Peek(pat, pos + 1) == NEWLINE) {
        EmitOne(buf, ep, CDOL, base, lastep, toks, EndAnchor);
        ep' := ep + 1;
      } else if c == ASTERISK && !TakesStar(buf, ep, lastep, base, toks) {
        ghost var b := buf[..];
        buf[lastep] := OrStar(buf[lastep]);
        lastep' := lastep;
        Patch(b, buf[..], base, ep, lastep, ep, toks, Asterisk);
      } else {
        Emit(buf, ep, CCHR, c, base, lastep, toks, Literal(c));
        ep' := ep + 2;
      }
    }

    /** The test of case '*': true when the star is an ordinary character. */
    static predicate TakesStar(buf: array<byte>, ep: nat, lastep: int, ghost base: nat, ghost toks: seq<Token>)
      requires Built(buf[..], base, ep, lastep, toks)
      reads buf
      ensures TakesStar(buf, ep, lastep, base, toks) <==> StarIsLiteral(toks)
      ensures !TakesStar(buf, ep, lastep, base, toks) ==> base <= lastep < ep && Items(toks) != []
    {
      NotFirst(buf[..], base, ep, lastep, toks);
      lastep == -1 || (LastOpcode(buf[..], base, ep, lastep, toks); buf[lastep] == CBRA || buf[lastep] == CKET)
    }

    /** Past the end of a pattern without delimiter every character read is NUL, until the buffer is full. */
    method FillUp(buf: array<byte>, from: nat, endbuf: nat)
      requires from <= endbuf <= buf.Length && ((endbuf - from) % 2 == 1 ==> endbuf < buf.Length)
      modifies buf
      ensures Bounded(buf, from, endbuf, if (endbuf - from) % 2 == 1 then Some(0) else None)
    {
      var ep := from;
      while ep < endbuf
        invariant from <= ep <= endbuf + 1 && (ep - from) % 2 == 0
        invariant ep <= endbuf ==> OnlyWithin(buf, from, endbuf)
        invariant ep > endbuf ==> Bounded(buf, from, endbuf, Some(0))
      {
        buf[ep] := CCHR;
        buf[ep + 1] := 0;
        ep := ep + 2;
      }
    }

    /** The end of the pattern: CCEOF, and all groups must be closed. */
    method FinishProgram(pos: nat, buf: array<byte>, ghost base: nat, ep: nat, delimiter: bool, bracketp: nat,
                         ghost bracket: seq<byte>, ghost closed: nat, ghost lastep: int, ghost toks: seq<Token>)
      returns (r: Compiled, pos': nat)
      requires base <= ep < buf.Length
      requires Built(buf[..], base, ep, lastep, toks) && Groups(bracket, bracketp, closed, nbra, toks)
      modifies buf, `nodelim
      ensures OnlyWithin(buf, ep, ep + 1)
      ensures Stack(toks) != [] ==> r == Error(42)
      ensures Stack(toks) == [] ==>
        && r == Return(base + |Code(Items(toks))|) && |Code(Items(toks))| == ep + 1 - base
        && buf[base..ep + 1] == Code(Items(toks)) && nbra == Opens(toks)
      ensures pos' == if delimiter then pos + 1 else pos
      ensures nodelim == (old(nodelim) || !delimiter)
    {
      hide Built, Items, ItemsCode, Code, Opens, Closes, Stack;
      ghost var b := buf[..];
      buf[ep] := CCEOF;
      pos' := pos;
      if delimiter {
        pos' := pos + 1;
      } else {
        nodelim := true;
      }
      if bracketp != 0 {
        return Error(42), pos';
      }
      Behind(b, buf[..], base, ep, lastep, toks);
      Finished(buf[..], base, ep, lastep, toks);
      return Return(ep + 1), pos';
    }

    /** What becomes of a pattern that reads as `parsed`, in a buffer with `room` bytes from `base` on; `before` is
        what `nodelim` was. */
    ghost predicate Outcome(parsed: Parsed, pat: seq<byte>, eof: byte, buf: array<byte>, base: nat, room: int,
                            before: bool, r: Compiled, pos: nat)
      reads this, buf
    {
      match parsed
      case Accept(toks, end) =>
        var code := Code(Items(toks));
        if |code| <= room
        then && r == Return(base + |code|) && base + |code| <= buf.Length && buf[base..base + |code|] == code
             && nbra == Opens(toks)
             && pos == (if Peek(pat, end) == eof then end + 1 else end)
             && nodelim == (before || Peek(pat, end) != eof)
        else r == Error(50)
      case Reject(code, sofar, at) =>
        var left := room - |ItemsCode(Items(sofar))|;
        r == Error(if left <= 0 || (code == 49 && left <= ClassRoom(pat, at + 1)) then 50 else code)
    }

    /** The last turn of the main loop: the pattern ends, or runs out without a delimiter. */
    method LastTurn(pat: seq<byte>, start: nat, buf: array<byte>, ep: nat, endbuf: nat, eof: byte, bracketp: nat,
                    ghost bracket: seq<byte>, ghost closed: nat, ghost lastep: int,
                    ghost base: nat, ghost toks: seq<Token>)
      returns (r: Compiled, pos: nat)
      requires base <= ep < endbuf <= buf.Length && Peek(pat, start) in {eof, NEWLINE, 0}
      requires Spilled(pat, eof, sed, start, toks, endbuf - base).Some? ==> endbuf < buf.Length
      requires Built(buf[..], base, ep, lastep, toks) && Groups(bracket, bracketp, closed, nbra, toks)
      modifies buf, `nodelim
      ensures Bounded(buf, base, endbuf, Spilled(pat, eof, sed, start, toks, endbuf - base))
      ensures Outcome(Parse(pat, eof, sed, start, toks), pat, eof, buf, base, endbuf - base, old(nodelim), r, pos)
    {
      hide Built, NextToken, Parse, Items, ItemsCode, Code, Opens, Closes, Stack, ClassRoom, SecondByte, Spilled;
      BuiltSize(buf[..], base, ep, lastep, toks);
      ParseStep(pat, eof, sed, start, toks);
      SpilledStep(pat, eof, sed, start, toks, endbuf - base);
      LastStep(pat, eof, sed, start, toks);
      StopStoresOne(pat, eof, sed, start, toks);
      var c := Peek(pat, start);
      if c == eof || (c == NEWLINE && !sed) {
        r, pos := FinishProgram(start, buf, base, ep, c == eof, bracketp, bracket, closed, lastep, toks);
        return;
      }
      if c == NEWLINE {
        return Error(36), start;
      }
      FillUp(buf, ep, endbuf);
      return Error(50), start;
    }

    /** The main loop, from the character at `start` on. */
    method CompileLoop(pat: seq<byte>, start: nat, buf: array<byte>, base: nat, endbuf: nat, eof: byte)
      returns (r: Compiled, pos: nat)
      requires NulFree(pat) && base <= endbuf <= buf.Length && nbra == 0
      requires Spilled(pat, eof, sed, start, [], endbuf - base).Some? ==> endbuf < buf.Length
      modifies buf, `nbra, `nodelim
      ensures Bounded(buf, base, endbuf, Spilled(pat, eof, sed, start, [], endbuf - base))
      ensures Outcome(Parse(pat, eof, sed, start, []), pat, eof, buf, base, endbuf - base, old(nodelim), r, pos)
    {
      hide Built, Groups, NextToken, Parse, Items, ItemsCode, Code, Opens, Closes, Stack, ClassRoom,
           SecondByte, Spilled, Left, Peek;
      ghost var spill := Spilled(pat, eof, sed, start, [], endbuf - base);
      var bracket := new byte[NBRA](_ => 0);
      var ep, lastep, bracketp, closed := base, -1, 0, 0;
      ghost var toks: seq<Token> := [];
      pos := start;
      Start(buf[..], base, bracket[..]);
      while true
        invariant base <= ep <= endbuf + 1
        invariant Built(buf[..], base, ep, lastep, toks) && Groups(bracket[..], bracketp, closed, nbra, toks)
        invariant Parse(pat, eof, sed, start, []) == Parse(pat, eof, sed, pos, toks)
        invariant ep <= endbuf ==>
          OnlyWithin(buf, base, endbuf) && spill == Spilled(pat, eof, sed, pos, toks, endbuf - base)
        invariant ep > endbuf ==> Bounded(buf, base, endbuf, spill)
        invariant nodelim == old(nodelim)
        decreases Left(pat, pos)
      {
        BuiltSize(buf[..], base, ep, lastep, toks);
        ParseStep(pat, eof, sed, pos, toks);
        SpilledStep(pat, eof, sed, pos, toks, endbuf - base);
        if ep >= endbuf {
          TooLong(pat, eof, sed, pos, toks, endbuf - base);
          return Error(50), pos;
        }
        if Peek(pat, pos) in {eof, NEWLINE, 0} {
          r, pos := LastTurn(pat, pos, buf, ep, endbuf, eof, bracketp, bracket[..], closed, lastep, base, toks);
          return;
        }
        var err;
        ghost var next := NextToken(pat, eof, sed, pos, toks);
        ErrorIsNotZero(pat, eof, sed, pos, toks);
        err, pos, ep, lastep, bracketp, closed :=
          CompileToken(pat, eof, pos, buf, ep, endbuf, lastep, bracket, bracketp, closed, base, toks);
        if err != 0 {
          if next.Token? {
            TooLong(pat, eof, sed, next.end, toks + [next.tok], endbuf - base);
            SpilledStep(pat, eof, sed, next.end, toks + [next.tok], endbuf - base);
          }
          return Error(err), pos;
        }
        toks := toks + [next.tok];
        BuiltSize(buf[..], base, ep, lastep, toks);
      }
    }

    /** compile(instring, ep, endbuf, seof), with the pattern read through GETC, PEEKC and UNGETC. */
    method Compile(pat: seq<byte>, buf: array<byte>, base: nat, endbuf: nat, eof: byte) returns (r: Compiled, pos: nat)
      requires NulFree(pat) && base <= endbuf <= buf.Length
      // an empty pattern, for which the previous expression is to be used again, looks at what is in the buffer
      requires if Peek(pat, 0) in {eof, NEWLINE} then base < buf.Length
               else Spilled(pat, eof, sed, FirstToken(pat), [], endbuf - base).Some? ==> endbuf < buf.Length
      modifies buf, `circf, `nbra, `nodelim
      ensures Peek(pat, 0) in {eof, NEWLINE} ==> OnlyWithin(buf, base, base)
      ensures Peek(pat, 0) !in {eof, NEWLINE} ==>
        Bounded(buf, base, endbuf, Spilled(pat, eof, sed, FirstToken(pat), [], endbuf - base))
      ensures Peek(pat, 0) in {eof, NEWLINE} ==>
        && r == (if buf[base] == 0 && !sed then Error(41) else Return(base))
        && circf == old(circf) && nbra == old(nbra)
        && pos == (if Peek(pat, 0) == NEWLINE then 0 else 1)
        && nodelim == (old(nodelim) || Peek(pat, 0) == NEWLINE)
      ensures Peek(pat, 0) !in {eof, NEWLINE} ==>
        && circf == (Peek(pat, 0) == CARET)
        && Outcome(Parse(pat, eof, sed, FirstToken(pat), []), pat, eof, buf, base, endbuf - base, old(nodelim), r, pos)
    {
      hide Parse, Items, ItemsCode, Code, Opens, ClassRoom, Spilled;
      var c := Peek(pat, 0);
      if c == eof || c == NEWLINE {
        pos := 1;
        if c == NEWLINE {
          pos := 0;
          nodelim := true;
        }
        r := if buf[base] == 0 && !sed then Error(41) else Return(base);
        return;
      }
      circf := false;
      nbra := 0;
      pos := 0;
      if c == CARET {
        circf := true;
        pos := 1;
      }
      r, pos := CompileLoop(pat, pos, buf, base, endbuf, eof);
    }
  }
}
