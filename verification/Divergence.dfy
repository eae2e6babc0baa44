/**
 When `advance` runs for ever.

 A starred back-reference to an empty capture never stops counting copies. Whether some text
 leads there can be read off the program: follow it with the smallest repetition counts.
 */
module Divergence {
  import opened Bytes
  import opened Program
  import opened Semantics

  // ----- the shortest run -----

  ghost function FewestReps(x: Item): nat {
    match x.base
    case One(_) => Least(SuffixOf(x))
    case Back(_) => if x.star then 0 else 1
    case _ => 0
  }

  ghost function NoCaps(): Caps {
    Caps(seq(NBRA, _ => 0), seq(NBRA, _ => 0))
  }

  /** Length of what the item takes at least, given the captures of the shortest run. */
  ghost function ShortestItem(x: Item, c: Caps): nat {
    match x.base
    case One(_) => FewestReps(x)
    case Back(g) =>
      if x.star || g >= |c.starts| || g >= |c.ends| || c.ends[g] < c.starts[g] then 0 else c.ends[g] - c.starts[g]
    case _ => 0
  }

  /** Position and captures in front of item `t` when every item is repeated as rarely as possible. */
  ghost function Shortest(p: seq<Item>, t: nat): (r: (nat, Caps))
    requires t <= |p|
    ensures CapsShape(r.1)
  {
    if t == 0 then (0, NoCaps())
    else
      var (i, c) := Shortest(p, t - 1);
      (i + ShortestItem(p[t - 1], c), NextCaps(p[t - 1], i, c))
  }

  ghost predicate Satisfiable(a: Atom) {
    exists c: byte :: Accepts(a, c)
  }

  /** Some text gets past all items before `t`. */
  ghost predicate Passable(p: seq<Item>, t: nat) {
    forall x :: 0 <= x < t && x < |p| && p[x].base.One? && FewestReps(p[x]) > 0 ==> Satisfiable(p[x].base.atom)
  }

  /** Item `t` is a starred back-reference to a group that can be empty, and it can be reached. */
  ghost predicate HangsAt(p: seq<Item>, t: nat) {
    && t < |p| && p[t].base.Back? && p[t].star && p[t].base.g < NBRA
    && Passable(p, t)
    && var c := Shortest(p, t).1; c.ends[p[t].base.g] == c.starts[p[t].base.g]
  }

  lemma {:induction false} ShortestOk(p: seq<Item>, t: nat)
    requires Runnable(p) && t <= |p|
    ensures CapsOk(p, t, Shortest(p, t).1, Shortest(p, t).0)
  {
    if t != 0 {
      ShortestOk(p, t - 1);
      CapsOkStep(p, t - 1, Shortest(p, t - 1).1, Shortest(p, t - 1).0, Shortest(p, t).0);
    }
  }

  // ----- no run is shorter -----

  ghost predicate GroupAbove(b: Base, c: Caps, m: (nat, Caps), from: int, i: int)
    requires CapsShape(c) && CapsShape(m.1)
  {
    match b
    case Open(g) => g < NBRA ==> 0 <= c.starts[g] - m.1.starts[g] - from <= i - m.0 - from
    case Close(g) =>
      g < NBRA ==> 0 <= c.starts[g] - m.1.starts[g] - from <= c.ends[g] - m.1.ends[g] - from <= i - m.0 - from
    case _ => true
  }

  /** A run that began at `from` and stands at `i` in front of item `t` has fallen behind the shortest run
      at no item. */
  ghost predicate Above(p: seq<Item>, t: nat, from: nat, i: nat, c: Caps) {
    && t <= |p| && CapsShape(c)
    && from + Shortest(p, t).0 <= i
    && forall x :: 0 <= x < t ==> GroupAbove(p[x].base, c, Shortest(p, t), from, i)
  }

  /** The capture a back-reference reads is at least as long as in the shortest run. */
  lemma {:induction false} CaptureAbove(e: Env, t: nat, from: nat, i: nat, c: Caps)
    requires t < |e.p| && Runnable(e.p) && e.p[t].base.Back? && i <= |e.s|
    requires Above(e.p, t, from, i, c) && CapsOk(e.p, t, c, i)
    ensures e.p[t].base.g < NBRA
    ensures var g, m := e.p[t].base.g, Shortest(e.p, t);
      && m.1.starts[g] <= m.1.ends[g]
      && m.1.ends[g] - m.1.starts[g] <= |Captured(e.s, c, g)| == c.ends[g] - c.starts[g]
      && (i == from + m.0 ==> |Captured(e.s, c, g)| == m.1.ends[g] - m.1.starts[g])
  {
    BackOk(e.p, t, c, i);
    ShortestOk(e.p, t);
    BackOk(e.p, t, Shortest(e.p, t).1, Shortest(e.p, t).0);
    BackIsSettled(e.p, t, e.p[t].base.g);
    var x :| 0 <= x < t && x < |e.p| && e.p[x].base == Close(e.p[t].base.g);
    assert GroupAbove(e.p[x].base, c, Shortest(e.p, t), from, i);
  }

  lemma {:induction false} AboveStep(e: Env, t: nat, from: nat, i: nat, c: Caps, k: nat)
    requires t < |e.p| && Runnable(e.p) && i <= |e.s| && Feasible(e, e.p[t], i, c, k)
    requires Above(e.p, t, from, i, c) && CapsOk(e.p, t, c, i)
    ensures Above(e.p, t + 1, from, NextPos(e, e.p[t], i, c, k), NextCaps(e.p[t], i, c))
  {
    var p, m := e.p, Shortest(e.p, t);
    var j, d, n := NextPos(e, p[t], i, c, k), NextCaps(p[t], i, c), Shortest(p, t + 1);
    assert Shaped(p[t]) && GroupedAt(p, t);
    assert i - m.0 <= j - n.0 by { StepAbove(e, t, from, i, c, k); }
    forall x | 0 <= x < t + 1 ensures GroupAbove(p[x].base, d, n, from, j) {
      if x < t {
        assert GroupAbove(p[x].base, c, m, from, i);
        assert GroupedAt(p, x);
      } else if p[t].base.Close? {
        var y :| 0 <= y < t && y < |p| && p[y].base == Open(p[t].base.g);
        assert GroupAbove(p[y].base, c, m, from, i);
      }
    }
  }

  /** The item takes at least what it takes in the shortest run. */
  lemma {:induction false} StepAbove(e: Env, t: nat, from: nat, i: nat, c: Caps, k: nat)
    requires t < |e.p| && Runnable(e.p) && i <= |e.s| && Feasible(e, e.p[t], i, c, k)
    requires Above(e.p, t, from, i, c) && CapsOk(e.p, t, c, i)
    ensures NextPos(e, e.p[t], i, c, k) >= i + ShortestItem(e.p[t], Shortest(e.p, t).1)
  {
    if e.p[t].base.Back? {
      CaptureAbove(e, t, from, i, c);
      var w := Captured(e.s, c, e.p[t].base.g);
      assert Power(w, 1) == w + Power(w, 0) == w;
    }
  }

  // ----- a run that does not return -----

  lemma {:induction false} PassableStep(e: Env, t: nat, i: nat, c: Caps, k: nat)
    requires t < |e.p| && i <= |e.s| && Feasible(e, e.p[t], i, c, k) && Passable(e.p, t)
    ensures Passable(e.p, t + 1)
  {
    if e.p[t].base.One? && FewestReps(e.p[t]) > 0 {
      assert Accepts(e.p[t].base.atom, e.s[i]);
    }
  }

  lemma {:induction false} NeverHangs(e: Env, t: nat, from: nat, i: nat, c: Caps) returns (u: nat)
    requires t <= |e.p| && i <= |e.s| && Runnable(e.p) && Passable(e.p, t)
    requires Above(e.p, t, from, i, c) && CapsOk(e.p, t, c, i)
    requires Search(e, t, i, c).Never?
    ensures HangsAt(e.p, u)
    decreases |e.p| - t, 1, 0
  {
    if Stuck(e, e.p[t], c) {
      CaptureAbove(e, t, from, i, c);
      u := t;
    } else {
      u := DownHangs(e, t, from, i, c, High(e, e.p[t], i, c));
    }
  }

  lemma {:induction false} DownHangs(e: Env, t: nat, from: nat, i: nat, c: Caps, k: int) returns (u: nat)
    requires t < |e.p| && i <= |e.s| && Runnable(e.p) && Passable(e.p, t) && k <= High(e, e.p[t], i, c)
    requires Above(e.p, t, from, i, c) && CapsOk(e.p, t, c, i)
    requires Down(e, t, i, c, k).Never?
    ensures HangsAt(e.p, u)
    decreases |e.p| - t, 0, k
  {
    FeasibleRange(e, e.p[t], i, c, k);
    NextPosBound(e, e.p[t], i, c, k);
    var j, d := NextPos(e, e.p[t], i, c, k), NextCaps(e.p[t], i, c);
    if Search(e, t + 1, j, d).No? {
      u := DownHangs(e, t, from, i, c, k - 1);
    } else {
      AboveStep(e, t, from, i, c, k);
      CapsOkStep(e.p, t, c, i, j);
      PassableStep(e, t, i, c, k);
      u := NeverHangs(e, t + 1, from, j, d);
    }
  }

  lemma {:induction false} ShortestAbove(p: seq<Item>, t: nat)
    requires Runnable(p) && t <= |p|
    ensures Above(p, t, 0, Shortest(p, t).0, Shortest(p, t).1) && CapsOk(p, t, Shortest(p, t).1, Shortest(p, t).0)
  {
    ShortestOk(p, t);
  }

  // ----- a text on which it does not return -----

  /** CDOL stands only at the end of a program. */
  ghost predicate DolLast(p: seq<Item>) {
    forall x :: 0 <= x < |p| && p[x].base.Dol? ==> x == |p| - 1
  }

  ghost function Sample(a: Atom): byte
    requires Satisfiable(a)
    ensures Accepts(a, Sample(a))
  {
    var c: byte :| Accepts(a, c); c
  }

  /** The text of the shortest run. */
  ghost function ShortestText(p: seq<Item>, t: nat): seq<byte>
    requires t <= |p| && Passable(p, t)
  {
    if t == 0 then []
    else
      var w, x := ShortestText(p, t - 1), p[t - 1];
      match x.base
      case One(a) => if FewestReps(x) == 0 then w else w + seq(FewestReps(x), _ => Sample(a))
      case Back(g) => if x.star then w else w + Captured(w, Shortest(p, t - 1).1, g)
      case _ => w
  }

  lemma {:induction false} ShortestTextLength(p: seq<Item>, t: nat)
    requires t <= |p| && Passable(p, t) && Runnable(p)
    ensures |ShortestText(p, t)| == Shortest(p, t).0
  {
    hide Grouped, CapsOk, Shortest, ShortestItem, Captured;
    if t == 0 {
      ShortestStart(p);
    } else {
      ShortestTextLength(p, t - 1);
      ShortestNext(p, t - 1);
      var x, m := p[t - 1], Shortest(p, t - 1);
      if x.base.Back? {
        ShortestOk(p, t - 1);
        BackOk(p, t - 1, m.1, m.0);
        CaptureLength(ShortestText(p, t - 1), x, m.1);
      }
    }
  }

  lemma {:induction false} ShortestStart(p: seq<Item>)
    ensures Shortest(p, 0) == (0, NoCaps())
  {
  }

  lemma {:induction false} CaptureLength(w: seq<byte>, x: Item, c: Caps)
    requires x.base.Back? && CapsShape(c) && x.base.g < NBRA && 0 <= c.starts[x.base.g] <= c.ends[x.base.g] <= |w|
    ensures ShortestItem(x, c) == if x.star then 0 else |Captured(w, c, x.base.g)|
  {
  }

  lemma {:induction false} ShortestTextNulFree(p: seq<Item>, t: nat)
    requires t <= |p| && Passable(p, t) && ShapedAll(p)
    ensures NulFree(ShortestText(p, t))
  {
    hide Captured, Shortest, Satisfiable;
    if t != 0 {
      ShortestTextNulFree(p, t - 1);
      assert Shaped(p[t - 1]);
      if p[t - 1].base.Back? {
        CapturedNulFree(ShortestText(p, t - 1), Shortest(p, t - 1).1, p[t - 1].base.g);
      }
    }
  }

  lemma {:induction false} CapturedNulFree(s: seq<byte>, c: Caps, g: byte)
    requires NulFree(s)
    ensures NulFree(Captured(s, c, g))
  {
  }

  lemma {:induction false} ShortestTextPrefix(p: seq<Item>, u: nat, t: nat)
    requires u <= t <= |p| && Passable(p, t)
    ensures ShortestText(p, u) <= ShortestText(p, t)
  {
    hide Captured, Shortest, Satisfiable;
    if u < t { ShortestTextPrefix(p, u, t - 1); }
  }

  /** On its own text the shortest run gets past item `u`. */
  lemma {:induction false} ShortestFeasible(e: Env, u: nat, t: nat)
    requires u < t < |e.p| && Passable(e.p, t) && Runnable(e.p) && DolLast(e.p)
    requires e.locs < 0 && e.s == ShortestText(e.p, t)
    ensures Shortest(e.p, u).0 <= |e.s|
    ensures var m, n := Shortest(e.p, u), Shortest(e.p, u + 1);
      var k := FewestReps(e.p[u]);
      && Feasible(e, e.p[u], m.0, m.1, k)
      && NextPos(e, e.p[u], m.0, m.1, k) == n.0 && NextCaps(e.p[u], m.0, m.1) == n.1
  {
    hide Captured, Feasible, Satisfiable, Grouped, CapsOk, Power, Shortest, ShortestText, ShortestItem;
    var p, m, x := e.p, Shortest(e.p, u), e.p[u];
    var v, w := ShortestText(p, u), ShortestText(p, u + 1);
    ShortestNext(p, u);
    ShortestTextLength(p, u);
    ShortestTextPrefix(p, u, t);
    ShortestTextPrefix(p, u + 1, t);
    assert Shaped(x);
    match x.base
    case One(a) =>
      TextOfOne(p, u);
      OneFits(e, x, m.0, m.1, w);
    case Back(g) =>
      ShortestOk(p, u);
      BackOk(p, u, m.1, m.0);
      TextOfBack(p, u);
      BackFits(e, x, m.0, m.1, v);
    case Dol =>
    case _ => MarkFits(e, x, m.0, m.1);
  }

  lemma {:induction false} ShortestNext(p: seq<Item>, u: nat)
    requires u < |p|
    ensures var m, n := Shortest(p, u), Shortest(p, u + 1);
      n.0 == m.0 + ShortestItem(p[u], m.1) && n.1 == NextCaps(p[u], m.0, m.1)
    ensures p[u].base.One? ==> ShortestItem(p[u], Shortest(p, u).1) == FewestReps(p[u])
    ensures !p[u].base.One? && !p[u].base.Back? ==> ShortestItem(p[u], Shortest(p, u).1) == 0
  {
  }

  lemma {:induction false} TextOfBack(p: seq<Item>, u: nat)
    requires u < |p| && Passable(p, u + 1) && p[u].base.Back?
    ensures !p[u].star ==>
      var v := ShortestText(p, u);
      ShortestText(p, u + 1) == v + Captured(v, Shortest(p, u).1, p[u].base.g)
  {
    hide Captured, Shortest;
  }

  lemma {:induction false} MarkFits(e: Env, x: Item, i: nat, c: Caps)
    requires i <= |e.s| && (x.base.Open? || x.base.Close?)
    ensures Feasible(e, x, i, c, 0)
  {
  }

  lemma {:induction false} OneFits(e: Env, x: Item, i: nat, c: Caps, w: seq<byte>)
    requires i <= |e.s| && x.base.One? && Shaped(x) && e.locs < 0 && w <= e.s && |w| == i + FewestReps(x)
    requires forall y :: i <= y < |w| ==> Accepts(x.base.atom, w[y])
    ensures Feasible(e, x, i, c, FewestReps(x))
  {
    forall y | i <= y < i + FewestReps(x) ensures Accepts(x.base.atom, e.s[y]) {
      assert e.s[y] == w[y];
    }
  }

  lemma {:induction false} TextOfOne(p: seq<Item>, u: nat)
    requires u < |p| && Passable(p, u + 1) && p[u].base.One?
    ensures var v, w := ShortestText(p, u), ShortestText(p, u + 1);
      && |w| == |v| + FewestReps(p[u])
      && forall y :: |v| <= y < |w| ==> Accepts(p[u].base.atom, w[y])
  {
    hide Captured, Shortest;
  }

  lemma {:induction false} BackFits(e: Env, x: Item, i: nat, c: Caps, v: seq<byte>)
    requires i == |v| <= |e.s| && x.base.Back? && CapsShape(c) && x.base.g < NBRA
    requires 0 <= c.starts[x.base.g] <= c.ends[x.base.g] <= i
    requires v <= e.s && (!x.star ==> v + Captured(v, c, x.base.g) <= e.s)
    ensures Feasible(e, x, i, c, FewestReps(x))
    ensures NextPos(e, x, i, c, FewestReps(x)) == i + ShortestItem(x, c)
  {
    var cap := Captured(v, c, x.base.g);
    assert cap == Captured(e.s, c, x.base.g);
    assert Power(cap, 1) == cap + Power(cap, 0) == cap;
    if !x.star {
      assert e.s[i..][..|cap|] == (v + cap)[i..] == cap;
    }
  }

  /** A feasible count leads to a state that is again not behind the shortest run. */
  lemma {:induction false} Onward(e: Env, u: nat, i: nat, c: Caps, k: int)
    requires u < |e.p| && Runnable(e.p) && i <= |e.s| && Low(e, e.p[u], i, c) <= k <= High(e, e.p[u], i, c)
    requires Above(e.p, u, 0, i, c) && CapsOk(e.p, u, c, i)
    ensures var j, d := NextPos(e, e.p[u], i, c, k), NextCaps(e.p[u], i, c);
      j <= |e.s| && Above(e.p, u + 1, 0, j, d) && CapsOk(e.p, u + 1, d, j)
  {
    hide Feasible, Above, CapsOk, High, Low, NextPos, NextCaps;
    FeasibleRange(e, e.p[u], i, c, k);
    NextPosBound(e, e.p[u], i, c, k);
    AboveStep(e, u, 0, i, c, k);
    CapsOkStep(e.p, u, c, i, NextPos(e, e.p[u], i, c, k));
  }

  /** On that text nothing gets past item `t`. */
  lemma {:induction false} NothingPasses(e: Env, t: nat, u: nat, i: nat, c: Caps)
    requires u <= t && HangsAt(e.p, t) && Runnable(e.p) && e.s == ShortestText(e.p, t) && i <= |e.s|
    requires Above(e.p, u, 0, i, c) && CapsOk(e.p, u, c, i)
    ensures !Search(e, u, i, c).Yes?
    decreases t - u, 1, 0
  {
    if u == t {
      ShortestTextLength(e.p, t);
      CaptureAbove(e, t, 0, i, c);
    } else if !Stuck(e, e.p[u], c) {
      DownPasses(e, t, u, i, c, High(e, e.p[u], i, c));
    }
  }

  lemma {:induction false} DownPasses(e: Env, t: nat, u: nat, i: nat, c: Caps, k: int)
    requires u < t < |e.p| && HangsAt(e.p, t) && Runnable(e.p) && e.s == ShortestText(e.p, t) && i <= |e.s|
    requires Above(e.p, u, 0, i, c) && CapsOk(e.p, u, c, i) && k <= High(e, e.p[u], i, c)
    ensures !Down(e, u, i, c, k).Yes?
    decreases t - u, 0, k
  {
    hide HangsAt, Above, CapsOk, ShortestText, Feasible, High, Low, NextPos, NextCaps, Runnable;
    if k >= Low(e, e.p[u], i, c) {
      Onward(e, u, i, c, k);
      NothingPasses(e, t, u + 1, NextPos(e, e.p[u], i, c, k), NextCaps(e.p[u], i, c));
      DownPasses(e, t, u, i, c, k - 1);
    }
  }

  lemma {:induction false} HangsIsStuck(e: Env, t: nat)
    requires HangsAt(e.p, t)
    ensures Stuck(e, e.p[t], Shortest(e.p, t).1)
  {
    hide Passable, Shortest;
  }

  /** The search follows the shortest run until it hangs. */
  lemma {:induction false} ShortestHangs(e: Env, t: nat, u: nat)
    requires u <= t && HangsAt(e.p, t) && Runnable(e.p) && DolLast(e.p)
    requires e.locs < 0 && e.s == ShortestText(e.p, t)
    ensures Shortest(e.p, u).0 <= |e.s|
    ensures Search(e, u, Shortest(e.p, u).0, Shortest(e.p, u).1).Never?
    decreases t - u
  {
    hide Shortest, FewestReps, Captured, Grouped, ShortestText, Feasible, High, Low, NextPos, NextCaps;
    var m := Shortest(e.p, u);
    if u == t {
      ShortestTextLength(e.p, t);
      HangsIsStuck(e, t);
    } else {
      hide HangsAt;
      ShortestFeasible(e, u, t);
      if !Stuck(e, e.p[u], m.1) {
        ShortestHangs(e, t, u + 1);
        FeasibleRange(e, e.p[u], m.0, m.1, FewestReps(e.p[u]));
        DownToShortest(e, t, u, High(e, e.p[u], m.0, m.1));
      }
    }
  }

  lemma {:induction false} DownToShortest(e: Env, t: nat, u: nat, k: int)
    requires u < t < |e.p| && HangsAt(e.p, t) && Runnable(e.p) && e.s == ShortestText(e.p, t)
    requires Shortest(e.p, u).0 <= |e.s| && Shortest(e.p, u + 1).0 <= |e.s|
    requires Search(e, u + 1, Shortest(e.p, u + 1).0, Shortest(e.p, u + 1).1).Never?
    requires var m := Shortest(e.p, u);
      var x := e.p[u];
      && Feasible(e, x, m.0, m.1, FewestReps(x)) && FewestReps(x) <= k <= High(e, x, m.0, m.1)
      && NextPos(e, x, m.0, m.1, FewestReps(x)) == Shortest(e.p, u + 1).0
      && NextCaps(x, m.0, m.1) == Shortest(e.p, u + 1).1
    ensures Down(e, u, Shortest(e.p, u).0, Shortest(e.p, u).1, k).Never?
    decreases k
  {
    hide HangsAt, Above, CapsOk, ShortestText, Shortest, FewestReps, Feasible, High, Low, NextPos, NextCaps;
    var m := Shortest(e.p, u);
    FeasibleRange(e, e.p[u], m.0, m.1, FewestReps(e.p[u]));
    if k > FewestReps(e.p[u]) {
      ShortestAbove(e.p, u);
      Onward(e, u, m.0, m.1, k);
      NothingPasses(e, t, u + 1, NextPos(e, e.p[u], m.0, m.1, k), NextCaps(e.p[u], m.0, m.1));
      DownToShortest(e, t, u, k - 1);
    }
  }

  // ----- the exact condition -----

  /** For some text, some start and some earlier contents of the capture arrays, `advance` does not return. */
  ghost predicate CanDiverge(p: seq<Item>)
    requires ShapedAll(p)
  {
    exists s: seq<byte>, i: nat, c: Caps ::
      NulFree(s) && i <= |s| && CapsShape(c) && Search(Env(p, s, -1), 0, i, c).Never?
  }

  /** `advance` can run for ever exactly when the program has a starred back-reference, reachable by some text,
      to a group whose shortest text is empty. */
  lemma {:induction false} DivergesIff(p: seq<Item>)
    requires Runnable(p) && DolLast(p)
    ensures CanDiverge(p) <==> exists t :: HangsAt(p, t)
  {
    if CanDiverge(p) {
      var s: seq<byte>, i: nat, c: Caps :|
        NulFree(s) && i <= |s| && CapsShape(c) && Search(Env(p, s, -1), 0, i, c).Never?;
      var u := NeverHangs(Env(p, s, -1), 0, i, i, c);
    }
    if exists t :: HangsAt(p, t) {
      var t :| HangsAt(p, t);
      var s := ShortestText(p, t);
      ShortestTextNulFree(p, t);
      ShortestHangs(Env(p, s, -1), t, 0);
    }
  }

  /** Without such an item every call returns, whatever `locs` is. */
  lemma {:induction false} AlwaysReturns(e: Env, i: nat, c: Caps)
    requires i <= |e.s| && Runnable(e.p) && CapsShape(c)
    requires forall t :: !HangsAt(e.p, t)
    ensures !Search(e, 0, i, c).Never?
  {
    if Search(e, 0, i, c).Never? {
      var u := NeverHangs(e, 0, i, i, c);
      assert false;
    }
  }
}
