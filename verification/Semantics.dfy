/**
 What a program means, and the search order of the matcher.

 A derivation gives every item a repetition count. `Exec` replays a derivation;
 `Search` is the depth-first, longest-first search that `advance` performs, written
 without any state that survives a failed branch.
 */
module Semantics {
  import opened Bytes
  import opened Program

  /** braslist and braelist */
  datatype Caps = Caps(starts: seq<int>, ends: seq<int>)

  /** A program, a text and the value of `locs` (negative when it is a null pointer). */
  datatype Env = Env(p: seq<Item>, s: seq<byte>, locs: int)

  ghost predicate CapsShape(c: Caps) {
    |c.starts| == NBRA && |c.ends| == NBRA
  }

  // ----- derivations -----

  /** getrnge: the most repetitions an interval allows; 255 stands for "no upper bound". */
  function MostReps(lo: byte, hi: byte): int {
    if hi == 255 then lo + 20000 else hi
  }

  ghost predicate Allowed(f: Suffix, k: int) {
    match f
    case Once => k == 1
    case Star => 0 <= k
    case Between(lo, hi) => lo <= k <= MostReps(lo, hi)
  }

  /** `k` characters from `i` on are accepted, and the suffix allows `k`. */
  ghost predicate Fits(a: Atom, f: Suffix, s: seq<byte>, i: nat, k: int) {
    && Allowed(f, k)
    && i + k <= |s|
    && forall x :: i <= x < i + k ==> Accepts(a, s[x])
  }

  function Power(w: seq<byte>, k: nat): seq<byte> {
    if k == 0 then [] else w + Power(w, k - 1)
  }

  /** The text of a closed group. */
  ghost function Captured(s: seq<byte>, c: Caps, g: byte): seq<byte> {
    if g < |c.starts| && g < |c.ends| && 0 <= c.starts[g] <= c.ends[g] <= |s| then s[c.starts[g]..c.ends[g]] else []
  }

  /** Item `x` may be repeated `k` times at `i`. When a repetition could end at `locs`, ends at or before `locs`
      are not allowed. */
  ghost predicate Feasible(e: Env, x: Item, i: nat, c: Caps, k: int)
    requires i <= |e.s|
  {
    match x.base
    case One(a) =>
      var f := SuffixOf(x);
      Fits(a, f, e.s, i, k) && (f.Once? || !(i + k <= e.locs && Fits(a, f, e.s, i, e.locs - i)))
    case Dol => k == 0 && i == |e.s|
    case Open(_) => k == 0
    case Close(_) => k == 0
    case Back(g) =>
      var w := Captured(e.s, c, g);
      if !x.star then k == 1 && w <= e.s[i..]
      else if w == [] then k == 0
      else 0 <= k && Power(w, k) <= e.s[i..]
  }

  /** Where the item ends. */
  ghost function NextPos(e: Env, x: Item, i: nat, c: Caps, k: nat): nat {
    match x.base
    case One(_) => i + k
    case Back(g) => i + |Power(Captured(e.s, c, g), k)|
    case _ => i
  }

  ghost function NextCaps(x: Item, i: nat, c: Caps): Caps {
    match x.base
    case Open(g) => if g < |c.starts| then c.(starts := c.starts[g := i]) else c
    case Close(g) => if g < |c.ends| then c.(ends := c.ends[g := i]) else c
    case _ => c
  }

  lemma NextPosBound(e: Env, x: Item, i: nat, c: Caps, k: nat)
    requires i <= |e.s| && Feasible(e, x, i, c, k)
    ensures i <= NextPos(e, x, i, c, k) <= |e.s|
  {
    if x.base.Back? && !x.star {
      var w := Captured(e.s, c, x.base.g);
      assert Power(w, 1) == w + Power(w, 0) == w;
    }
    if x.base.Back? && x.star && Captured(e.s, c, x.base.g) == [] {
      assert Power([], 0) == [];
    }
  }

  /** Replay: item `t` takes `ks[0]` repetitions, item `t+1` takes `ks[1]`, and so on. */
  ghost function Exec(e: Env, t: nat, i: nat, c: Caps, ks: seq<nat>): Option<(nat, Caps)>
    requires t <= |e.p| && i <= |e.s| && |ks| == |e.p| - t
    decreases ks
  {
    if ks == [] then Some((i, c))
    else if Feasible(e, e.p[t], i, c, ks[0]) then
      NextPosBound(e, e.p[t], i, c, ks[0]);
      Exec(e, t + 1, NextPos(e, e.p[t], i, c, ks[0]), NextCaps(e.p[t], i, c), ks[1..])
    else None
  }

  /** The text from `i` on matches items `t`, `t+1`, ... by derivation `ks`. */
  ghost predicate Derives(e: Env, t: nat, i: nat, c: Caps, ks: seq<nat>)
  {
    t <= |e.p| && i <= |e.s| && |ks| == |e.p| - t && Exec(e, t, i, c, ks).Some?
  }

  /** Lexicographic order on count vectors, first item first. */
  predicate LexLe(a: seq<nat>, b: seq<nat>)
    requires |a| == |b|
  {
    a == [] || a[0] < b[0] || (a[0] == b[0] && LexLe(a[1..], b[1..]))
  }

  // ----- the search -----

  /** Number of characters from `i` on that the atom accepts. */
  ghost function Reps(a: Atom, s: seq<byte>, i: nat): (r: nat)
    requires i <= |s|
    ensures i + r <= |s|
    decreases |s| - i
  {
    if i < |s| && Accepts(a, s[i]) then 1 + Reps(a, s, i + 1) else 0
  }

  /** Number of copies of `w` that follow each other from `i` on. */
  ghost function Copies(w: seq<byte>, s: seq<byte>, i: nat): (r: nat)
    requires i <= |s| && w != []
    decreases |s| - i
  {
    if w <= s[i..] then 1 + Copies(w, s, i + |w|) else 0
  }

  function Least(f: Suffix): nat {
    match f
    case Once => 1
    case Star => 0
    case Between(lo, _) => lo
  }

  ghost function Min(a: int, b: int): int {
    if a <= b then a else b
  }

  /** The longest repetition, or a number below `Low` when there is none. */
  ghost function High(e: Env, x: Item, i: nat, c: Caps): int
    requires i <= |e.s|
  {
    match x.base
    case One(a) =>
      (match SuffixOf(x)
       case Once => Min(Reps(a, e.s, i), 1)
       case Star => Reps(a, e.s, i)
       case Between(lo, hi) => Min(Reps(a, e.s, i), MostReps(lo, hi)))
    case Dol => if i == |e.s| then 0 else -1
    case Open(_) => 0
    case Close(_) => 0
    case Back(g) =>
      var w := Captured(e.s, c, g);
      if w == [] then (if x.star then 0 else 1)
      else if x.star then Copies(w, e.s, i)
      else Min(Copies(w, e.s, i), 1)
  }

  /** The shortest repetition that is tried. */
  ghost function Low(e: Env, x: Item, i: nat, c: Caps): nat
    requires i <= |e.s|
  {
    match x.base
    case One(_) =>
      var f := SuffixOf(x);
      if !f.Once? && i + Least(f) <= e.locs <= i + High(e, x, i, c) then e.locs - i + 1 else Least(f)
    case Back(_) => if x.star then 0 else 1
    case _ => 0
  }

  lemma {:induction false} RepsFits(a: Atom, s: seq<byte>, i: nat, k: int)
    requires i <= |s| && 0 <= k
    ensures k <= Reps(a, s, i) <==> i + k <= |s| && forall x :: i <= x < i + k ==> Accepts(a, s[x])
    decreases k
  {
    if k != 0 && i < |s| && Accepts(a, s[i]) {
      RepsFits(a, s, i + 1, k - 1);
    }
  }

  lemma {:induction false} CopiesFits(w: seq<byte>, s: seq<byte>, i: nat, k: nat)
    requires i <= |s| && w != []
    ensures k <= Copies(w, s, i) <==> Power(w, k) <= s[i..]
    decreases k
  {
    if k != 0 {
      var v := Power(w, k - 1);
      assert Power(w, k) == w + v;
      hide Power;
      if w <= s[i..] {
        CopiesFits(w, s, i + |w|, k - 1);
        PrefixBehind(s, i, w, v);
      } else if w + v <= s[i..] {
        PrefixOfPrefix(s, i, w, v);
      }
    }
  }

  lemma {:induction false} PrefixBehind(s: seq<byte>, i: nat, w: seq<byte>, v: seq<byte>)
    requires i <= |s| && w <= s[i..]
    ensures i + |w| <= |s|
    ensures w + v <= s[i..] <==> v <= s[i + |w|..]
  {
    assert s[i..] == w + s[i + |w|..];
    if w + v <= s[i..] {
      assert v == (w + v)[|w|..] == s[i..][|w|..|w| + |v|] == s[i + |w|..][..|v|];
    }
  }

  lemma {:induction false} PrefixOfPrefix(s: seq<byte>, i: nat, w: seq<byte>, v: seq<byte>)
    requires i <= |s| && w + v <= s[i..]
    ensures w <= s[i..]
  {
    assert w == (w + v)[..|w|];
  }

  lemma {:induction false} PowerGrows(w: seq<byte>, k: nat)
    ensures |Power(w, k + 1)| == |Power(w, k)| + |w|
  {
    if k != 0 { PowerGrows(w, k - 1); }
  }

  /** The repetition counts to be tried form the interval from Low to High. */
  lemma FeasibleRange(e: Env, x: Item, i: nat, c: Caps, k: int)
    requires i <= |e.s| && Shaped(x)
    ensures Feasible(e, x, i, c, k) <==> Low(e, x, i, c) <= k <= High(e, x, i, c)
  {
    match x.base
    case One(a) =>
      if 0 <= k { RepsFits(a, e.s, i, k); }
      if 0 <= e.locs - i { RepsFits(a, e.s, i, e.locs - i); }
    case Back(g) =>
      var w := Captured(e.s, c, g);
      if w != [] {
        if 0 <= k { CopiesFits(w, e.s, i, k); }
        CopiesFits(w, e.s, i, 1);
        assert Power(w, 1) == w + Power(w, 0) == w;
      }
    case _ =>
  }

  /** No: advance returns 0. Yes: it returns 1 with loc2 and the captures. Never: it does not return. */
  datatype Verdict = No | Never | Yes(end: nat, caps: Caps)

  /** A starred back-reference to an empty capture: the loop that counts the copies does not end. */
  ghost predicate Stuck(e: Env, x: Item, c: Caps) {
    x.base.Back? && x.star && Captured(e.s, c, x.base.g) == []
  }

  ghost function Search(e: Env, t: nat, i: nat, c: Caps): Verdict
    requires t <= |e.p| && i <= |e.s| && ShapedAll(e.p)
    decreases |e.p| - t, 1, 0
  {
    if t == |e.p| then Yes(i, c)
    else if Stuck(e, e.p[t], c) then Never
    else Down(e, t, i, c, High(e, e.p[t], i, c))
  }

  /** Tries `k` repetitions of item `t`, then `k - 1`, and so on. */
  ghost function Down(e: Env, t: nat, i: nat, c: Caps, k: int): Verdict
    requires t < |e.p| && i <= |e.s| && ShapedAll(e.p) && k <= High(e, e.p[t], i, c)
    decreases |e.p| - t, 0, k
  {
    if k < Low(e, e.p[t], i, c) then No
    else
      FeasibleRange(e, e.p[t], i, c, k);
      NextPosBound(e, e.p[t], i, c, k);
      var v := Search(e, t + 1, NextPos(e, e.p[t], i, c, k), NextCaps(e.p[t], i, c));
      if v.No? then Down(e, t, i, c, k - 1) else v
  }

  // ----- the search finds the greedy derivation -----

  ghost predicate Greedy(e: Env, t: nat, i: nat, c: Caps, ks: seq<nat>) {
    && Derives(e, t, i, c, ks)
    && forall qs :: Derives(e, t, i, c, qs) ==> LexLe(qs, ks)
  }

  /** The counts `qs` of the first items are feasible and lead to the first item that is stuck. */
  ghost predicate LeadsToStuck(e: Env, t: nat, i: nat, c: Caps, qs: seq<nat>)
    decreases qs
  {
    && t < |e.p| && i <= |e.s|
    && if qs == [] then Stuck(e, e.p[t], c)
       else
         && !Stuck(e, e.p[t], c) && Feasible(e, e.p[t], i, c, qs[0])
         && LeadsToStuck(e, t + 1, NextPos(e, e.p[t], i, c, qs[0]), NextCaps(e.p[t], i, c), qs[1..])
  }

  /** The first counts of `ks` are lexicographically at or below `qs`: the search comes to `qs` no later than to
      `ks`. */
  predicate Before(ks: seq<nat>, qs: seq<nat>) {
    |qs| <= |ks| && (qs == [] || ks[0] < qs[0] || (ks[0] == qs[0] && Before(ks[1..], qs[1..])))
  }

  /** The search comes to no stuck item when it fails. */
  lemma {:induction false} StuckNotNo(e: Env, t: nat, i: nat, c: Caps, qs: seq<nat>)
    requires ShapedAll(e.p) && LeadsToStuck(e, t, i, c, qs)
    ensures !Search(e, t, i, c).No?
    decreases |e.p| - t, 1, 0
  {
    if qs != [] {
      FeasibleRange(e, e.p[t], i, c, qs[0]);
      DownStuck(e, t, i, c, High(e, e.p[t], i, c), qs);
    }
  }

  lemma {:induction false} DownStuck(e: Env, t: nat, i: nat, c: Caps, k: int, qs: seq<nat>)
    requires ShapedAll(e.p) && LeadsToStuck(e, t, i, c, qs) && qs != [] && qs[0] <= k <= High(e, e.p[t], i, c)
    ensures !Down(e, t, i, c, k).No?
    decreases |e.p| - t, 0, k
  {
    hide Feasible, Low, High, NextPos, NextCaps, Stuck, Shaped;
    FeasibleRange(e, e.p[t], i, c, qs[0]);
    if qs[0] == k {
      NextPosBound(e, e.p[t], i, c, k);
      StuckNotNo(e, t + 1, NextPos(e, e.p[t], i, c, k), NextCaps(e.p[t], i, c), qs[1..]);
    } else {
      DownStuck(e, t, i, c, k - 1, qs);
    }
  }

  /** The search fails only when there is no derivation. */
  lemma {:induction false} SearchComplete(e: Env, t: nat, i: nat, c: Caps, qs: seq<nat>)
    requires t <= |e.p| && i <= |e.s| && ShapedAll(e.p)
    requires Derives(e, t, i, c, qs)
    ensures !Search(e, t, i, c).No?
    decreases |e.p| - t, 1, 0
  {
    if t < |e.p| && !Stuck(e, e.p[t], c) {
      FeasibleRange(e, e.p[t], i, c, qs[0]);
      DownComplete(e, t, i, c, High(e, e.p[t], i, c), qs);
    }
  }

  lemma {:induction false} DownComplete(e: Env, t: nat, i: nat, c: Caps, k: int, qs: seq<nat>)
    requires t < |e.p| && i <= |e.s| && ShapedAll(e.p) && k <= High(e, e.p[t], i, c)
    requires Derives(e, t, i, c, qs) && qs[0] <= k
    ensures !Down(e, t, i, c, k).No?
    decreases |e.p| - t, 0, k
  {
    FeasibleRange(e, e.p[t], i, c, qs[0]);
    if qs[0] == k {
      NextPosBound(e, e.p[t], i, c, k);
      SearchComplete(e, t + 1, NextPos(e, e.p[t], i, c, k), NextCaps(e.p[t], i, c), qs[1..]);
    } else {
      DownComplete(e, t, i, c, k - 1, qs);
    }
  }

  /** A match that is found has a derivation, and it is the lexicographically greatest one. */
  lemma {:induction false} SearchGreedy(e: Env, t: nat, i: nat, c: Caps) returns (ks: seq<nat>)
    requires t <= |e.p| && i <= |e.s| && ShapedAll(e.p)
    requires Search(e, t, i, c).Yes?
    ensures Greedy(e, t, i, c, ks)
    ensures Exec(e, t, i, c, ks) == Some((Search(e, t, i, c).end, Search(e, t, i, c).caps))
    ensures forall qs :: LeadsToStuck(e, t, i, c, qs) ==> !Before(ks, qs)
    decreases |e.p| - t, 1, 0
  {
    if t == |e.p| {
      ks := [];
    } else {
      ks := DownGreedy(e, t, i, c, High(e, e.p[t], i, c));
      forall qs | Derives(e, t, i, c, qs) ensures LexLe(qs, ks) {
        FeasibleRange(e, e.p[t], i, c, qs[0]);
      }
      forall qs | LeadsToStuck(e, t, i, c, qs) ensures !Before(ks, qs) {
        FeasibleRange(e, e.p[t], i, c, qs[0]);
      }
    }
  }

  lemma {:induction false} DownGreedy(e: Env, t: nat, i: nat, c: Caps, k: int) returns (ks: seq<nat>)
    requires t < |e.p| && i <= |e.s| && ShapedAll(e.p) && k <= High(e, e.p[t], i, c)
    requires Down(e, t, i, c, k).Yes?
    ensures Derives(e, t, i, c, ks)
    ensures forall qs :: Derives(e, t, i, c, qs) && qs[0] <= k ==> LexLe(qs, ks)
    ensures forall qs :: LeadsToStuck(e, t, i, c, qs) && qs != [] && qs[0] <= k ==> !Before(ks, qs)
    ensures Exec(e, t, i, c, ks) == Some((Down(e, t, i, c, k).end, Down(e, t, i, c, k).caps))
    decreases |e.p| - t, 0, k
  {
    FeasibleRange(e, e.p[t], i, c, k);
    NextPosBound(e, e.p[t], i, c, k);
    var j, d := NextPos(e, e.p[t], i, c, k), NextCaps(e.p[t], i, c);
    if Search(e, t + 1, j, d).No? {
      ks := DownGreedy(e, t, i, c, k - 1);
      forall qs | Derives(e, t, i, c, qs) && qs[0] <= k ensures LexLe(qs, ks) {
        if qs[0] == k {
          SearchComplete(e, t + 1, j, d, qs[1..]);
          assert false;
        }
      }
      forall qs | LeadsToStuck(e, t, i, c, qs) && qs != [] && qs[0] <= k ensures !Before(ks, qs) {
        if qs[0] == k {
          StuckNotNo(e, t + 1, j, d, qs[1..]);
          assert false;
        }
      }
    } else {
      var rest := SearchGreedy(e, t + 1, j, d);
      ks := Prepend(e, t, i, c, k, rest);
    }
  }

  /** A greedy derivation of the rest, behind `k` repetitions of item `t`. */
  lemma Prepend(e: Env, t: nat, i: nat, c: Caps, k: nat, rest: seq<nat>) returns (ks: seq<nat>)
    requires t < |e.p| && i <= |e.s| && Feasible(e, e.p[t], i, c, k)
    requires Greedy(e, t + 1, NextPos(e, e.p[t], i, c, k), NextCaps(e.p[t], i, c), rest)
    requires forall qs ::
      LeadsToStuck(e, t + 1, NextPos(e, e.p[t], i, c, k), NextCaps(e.p[t], i, c), qs) ==> !Before(rest, qs)
    ensures Derives(e, t, i, c, ks)
    ensures Exec(e, t, i, c, ks) == Exec(e, t + 1, NextPos(e, e.p[t], i, c, k), NextCaps(e.p[t], i, c), rest)
    ensures forall qs :: Derives(e, t, i, c, qs) && qs[0] <= k ==> LexLe(qs, ks)
    ensures forall qs :: LeadsToStuck(e, t, i, c, qs) && qs != [] && qs[0] <= k ==> !Before(ks, qs)
  {
    ks := [k] + rest;
    assert ks[1..] == rest;
    forall qs | Derives(e, t, i, c, qs) && qs[0] <= k ensures LexLe(qs, ks) {
      if qs[0] == k {
        assert Derives(e, t + 1, NextPos(e, e.p[t], i, c, k), NextCaps(e.p[t], i, c), qs[1..]);
        assert LexLe(qs[1..], rest);
      }
    }
  }

  // ----- when the search does not return -----

  /** Some counts lead to a stuck item, and no derivation comes before them. */
  ghost predicate StuckFirst(e: Env, t: nat, i: nat, c: Caps, qs: seq<nat>) {
    LeadsToStuck(e, t, i, c, qs) && forall ks :: Derives(e, t, i, c, ks) ==> Before(ks, qs)
  }

  lemma {:induction false} SearchNever(e: Env, t: nat, i: nat, c: Caps) returns (qs: seq<nat>)
    requires t <= |e.p| && i <= |e.s| && ShapedAll(e.p)
    requires Search(e, t, i, c).Never?
    ensures StuckFirst(e, t, i, c, qs)
    decreases |e.p| - t, 1, 0
  {
    if Stuck(e, e.p[t], c) {
      qs := [];
    } else {
      qs := DownNever(e, t, i, c, High(e, e.p[t], i, c));
      forall ks | Derives(e, t, i, c, ks) ensures Before(ks, qs) {
        FeasibleRange(e, e.p[t], i, c, ks[0]);
      }
    }
  }

  lemma {:induction false} DownNever(e: Env, t: nat, i: nat, c: Caps, k: int) returns (qs: seq<nat>)
    requires t < |e.p| && i <= |e.s| && ShapedAll(e.p) && k <= High(e, e.p[t], i, c) && !Stuck(e, e.p[t], c)
    requires Down(e, t, i, c, k).Never?
    ensures LeadsToStuck(e, t, i, c, qs)
    ensures forall ks :: Derives(e, t, i, c, ks) && ks[0] <= k ==> Before(ks, qs)
    decreases |e.p| - t, 0, k
  {
    FeasibleRange(e, e.p[t], i, c, k);
    NextPosBound(e, e.p[t], i, c, k);
    var j, d := NextPos(e, e.p[t], i, c, k), NextCaps(e.p[t], i, c);
    if Search(e, t + 1, j, d).No? {
      qs := DownNever(e, t, i, c, k - 1);
      forall ks | Derives(e, t, i, c, ks) && ks[0] <= k ensures Before(ks, qs) {
        if ks[0] == k {
          SearchComplete(e, t + 1, j, d, ks[1..]);
          assert false;
        }
      }
    } else {
      var rest := SearchNever(e, t + 1, j, d);
      qs := [k] + rest;
      assert qs[1..] == rest;
      forall ks | Derives(e, t, i, c, ks) && ks[0] <= k ensures Before(ks, qs) {
        if ks[0] == k {
          assert Derives(e, t + 1, j, d, ks[1..]);
        } else {
          LeadsLength(e, t, i, c, qs);
        }
      }
    }
  }

  lemma {:induction false} LeadsLength(e: Env, t: nat, i: nat, c: Caps, qs: seq<nat>)
    requires LeadsToStuck(e, t, i, c, qs)
    ensures t + |qs| < |e.p|
    decreases qs
  {
    if qs != [] {
      LeadsLength(e, t + 1, NextPos(e, e.p[t], i, c, qs[0]), NextCaps(e.p[t], i, c), qs[1..]);
    }
  }

  /** On a given text `advance` does not return exactly when counts that lead to a stuck item come up before every
      derivation. */
  lemma {:induction false} NeverIff(e: Env, t: nat, i: nat, c: Caps)
    requires t <= |e.p| && i <= |e.s| && ShapedAll(e.p)
    ensures Search(e, t, i, c).Never? <==> exists qs :: StuckFirst(e, t, i, c, qs)
  {
    if Search(e, t, i, c).Never? {
      var qs := SearchNever(e, t, i, c);
    }
    if exists qs :: StuckFirst(e, t, i, c, qs) {
      var qs :| StuckFirst(e, t, i, c, qs);
      StuckNotNo(e, t, i, c, qs);
      if Search(e, t, i, c).Yes? {
        var ks := SearchGreedy(e, t, i, c);
        assert false;
      }
    }
  }

  // ----- captures left behind by failed branches do not matter -----

  /** The two differ at most in entries that items from `t` on will write. */
  ghost predicate Agree(p: seq<Item>, t: nat, c: Caps, d: Caps) {
    && CapsShape(c) && CapsShape(d)
    && (forall g: byte :: g < NBRA && NoOpen(p, t, g) ==> c.starts[g] == d.starts[g])
    && (forall g: byte :: g < NBRA && NoClose(p, t, g) ==> c.ends[g] == d.ends[g])
  }

  lemma AgreeSelf(p: seq<Item>, t: nat, c: Caps)
    requires CapsShape(c)
    ensures Agree(p, t, c, c)
  {
  }

  lemma AgreeTrans(p: seq<Item>, t: nat, b: Caps, c: Caps, d: Caps)
    requires Agree(p, t, b, c) && Agree(p, t, c, d)
    ensures Agree(p, t, b, d)
  {
  }

  lemma AgreeStep(e: Env, t: nat, i: nat, c: Caps, d: Caps)
    requires t < |e.p| && i <= |e.s| && Runnable(e.p) && Agree(e.p, t, c, d)
    ensures Agree(e.p, t + 1, NextCaps(e.p[t], i, c), NextCaps(e.p[t], i, d))
    ensures e.p[t].base.Back? ==> Captured(e.s, c, e.p[t].base.g) == Captured(e.s, d, e.p[t].base.g)
  {
    var p := e.p;
    assert Shaped(p[t]);
    if p[t].base.Back? {
      BackIsSettled(p, t, p[t].base.g);
    }
    forall g: byte | g < NBRA && NoOpen(p, t + 1, g)
      ensures NextCaps(p[t], i, c).starts[g] == NextCaps(p[t], i, d).starts[g]
    {
      if p[t].base != Open(g) { assert NoOpen(p, t, g); }
    }
    forall g: byte | g < NBRA && NoClose(p, t + 1, g)
      ensures NextCaps(p[t], i, c).ends[g] == NextCaps(p[t], i, d).ends[g]
    {
      if p[t].base != Close(g) { assert NoClose(p, t, g); }
    }
  }

  /** The captures matter to an item only through the text that a back-reference reads. */
  lemma {:induction false} SameCounts(e: Env, x: Item, i: nat, c: Caps, d: Caps)
    requires i <= |e.s|
    requires x.base.Back? ==> Captured(e.s, c, x.base.g) == Captured(e.s, d, x.base.g)
    ensures Low(e, x, i, c) == Low(e, x, i, d) && High(e, x, i, c) == High(e, x, i, d)
    ensures Stuck(e, x, c) <==> Stuck(e, x, d)
    ensures forall k: nat :: NextPos(e, x, i, c, k) == NextPos(e, x, i, d, k)
  {
    hide Captured, Reps, Copies, Power;
  }

  lemma {:induction false} SearchAgrees(e: Env, t: nat, i: nat, c: Caps, d: Caps)
    requires t <= |e.p| && i <= |e.s| && Runnable(e.p) && Agree(e.p, t, c, d)
    ensures Search(e, t, i, c) == Search(e, t, i, d)
    decreases |e.p| - t, 1, 0
  {
    if t == |e.p| {
      AgreeAtEnd(e.p, c, d);
    } else {
      AgreeStep(e, t, i, c, d);
      SameCounts(e, e.p[t], i, c, d);
      if !Stuck(e, e.p[t], c) { DownAgrees(e, t, i, c, d, High(e, e.p[t], i, c)); }
    }
  }

  lemma AgreeAtEnd(p: seq<Item>, c: Caps, d: Caps)
    requires Agree(p, |p|, c, d)
    ensures c == d
  {
    assert forall g: byte :: NoOpen(p, |p|, g) && NoClose(p, |p|, g);
    assert c.starts == d.starts;
    assert c.ends == d.ends;
  }

  lemma {:induction false} DownAgrees(e: Env, t: nat, i: nat, c: Caps, d: Caps, k: int)
    requires t < |e.p| && i <= |e.s| && Runnable(e.p) && Agree(e.p, t, c, d)
    requires k <= High(e, e.p[t], i, c) == High(e, e.p[t], i, d)
    ensures Down(e, t, i, c, k) == Down(e, t, i, d, k)
    decreases |e.p| - t, 0, k
  {
    hide Agree, Grouped, Feasible, Low, High, NextPos, NextCaps, Captured;
    AgreeStep(e, t, i, c, d);
    SameCounts(e, e.p[t], i, c, d);
    if k >= Low(e, e.p[t], i, c) {
      FeasibleRange(e, e.p[t], i, c, k);
      NextPosBound(e, e.p[t], i, c, k);
      SearchAgrees(e, t + 1, NextPos(e, e.p[t], i, c, k), NextCaps(e.p[t], i, c), NextCaps(e.p[t], i, d));
      DownAgrees(e, t, i, c, d, k - 1);
    }
  }

  // ----- nor does what was in the capture arrays before the run -----

  /** The two hold the same for every group that items before `t` have opened or closed. */
  ghost predicate Similar(p: seq<Item>, t: nat, c: Caps, d: Caps) {
    && CapsShape(c) && CapsShape(d)
    && (forall g: byte :: g < NBRA && OpenedBefore(p, t, g) ==> c.starts[g] == d.starts[g])
    && (forall g: byte :: g < NBRA && ClosedBefore(p, t, g) ==> c.ends[g] == d.ends[g])
  }

  /** Same answer, same end, same captures of the program's own groups. */
  ghost predicate SameVerdict(p: seq<Item>, v: Verdict, w: Verdict) {
    match v
    case No => w.No?
    case Never => w.Never?
    case Yes(end, caps) => w.Yes? && w.end == end && Similar(p, |p|, caps, w.caps)
  }

  lemma {:induction false} SameNo(p: seq<Item>)
    ensures SameVerdict(p, No, No)
    ensures forall v, w :: SameVerdict(p, v, w) ==> (v.No? <==> w.No?)
  {
  }

  lemma SimilarStep(e: Env, t: nat, i: nat, c: Caps, d: Caps)
    requires t < |e.p| && i <= |e.s| && Runnable(e.p) && Similar(e.p, t, c, d)
    ensures Similar(e.p, t + 1, NextCaps(e.p[t], i, c), NextCaps(e.p[t], i, d))
    ensures e.p[t].base.Back? ==> Captured(e.s, c, e.p[t].base.g) == Captured(e.s, d, e.p[t].base.g)
  {
    var p := e.p;
    assert Shaped(p[t]);
    if p[t].base.Back? {
      BackIsSettled(p, t, p[t].base.g);
    }
    forall g: byte | g < NBRA && OpenedBefore(p, t + 1, g)
      ensures NextCaps(p[t], i, c).starts[g] == NextCaps(p[t], i, d).starts[g]
    {
      if p[t].base != Open(g) { assert OpenedBefore(p, t, g); }
    }
    forall g: byte | g < NBRA && ClosedBefore(p, t + 1, g)
      ensures NextCaps(p[t], i, c).ends[g] == NextCaps(p[t], i, d).ends[g]
    {
      if p[t].base != Close(g) { assert ClosedBefore(p, t, g); }
    }
  }

  lemma {:induction false} SearchSimilar(e: Env, t: nat, i: nat, c: Caps, d: Caps)
    requires t <= |e.p| && i <= |e.s| && Runnable(e.p) && Similar(e.p, t, c, d)
    ensures SameVerdict(e.p, Search(e, t, i, c), Search(e, t, i, d))
    decreases |e.p| - t, 1, 0
  {
    if t < |e.p| {
      SimilarStep(e, t, i, c, d);
      SameCounts(e, e.p[t], i, c, d);
      if !Stuck(e, e.p[t], c) { DownSimilar(e, t, i, c, d, High(e, e.p[t], i, c)); }
    }
  }

  lemma {:induction false} DownSimilar(e: Env, t: nat, i: nat, c: Caps, d: Caps, k: int)
    requires t < |e.p| && i <= |e.s| && Runnable(e.p) && Similar(e.p, t, c, d)
    requires k <= High(e, e.p[t], i, c) == High(e, e.p[t], i, d)
    ensures SameVerdict(e.p, Down(e, t, i, c, k), Down(e, t, i, d, k))
    decreases |e.p| - t, 0, k
  {
    hide Similar, Grouped, Feasible, Low, High, NextPos, NextCaps, Captured, SameVerdict;
    SimilarStep(e, t, i, c, d);
    SameCounts(e, e.p[t], i, c, d);
    SameNo(e.p);
    if k >= Low(e, e.p[t], i, c) {
      FeasibleRange(e, e.p[t], i, c, k);
      NextPosBound(e, e.p[t], i, c, k);
      SearchSimilar(e, t + 1, NextPos(e, e.p[t], i, c, k), NextCaps(e.p[t], i, c), NextCaps(e.p[t], i, d));
      DownSimilar(e, t, i, c, d, k - 1);
    }
  }

  /** Whatever the capture arrays hold beforehand, a run from the first item gives the same. */
  lemma StaleCapturesIrrelevant(e: Env, i: nat, c: Caps, d: Caps)
    requires i <= |e.s| && Runnable(e.p) && CapsShape(c) && CapsShape(d)
    ensures SameVerdict(e.p, Search(e, 0, i, c), Search(e, 0, i, d))
  {
    SearchSimilar(e, 0, i, c, d);
  }

  // ----- the captures of a run lie inside the text read so far -----

  ghost predicate GroupOk(b: Base, c: Caps, i: nat)
    requires CapsShape(c)
  {
    match b
    case Open(g) => g < NBRA ==> 0 <= c.starts[g] <= i
    case Close(g) => g < NBRA ==> 0 <= c.starts[g] <= c.ends[g] <= i
    case _ => true
  }

  /** Every group opened (closed) by an item before `t` has its start (and end) at or before `i`. */
  ghost predicate CapsOk(p: seq<Item>, t: nat, c: Caps, i: nat) {
    CapsShape(c) && forall x :: 0 <= x < t && x < |p| ==> GroupOk(p[x].base, c, i)
  }

  lemma CapsOkStart(p: seq<Item>, c: Caps)
    requires CapsShape(c)
    ensures forall i: nat :: CapsOk(p, 0, c, i)
  {
  }

  lemma CapsOkStep(p: seq<Item>, t: nat, c: Caps, i: nat, j: nat)
    requires t < |p| && Runnable(p) && CapsOk(p, t, c, i) && i <= j
    ensures CapsOk(p, t + 1, NextCaps(p[t], i, c), j)
  {
    var d := NextCaps(p[t], i, c);
    assert Shaped(p[t]) && GroupedAt(p, t);
    forall x | 0 <= x < t + 1 ensures GroupOk(p[x].base, d, j) {
      if x < t {
        assert GroupOk(p[x].base, c, i);
        assert GroupedAt(p, x);
      } else if p[t].base.Close? {
        var y :| 0 <= y < t && y < |p| && p[y].base == Open(p[t].base.g);
        assert GroupOk(p[y].base, c, i);
      }
    }
  }

  lemma CapsOkAgree(p: seq<Item>, t: nat, c: Caps, d: Caps, i: nat)
    requires t <= |p| && Runnable(p) && CapsOk(p, t, c, i) && Agree(p, t, c, d)
    ensures CapsOk(p, t, d, i)
  {
    forall x | 0 <= x < t ensures GroupOk(p[x].base, d, i) {
      assert GroupedAt(p, x) && Shaped(p[x]) && GroupOk(p[x].base, c, i);
      match p[x].base
      case Open(g) =>
        assert NoOpen(p, t, g);
      case Close(g) =>
        assert NoClose(p, t, g);
        var y :| 0 <= y < x && y < |p| && p[y].base == Open(g);
        assert GroupedAt(p, y);
        assert NoOpen(p, t, g);
      case _ =>
    }
  }

  /** The capture a back-reference reads. */
  lemma BackOk(p: seq<Item>, t: nat, c: Caps, i: nat)
    requires t < |p| && Runnable(p) && CapsOk(p, t, c, i) && p[t].base.Back?
    ensures p[t].base.g < NBRA
    ensures 0 <= c.starts[p[t].base.g] <= c.ends[p[t].base.g] <= i
  {
    assert Shaped(p[t]);
    BackIsSettled(p, t, p[t].base.g);
    var x :| 0 <= x < t && x < |p| && p[x].base == Close(p[t].base.g);
    assert GroupOk(p[x].base, c, i);
  }

  // ----- items with one possible count -----

  lemma Forced(e: Env, t: nat, i: nat, c: Caps, k: nat)
    requires t < |e.p| && i <= |e.s| && ShapedAll(e.p) && !Stuck(e, e.p[t], c)
    requires Low(e, e.p[t], i, c) == High(e, e.p[t], i, c) == k
    ensures i <= NextPos(e, e.p[t], i, c, k) <= |e.s|
    ensures Search(e, t, i, c) == Search(e, t + 1, NextPos(e, e.p[t], i, c, k), NextCaps(e.p[t], i, c))
  {
    FeasibleRange(e, e.p[t], i, c, k);
    NextPosBound(e, e.p[t], i, c, k);
    assert Search(e, t, i, c) == Down(e, t, i, c, k);
    assert Down(e, t, i, c, k - 1) == No;
  }

  lemma SearchIsDown(e: Env, t: nat, i: nat, c: Caps)
    requires t < |e.p| && i <= |e.s| && ShapedAll(e.p) && !Stuck(e, e.p[t], c)
    ensures Search(e, t, i, c) == Down(e, t, i, c, High(e, e.p[t], i, c))
  {
  }

  lemma Blocked(e: Env, t: nat, i: nat, c: Caps)
    requires t < |e.p| && i <= |e.s| && ShapedAll(e.p) && !Stuck(e, e.p[t], c)
    requires High(e, e.p[t], i, c) < Low(e, e.p[t], i, c)
    ensures Search(e, t, i, c) == No
  {
    assert Search(e, t, i, c) == Down(e, t, i, c, High(e, e.p[t], i, c));
  }
}
