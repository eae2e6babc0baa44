/**
 The derivations of a program are the runs of the pattern it was made from.
 */
module Refinement {
  import opened Bytes
  import opened Program
  import opened Semantics
  import opened Pattern
  import opened Fragment
  import opened Meaning
  import opened Units

  // ----- characters -----

  /** A character is in the set of a bracket expression when it is listed, or lies between a character and the
      end of the range behind it. */
  lemma {:induction false} InBracket(body: seq<Member>, x: byte)
    requires body != [] ==> body[0].Single?
    ensures x in SetOf(body) <==>
      exists n :: 0 <= n < |body| && (x == body[n].c || (body[n].To? && n > 0 && body[n - 1].c <= x <= body[n].c))
  {
    if body != [] {
      var front, last := body[..|body| - 1], body[|body| - 1];
      InBracket(front, x);
      assert forall n :: 0 <= n < |front| ==> front[n] == body[n];
      if x in SetOf(body) && x !in SetOf(front) {
        assert x == last.c || (last.To? && |body| > 1 && body[|body| - 2].c <= x <= last.c);
      }
      if last.To? && |body| > 1 && body[|body| - 2].c <= x < last.c {
        assert InSpan(LastChar(front), x, last.c);
      }
    }
  }

  lemma {:induction false} FirstIsSingle(neg: bool, body: seq<Member>)
    requires LegalBody(neg, body)
    ensures body[0].Single?
  {
    assert LegalMember(body, neg, 0);
  }

  lemma {:induction false} ListedIsDenoted(neg: bool, body: seq<Member>, dash: bool, x: byte)
    requires LegalBody(neg, body)
    ensures x in Denoted(body, dash) <==> Listed(body, dash, x)
  {
    hide LegalBody, SetOf;
    FirstIsSingle(neg, body);
    InBracket(body, x);
  }

  lemma {:induction false} CharMeaning(us: seq<Unit>, n: nat, b: Base, c: byte)
    requires n < |us| && IsChar(us[n].tok) && BaseIs(us, n, b) && c != 0
    ensures b.One? && (Accepts(b.atom, c) <==> Matches(us[n].tok, c))
  {
    hide LegalBody, Denoted, Listed, IsGroup;
    if us[n].tok.Bracket? {
      ListedIsDenoted(us[n].tok.neg, us[n].tok.body, us[n].tok.dash, c);
    }
  }

  // ----- counts -----

  /** The bound bytes of a legal interval allow the counts that the interval names. */
  lemma {:induction false} IntervalMeans(lo: seq<byte>, hi: Upper, k: nat)
    requires LegalInterval(lo, hi)
    ensures var r := RangeOf(lo, hi); Allowed(Between(r.lo, r.hi), k) <==> Within(lo, hi, k)
  {
    hide Value, Digits;
    DigitsValue(lo);
    if hi.UpTo? { DigitsValue(hi.digits); }
  }

  lemma {:induction false} NoRange(mods: seq<Token>)
    ensures RangesOf(mods) == [] <==> forall m :: 0 <= m < |mods| ==> !mods[m].Interval?
  {
    hide RangeOf;
    if mods != [] {
      var front := mods[..|mods| - 1];
      NoRange(front);
      assert forall m :: 0 <= m < |front| ==> front[m] == mods[m];
    }
  }

  lemma {:induction false} OneRange(mods: seq<Token>) returns (m: nat)
    requires |RangesOf(mods)| == 1
    ensures m < |mods| && mods[m].Interval? && RangesOf(mods) == [RangeOf(mods[m].lo, mods[m].hi)]
    ensures forall n :: 0 <= n < |mods| && mods[n].Interval? ==> n == m
  {
    hide RangeOf;
    var front, last := mods[..|mods| - 1], mods[|mods| - 1];
    if last.Interval? {
      assert RangesOf(front) == [];
      NoRange(front);
      m := |mods| - 1;
    } else {
      assert RangesOf(mods) == RangesOf(front);
      m := OneRange(front);
    }
  }

  lemma {:induction false} CountMeaning(mods: seq<Token>, x: Item, k: nat)
    requires LegalMods(mods) && x.star == (Asterisk in mods) && x.ranges == RangesOf(mods) && |x.ranges| <= 1
    ensures Allowed(SuffixOf(x), k) <==> Times(mods, k)
  {
    hide LegalInterval, RangeOf, Within;
    NoRange(mods);
    if x.ranges != [] {
      var m := OneRange(mods);
      IntervalMeans(mods[m].lo, mods[m].hi, k);
    } else if mods != [] {
      assert mods[0] == Asterisk;
    }
  }

  // ----- copies -----

  lemma {:induction false} CopiesArePower(w: seq<byte>, k: nat)
    ensures CopiesOf(w, k) == Power(w, k)
  {
    if k != 0 { CopiesArePower(w, k - 1); }
  }

  lemma {:induction false} NoCopies(k: nat)
    ensures Power([], k) == []
  {
    if k != 0 { NoCopies(k - 1); }
  }

  lemma {:induction false} PowerMono(w: seq<byte>, k: nat, n: nat)
    requires w != [] && k < n
    ensures |Power(w, k)| < |Power(w, n)|
  {
    PowerGrows(w, n - 1);
    if k < n - 1 { PowerMono(w, k, n - 1); }
  }

  // ----- groups and captures -----

  /** Two groups that end at the same bracket are the same. */
  lemma {:induction false} SameEnd(us: seq<Unit>, g: nat, o: nat, h: nat, q: nat, d: nat)
    requires IsGroup(us, g, o, d) && IsGroup(us, h, q, d)
    ensures g == h && o == q
  {
  }

  lemma {:induction false} GroupItems(us: seq<Unit>, p: seq<Item>, g: nat, o: nat, d: nat)
    requires BecomeAll(us, p) && IsGroup(us, g, o, d)
    ensures p[o].base.Open? && p[o].base.g == g && p[d].base.Close? && p[d].base.g == g
  {
    assert Becomes(us, o, p[o]) && Becomes(us, d, p[d]);
    var q: nat :| IsGroup(us, p[d].base.g, q, d);
    SameEnd(us, g, o, p[d].base.g, q, d);
  }

  lemma {:induction false} ClosedGroup(us: seq<Unit>, p: seq<Item>, t: nat, g: byte) returns (o: nat, d: nat)
    requires BecomeAll(us, p) && Runnable(p) && t < |p| && p[t].base == Back(g)
    ensures o < d < t && IsGroup(us, g, o, d)
  {
    hide IsGroup;
    assert GroupedAt(p, t);
    d :| 0 <= d < t && d < |p| && p[d].base == Close(g);
    assert Becomes(us, d, p[d]);
    o :| IsGroup(us, g, o, d);
    assert o < d by { GroupOrder(us, g, o, d); }
  }

  lemma {:induction false} GroupOrder(us: seq<Unit>, g: nat, o: nat, d: nat)
    requires IsGroup(us, g, o, d)
    ensures o < d < |us|
  {
  }

  ghost predicate TrackedAt(b: Base, i: int, c: Caps)
    requires CapsShape(c)
  {
    match b
    case Open(g) => g < NBRA ==> c.starts[g] == i
    case Close(g) => g < NBRA ==> c.ends[g] == i
    case _ => true
  }

  /** For the brackets among the first `t` items the captures are their positions. */
  ghost predicate Tracks(p: seq<Item>, t: nat, at: seq<nat>, c: Caps) {
    CapsShape(c) && t <= |at| && forall m :: 0 <= m < t && m < |p| ==> TrackedAt(p[m].base, at[m], c)
  }

  lemma {:induction false} TracksStep(p: seq<Item>, t: nat, at: seq<nat>, c: Caps)
    requires Runnable(p) && t < |p| && t < |at| && Tracks(p, t, at, c)
    ensures Tracks(p, t + 1, at, NextCaps(p[t], at[t], c))
  {
    hide ClosedBefore, OpenedBefore;
    var d := NextCaps(p[t], at[t], c);
    assert Shaped(p[t]);
    forall m | 0 <= m < t + 1 ensures TrackedAt(p[m].base, at[m], d) {
      assert GroupedAt(p, m);
      if m < t { assert TrackedAt(p[m].base, at[m], c); }
    }
  }

  lemma {:induction false} Forwards(us: seq<Unit>, s: seq<byte>, at: seq<nat>, m: nat, n: nat)
    requires Run(us, s, at) && m <= n < |at|
    ensures at[m] <= at[n] <= |s|
    decreases n
  {
    if m < n {
      assert Takes(us, n - 1, s, at);
      Forwards(us, s, at, m, n - 1);
    } else if n > 0 {
      assert Takes(us, n - 1, s, at);
    }
  }

  /** A back-reference reads the text of its group. */
  lemma {:induction false} ReadsGroup(us: seq<Unit>, p: seq<Item>, s: seq<byte>, t: nat, at: seq<nat>, c: Caps,
                                      g: byte, o: nat, d: nat)
    requires BecomeAll(us, p) && IsGroup(us, g, o, d) && d < t < |at| && t < |p| && g < NBRA
    requires Run(us, s, at[..t + 1]) && Tracks(p, t, at, c)
    ensures Captured(s, c, g) == GroupText(s, at, o, d)
    ensures GroupText(s, at, o, d) == GroupText(s, at[..t + 1], o, d)
  {
    hide Run, IsGroup, BecomeAll;
    GroupOrder(us, g, o, d);
    GroupItems(us, p, g, o, d);
    assert TrackedAt(p[o].base, at[o], c) && TrackedAt(p[d].base, at[d], c);
    Forwards(us, s, at[..t + 1], o, d);
  }

  // ----- one unit -----

  /** The item takes the text from `i` to `j`. */
  ghost predicate Steps(e: Env, x: Item, i: nat, c: Caps, j: nat)
    requires i <= |e.s|
  {
    exists k: nat :: Feasible(e, x, i, c, k) && NextPos(e, x, i, c, k) == j
  }

  lemma {:induction false} CharSteps(us: seq<Unit>, x: Item, s: seq<byte>, t: nat, at: seq<nat>, c: Caps, p: seq<Item>)
    requires t < |us| && t + 1 < |at| && at[t] <= |s| && NulFree(s) && Becomes(us, t, x) && Shaped(x)
    requires IsChar(us[t].tok)
    ensures Takes(us, t, s, at) <==> Steps(Env(p, s, -1), x, at[t], c, at[t + 1])
  {
    var e, i, j := Env(p, s, -1), at[t], at[t + 1];
    forall b: byte | b != 0 ensures x.base.One? && (Accepts(x.base.atom, b) <==> Matches(us[t].tok, b)) {
      CharMeaning(us, t, x.base, b);
    }
    CharMeaning(us, t, x.base, 1);
    assert forall n :: 0 <= n < |s| ==> s[n] != 0;
    hide BaseIs, Accepts, Matches, Times, SuffixOf, LegalMods, RangesOf, Allowed;
    if i <= j <= |s| {
      CountMeaning(us[t].mods, x, j - i);
      assert Feasible(e, x, i, c, j - i) <==> Takes(us, t, s, at);
      assert NextPos(e, x, i, c, j - i) == j;
    }
  }

  lemma {:induction false} OneCopy(w: seq<byte>)
    ensures Power(w, 1) == w && Power(w, 0) == []
  {
    assert Power(w, 1) == w + Power(w, 0);
  }

  lemma {:induction false} StepCopies(e: Env, x: Item, i: nat, c: Caps, k: nat)
    requires x.base.Back? && i <= |e.s| && Feasible(e, x, i, c, k)
    ensures var j := NextPos(e, x, i, c, k);
      i <= j <= |e.s| && IsCopy(Captured(e.s, c, x.base.g), e.s[i..j], x.star)
  {
    hide Captured, Power, CopiesOf;
    var w, j := Captured(e.s, c, x.base.g), NextPos(e, x, i, c, k);
    OneCopy(w);
    CopiesArePower(w, k);
    NextPosBound(e, x, i, c, k);
    assert e.s[i..j] == e.s[i..][..j - i];
  }

  lemma {:induction false} CopyCount(w: seq<byte>, v: seq<byte>, star: bool) returns (k: nat)
    requires IsCopy(w, v, star)
    ensures v == Power(w, k) && (!star ==> k == 1) && (star && w == [] ==> k == 0)
  {
    hide Power, CopiesOf;
    OneCopy(w);
    k := 1;
    if star {
      k :| v == CopiesOf(w, k);
      CopiesArePower(w, k);
      if w == [] {
        NoCopies(k);
        k := 0;
      }
    }
  }

  lemma {:induction false} BackSteps(x: Item, s: seq<byte>, i: nat, j: nat, c: Caps, p: seq<Item>)
    requires x.base.Back? && i <= |s|
    ensures Steps(Env(p, s, -1), x, i, c, j) <==>
      i <= j <= |s| && IsCopy(Captured(s, c, x.base.g), s[i..j], x.star)
  {
    hide Captured, Power, IsCopy;
    var e, w := Env(p, s, -1), Captured(s, c, x.base.g);
    if Steps(e, x, i, c, j) {
      var k: nat :| Feasible(e, x, i, c, k) && NextPos(e, x, i, c, k) == j;
      StepCopies(e, x, i, c, k);
    }
    if i <= j <= |s| && IsCopy(w, s[i..j], x.star) {
      var k := CopyCount(w, s[i..j], x.star);
      OneCopy(w);
      assert s[i..j] == s[i..][..j - i];
      assert Feasible(e, x, i, c, k) && NextPos(e, x, i, c, k) == j;
    }
  }

  /** A back-reference to the captures of the run. */
  lemma {:induction false} RefTakes(us: seq<Unit>, p: seq<Item>, s: seq<byte>, t: nat, at: seq<nat>, c: Caps)
    requires BecomeAll(us, p) && Runnable(p) && t < |p| && us[t].tok.BackRef? && t + 1 < |at| && at[t] <= |s|
    requires Run(us, s, at[..t + 1]) && Tracks(p, t, at, c)
    ensures p[t].base == Back(us[t].tok.g)
    ensures Takes(us, t, s, at) <==>
      at[t] <= at[t + 1] <= |s| && IsCopy(Captured(s, c, us[t].tok.g), s[at[t]..at[t + 1]], p[t].star)
  {
    hide Run, IsGroup, IsCopy, Captured, GroupText;
    assert Becomes(us, t, p[t]) && Shaped(p[t]);
    var g := us[t].tok.g;
    forall o: nat, d: nat | o < d < t && IsGroup(us, g, o, d) ensures Captured(s, c, g) == GroupText(s, at, o, d) {
      ReadsGroup(us, p, s, t, at, c, g, o, d);
    }
    var o, d := ClosedGroup(us, p, t, g);
  }

  /** A unit takes exactly what its item takes. */
  lemma {:induction false} TakesIff(us: seq<Unit>, p: seq<Item>, s: seq<byte>, t: nat, at: seq<nat>, c: Caps)
    requires BecomeAll(us, p) && Runnable(p) && NulFree(s) && t < |p| && t + 1 < |at| && at[t] <= |s|
    requires Run(us, s, at[..t + 1]) && Tracks(p, t, at, c)
    ensures Takes(us, t, s, at) <==> Steps(Env(p, s, -1), p[t], at[t], c, at[t + 1])
  {
    hide Run, Tracks, IsGroup;
    assert Becomes(us, t, p[t]) && Shaped(p[t]);
    if IsChar(us[t].tok) {
      CharSteps(us, p[t], s, t, at, c, p);
    } else if us[t].tok.BackRef? {
      RefTakes(us, p, s, t, at, c);
      BackSteps(p[t], s, at[t], at[t + 1], c, p);
    } else {
      var e := Env(p, s, -1);
      assert NextPos(e, p[t], at[t], c, 0) == at[t];
      if Feasible(e, p[t], at[t], c, 0) && at[t + 1] == at[t] {
        assert Steps(e, p[t], at[t], c, at[t + 1]);
      }
    }
  }

  lemma {:induction false} HollowIff(us: seq<Unit>, p: seq<Item>, s: seq<byte>, t: nat, at: seq<nat>, c: Caps)
    requires BecomeAll(us, p) && Runnable(p) && t < |p| && t < |at|
    requires Run(us, s, at[..t + 1]) && Tracks(p, t, at, c)
    ensures Hollow(us, t, s, at) <==> Stuck(Env(p, s, -1), p[t], c)
  {
    hide Run, IsGroup, Captured, GroupText;
    assert Becomes(us, t, p[t]) && Shaped(p[t]);
    if us[t].tok.BackRef? {
      var g := us[t].tok.g;
      forall o: nat, d: nat | o < d < t && IsGroup(us, g, o, d) ensures Captured(s, c, g) == GroupText(s, at, o, d) {
        ReadsGroup(us, p, s, t, at, c, g, o, d);
      }
      var o, d := ClosedGroup(us, p, t, g);
    }
  }

  // ----- whole runs -----

  /** The counts `ks` are feasible for the items from `t` on. */
  ghost predicate Walks(e: Env, t: nat, i: nat, c: Caps, ks: seq<nat>)
    decreases ks
  {
    && t + |ks| <= |e.p| && i <= |e.s|
    && (ks == [] ||
        (&& Feasible(e, e.p[t], i, c, ks[0])
         && Walks(e, t + 1, NextPos(e, e.p[t], i, c, ks[0]), NextCaps(e.p[t], i, c), ks[1..])))
  }

  /** The positions they lead through. */
  ghost function Trace(e: Env, t: nat, i: nat, c: Caps, ks: seq<nat>): (r: seq<nat>)
    ensures |r| > 0 && r[0] == i
    decreases ks
  {
    if ks == [] || t >= |e.p| then [i]
    else [i] + Trace(e, t + 1, NextPos(e, e.p[t], i, c, ks[0]), NextCaps(e.p[t], i, c), ks[1..])
  }

  ghost function EndCaps(e: Env, t: nat, i: nat, c: Caps, ks: seq<nat>): Caps
    decreases ks
  {
    if ks == [] || t >= |e.p| then c
    else EndCaps(e, t + 1, NextPos(e, e.p[t], i, c, ks[0]), NextCaps(e.p[t], i, c), ks[1..])
  }

  lemma {:induction false} TraceLength(e: Env, t: nat, i: nat, c: Caps, ks: seq<nat>)
    requires t + |ks| <= |e.p|
    ensures |Trace(e, t, i, c, ks)| == |ks| + 1
    decreases ks
  {
    hide NextPos, NextCaps;
    if ks != [] {
      TraceLength(e, t + 1, NextPos(e, e.p[t], i, c, ks[0]), NextCaps(e.p[t], i, c), ks[1..]);
    }
  }

  lemma {:induction false} DerivesWalks(e: Env, t: nat, i: nat, c: Caps, ks: seq<nat>)
    ensures Derives(e, t, i, c, ks) <==> Walks(e, t, i, c, ks) && t + |ks| == |e.p|
    ensures Derives(e, t, i, c, ks) ==>
      var at := Trace(e, t, i, c, ks); Exec(e, t, i, c, ks) == Some((at[|at| - 1], EndCaps(e, t, i, c, ks)))
    decreases ks
  {
    hide Feasible, NextPos, NextCaps;
    if ks != [] && t < |e.p| && i <= |e.s| && Feasible(e, e.p[t], i, c, ks[0]) {
      NextPosBound(e, e.p[t], i, c, ks[0]);
      DerivesWalks(e, t + 1, NextPos(e, e.p[t], i, c, ks[0]), NextCaps(e.p[t], i, c), ks[1..]);
    }
  }

  /** Whether a unit takes its text is seen from the positions up to its end. */
  lemma {:induction false} TakesPrefix(us: seq<Unit>, n: nat, s: seq<byte>, at: seq<nat>, bt: seq<nat>)
    requires n < |us| && n + 1 < |at| && n + 1 < |bt| && forall m :: 0 <= m <= n + 1 ==> at[m] == bt[m]
    ensures Takes(us, n, s, at) <==> Takes(us, n, s, bt)
    ensures Hollow(us, n, s, at) <==> Hollow(us, n, s, bt)
  {
    hide IsGroup, IsCopy, Times, Matches;
    forall o: nat, d: nat | o < d < n ensures GroupText(s, at, o, d) == GroupText(s, bt, o, d) {
    }
  }

  lemma {:induction false} RunPrefix(us: seq<Unit>, s: seq<byte>, at: seq<nat>, n: nat)
    requires Run(us, s, at) && 0 < n <= |at|
    ensures Run(us, s, at[..n])
  {
    hide Takes, Hollow;
    forall m | 0 <= m < n - 1 ensures Takes(us, m, s, at[..n]) {
      TakesPrefix(us, m, s, at, at[..n]);
    }
  }

  lemma {:induction false} RunMore(us: seq<Unit>, s: seq<byte>, at: seq<nat>, j: nat)
    requires Run(us, s, at) && |at| <= |us| && Takes(us, |at| - 1, s, at + [j])
    ensures Run(us, s, at + [j])
  {
    hide Takes, Hollow;
    forall m | 0 <= m < |at| ensures Takes(us, m, s, at + [j]) {
      if m < |at| - 1 { TakesPrefix(us, m, s, at, at + [j]); }
    }
  }

  ghost predicate Setting(us: seq<Unit>, e: Env) {
    BecomeAll(us, e.p) && Runnable(e.p) && NulFree(e.s) && e.locs == -1
  }

  /** Feasible counts lead through a run, with the brackets' positions in the captures. */
  lemma {:induction false} WalkRuns(us: seq<Unit>, e: Env, t: nat, at: seq<nat>, c: Caps, ks: seq<nat>)
    requires Setting(us, e) && |at| == t + 1 && Run(us, e.s, at) && Tracks(e.p, t, at, c)
    requires Walks(e, t, at[t], c, ks)
    ensures var bt := at[..t] + Trace(e, t, at[t], c, ks);
      Run(us, e.s, bt) && |bt| == t + |ks| + 1 && Tracks(e.p, t + |ks|, bt, EndCaps(e, t, at[t], c, ks))
    decreases ks
  {
    hide Run, Takes, Tracks, Feasible, NextPos, NextCaps, Runnable, BecomeAll, NulFree;
    assert at[..t] + [at[t]] == at;
    if ks != [] {
      var x := e.p[t];
      var j, d := NextPos(e, x, at[t], c, ks[0]), NextCaps(x, at[t], c);
      var bt := at + [j];
      assert bt[..t + 1] == at;
      TracksMore(e.p, t, at, bt, c);
      Forwards(us, e.s, at, t, t);
      BecomeLength(us, e.p);
      TakesIff(us, e.p, e.s, t, bt, c);
      assert Steps(Env(e.p, e.s, -1), x, at[t], c, j);
      RunMore(us, e.s, at, j);
      TracksStep(e.p, t, bt, c);
      WalkRuns(us, e, t + 1, bt, d, ks[1..]);
      assert bt[..t + 1] + Trace(e, t + 1, j, d, ks[1..]) == at[..t] + Trace(e, t, at[t], c, ks);
    }
  }

  lemma {:induction false} BecomeLength(us: seq<Unit>, p: seq<Item>)
    requires BecomeAll(us, p)
    ensures |us| == |p|
  {
    hide Becomes;
  }

  lemma {:induction false} TracksMore(p: seq<Item>, t: nat, at: seq<nat>, bt: seq<nat>, c: Caps)
    requires Tracks(p, t, at, c) && t <= |bt| && forall m :: 0 <= m < t ==> at[m] == bt[m]
    ensures Tracks(p, t, bt, c)
  {
    hide TrackedAt;
  }

  /** Every run comes from feasible counts. */
  lemma {:induction false} RunWalks(us: seq<Unit>, e: Env, t: nat, at: seq<nat>, c: Caps) returns (ks: seq<nat>)
    requires Setting(us, e) && t < |at| && Run(us, e.s, at) && Tracks(e.p, t, at, c)
    ensures Walks(e, t, at[t], c, ks) && Trace(e, t, at[t], c, ks) == at[t..] && |ks| == |at| - 1 - t
    decreases |at| - t
  {
    hide Run, Takes, Tracks, Feasible, NextPos, NextCaps, Runnable, BecomeAll, NulFree;
    Forwards(us, e.s, at, t, t);
    RunLength(us, e.s, at);
    BecomeLength(us, e.p);
    if t + 1 == |at| {
      ks := [];
      assert at[t..] == [at[t]];
    } else {
      var x := e.p[t];
      RunPrefix(us, e.s, at, t + 1);
      RunTakes(us, e.s, at, t);
      TakesIff(us, e.p, e.s, t, at, c);
      var k: nat :| Feasible(e, x, at[t], c, k) && NextPos(e, x, at[t], c, k) == at[t + 1];
      TracksStep(e.p, t, at, c);
      var rest := RunWalks(us, e, t + 1, at, NextCaps(x, at[t], c));
      ks := [k] + rest;
      assert ks[1..] == rest;
      assert at[t..] == [at[t]] + at[t + 1..];
    }
  }

  lemma {:induction false} RunLength(us: seq<Unit>, s: seq<byte>, at: seq<nat>)
    requires Run(us, s, at)
    ensures 0 < |at| <= |us| + 1 && at[0] <= |s|
  {
    hide Takes;
  }

  lemma {:induction false} RunTakes(us: seq<Unit>, s: seq<byte>, at: seq<nat>, n: nat)
    requires Run(us, s, at) && n + 1 < |at|
    ensures n < |us| && Takes(us, n, s, at)
  {
    hide Takes;
  }

  // ----- runs that hang -----

  lemma {:induction false} HollowPrefix(us: seq<Unit>, n: nat, s: seq<byte>, at: seq<nat>, bt: seq<nat>)
    requires n < |us| && n <= |at| && n <= |bt| && forall m :: 0 <= m < n ==> at[m] == bt[m]
    ensures Hollow(us, n, s, at) <==> Hollow(us, n, s, bt)
  {
    hide IsGroup;
    forall o: nat, d: nat | o < d < n ensures GroupText(s, at, o, d) == GroupText(s, bt, o, d) {
    }
  }

  lemma {:induction false} LeadsHangs(us: seq<Unit>, e: Env, t: nat, at: seq<nat>, c: Caps, qs: seq<nat>)
    requires Setting(us, e) && |at| == t + 1 && Run(us, e.s, at) && Tracks(e.p, t, at, c)
    requires LeadsToStuck(e, t, at[t], c, qs) && forall n :: 0 <= n < t ==> !Hollow(us, n, e.s, at)
    ensures Hangs(us, e.s, at[..t] + Trace(e, t, at[t], c, qs))
    ensures Walks(e, t, at[t], c, qs)
    decreases qs
  {
    hide Run, Takes, Tracks, Feasible, NextPos, NextCaps, Runnable, BecomeAll, NulFree, Hollow, Stuck;
    assert at[..t] + [at[t]] == at && at[..t + 1] == at;
    BecomeLength(us, e.p);
    RunLength(us, e.s, at);
    HollowIff(us, e.p, e.s, t, at, c);
    if qs != [] {
      var x := e.p[t];
      var j, d := NextPos(e, x, at[t], c, qs[0]), NextCaps(x, at[t], c);
      var bt := at + [j];
      assert bt[..t + 1] == at;
      TracksMore(e.p, t, at, bt, c);
      TakesIff(us, e.p, e.s, t, bt, c);
      assert Steps(Env(e.p, e.s, -1), x, at[t], c, j);
      RunMore(us, e.s, at, j);
      TracksStep(e.p, t, bt, c);
      forall n | 0 <= n < t + 1 ensures !Hollow(us, n, e.s, bt) {
        HollowPrefix(us, n, e.s, at, bt);
      }
      LeadsHangs(us, e, t + 1, bt, d, qs[1..]);
      assert bt[..t + 1] + Trace(e, t + 1, j, d, qs[1..]) == at[..t] + Trace(e, t, at[t], c, qs);
    }
  }

  lemma {:induction false} HangsLeads(us: seq<Unit>, e: Env, t: nat, at: seq<nat>, c: Caps) returns (qs: seq<nat>)
    requires Setting(us, e) && t < |at| && Hangs(us, e.s, at) && Tracks(e.p, t, at, c)
    ensures LeadsToStuck(e, t, at[t], c, qs) && Walks(e, t, at[t], c, qs)
    ensures Trace(e, t, at[t], c, qs) == at[t..] && |qs| == |at| - 1 - t
    decreases |at| - t
  {
    hide Run, Takes, Tracks, Feasible, NextPos, NextCaps, Runnable, BecomeAll, NulFree, Hollow, Stuck;
    Forwards(us, e.s, at, t, t);
    BecomeLength(us, e.p);
    RunLength(us, e.s, at);
    RunPrefix(us, e.s, at, t + 1);
    HollowIff(us, e.p, e.s, t, at, c);
    if t + 1 == |at| {
      qs := [];
      assert at[t..] == [at[t]];
    } else {
      var x := e.p[t];
      RunTakes(us, e.s, at, t);
      TakesIff(us, e.p, e.s, t, at, c);
      var k: nat :| Feasible(e, x, at[t], c, k) && NextPos(e, x, at[t], c, k) == at[t + 1];
      TracksStep(e.p, t, at, c);
      var rest := HangsLeads(us, e, t + 1, at, NextCaps(x, at[t], c));
      qs := [k] + rest;
      assert qs[1..] == rest;
      assert at[t..] == [at[t]] + at[t + 1..];
    }
  }

  // ----- the order of trying -----

  lemma {:induction false} FurtherTail(i: nat, at: seq<nat>, bt: seq<nat>)
    ensures Further([i] + at, [i] + bt) <==> Further(at, bt)
  {
    var a, b := [i] + at, [i] + bt;
    if Further(a, b) {
      forall n | 0 <= n < |at| && n < |bt| && at[..n] == bt[..n] ensures at[n] <= bt[n] {
        assert a[..n + 1] == [i] + at[..n] && b[..n + 1] == [i] + bt[..n];
        assert a[n + 1] <= b[n + 1];
      }
    }
    if Further(at, bt) {
      forall n | 0 <= n < |a| && n < |b| && a[..n] == b[..n] ensures a[n] <= b[n] {
        if n > 0 {
          assert at[..n - 1] == a[..n][1..] && bt[..n - 1] == b[..n][1..];
          assert at[n - 1] <= bt[n - 1];
        }
      }
    }
  }

  lemma {:induction false} FurtherFirst(at: seq<nat>, bt: seq<nat>)
    requires at != [] && bt != [] && at[0] != bt[0]
    ensures Further(at, bt) <==> at[0] < bt[0]
  {
    forall n | 0 < n < |at| && n < |bt| ensures at[..n] != bt[..n] {
      assert at[..n][0] == at[0] && bt[..n][0] == bt[0];
    }
    assert at[..0] == bt[..0];
  }

  /** More repetitions go further. */
  lemma {:induction false} CountsGoFurther(e: Env, x: Item, i: nat, c: Caps, k: nat, n: nat)
    requires i <= |e.s| && Feasible(e, x, i, c, k) && Feasible(e, x, i, c, n) && k < n
    ensures NextPos(e, x, i, c, k) < NextPos(e, x, i, c, n)
  {
    hide Captured, Fits, SuffixOf;
    if x.base.Back? { PowerMono(Captured(e.s, c, x.base.g), k, n); }
  }

  lemma {:induction false} TraceOrder(e: Env, t: nat, i: nat, c: Caps, ks: seq<nat>, qs: seq<nat>)
    requires Walks(e, t, i, c, ks) && Walks(e, t, i, c, qs) && |qs| <= |ks|
    ensures Before(ks, qs) <==> Further(Trace(e, t, i, c, ks), Trace(e, t, i, c, qs))
    decreases qs
  {
    hide Feasible, NextPos, NextCaps, Further;
    if qs == [] {
      FurtherOne(Trace(e, t, i, c, ks), i);
    } else {
      var x, k, q := e.p[t], ks[0], qs[0];
      var d := NextCaps(x, i, c);
      var at := Trace(e, t + 1, NextPos(e, x, i, c, k), d, ks[1..]);
      var bt := Trace(e, t + 1, NextPos(e, x, i, c, q), d, qs[1..]);
      FurtherTail(i, at, bt);
      if k == q {
        TraceOrder(e, t + 1, NextPos(e, x, i, c, k), d, ks[1..], qs[1..]);
      } else {
        if k < q { CountsGoFurther(e, x, i, c, k, q); } else { CountsGoFurther(e, x, i, c, q, k); }
        FurtherFirst(at, bt);
      }
    }
  }

  lemma {:induction false} FurtherOne(at: seq<nat>, i: nat)
    requires at != [] && at[0] == i
    ensures Further(at, [i])
  {
  }

  lemma {:induction false} LexIsBefore(ks: seq<nat>, qs: seq<nat>)
    requires |ks| == |qs|
    ensures LexLe(ks, qs) <==> Before(ks, qs)
  {
    if ks != [] { LexIsBefore(ks[1..], qs[1..]); }
  }

  // ----- what the search reports, in terms of runs -----

  lemma {:induction false} RunStarts(us: seq<Unit>, e: Env, i: nat, c: Caps)
    requires i <= |e.s| && CapsShape(c)
    ensures Run(us, e.s, [i]) && Tracks(e.p, 0, [i], c)
  {
  }

  lemma {:induction false} DerivesMatch(us: seq<Unit>, e: Env, i: nat, c: Caps, ks: seq<nat>)
    requires Setting(us, e) && CapsShape(c) && Derives(e, 0, i, c, ks)
    ensures var at := Trace(e, 0, i, c, ks);
      && Match(us, e.s, at) && Walks(e, 0, i, c, ks) && |ks| == |e.p| && |at| == |us| + 1
      && Exec(e, 0, i, c, ks) == Some((at[|us|], EndCaps(e, 0, i, c, ks)))
      && Tracks(e.p, |e.p|, at, EndCaps(e, 0, i, c, ks))
  {
    hide Run, Tracks, Walks, Trace, EndCaps, Exec, Runnable, BecomeAll, NulFree;
    RunStarts(us, e, i, c);
    BecomeLength(us, e.p);
    DerivesWalks(e, 0, i, c, ks);
    WalkRuns(us, e, 0, [i], c, ks);
    assert [i][..0] + Trace(e, 0, i, c, ks) == Trace(e, 0, i, c, ks);
  }

  lemma {:induction false} MatchDerives(us: seq<Unit>, e: Env, at: seq<nat>, c: Caps) returns (ks: seq<nat>)
    requires Setting(us, e) && CapsShape(c) && Match(us, e.s, at)
    ensures Derives(e, 0, at[0], c, ks) && Walks(e, 0, at[0], c, ks) && Trace(e, 0, at[0], c, ks) == at && |ks| == |e.p|
  {
    hide Run, Tracks, Walks, Trace, EndCaps, Derives, Runnable, BecomeAll, NulFree;
    RunLength(us, e.s, at);
    RunStarts(us, e, at[0], c);
    TracksMore(e.p, 0, [at[0]], at, c);
    BecomeLength(us, e.p);
    ks := RunWalks(us, e, 0, at, c);
    assert at[0..] == at;
    DerivesWalks(e, 0, at[0], c, ks);
  }

  lemma {:induction false} StuckHangs(us: seq<Unit>, e: Env, i: nat, c: Caps, qs: seq<nat>)
    requires Setting(us, e) && CapsShape(c) && LeadsToStuck(e, 0, i, c, qs)
    ensures Hangs(us, e.s, Trace(e, 0, i, c, qs)) && Walks(e, 0, i, c, qs) && |qs| < |e.p|
  {
    hide Run, Tracks, Walks, Trace, Runnable, BecomeAll, NulFree, Hangs;
    RunStarts(us, e, i, c);
    LeadsLength(e, 0, i, c, qs);
    LeadsHangs(us, e, 0, [i], c, qs);
    assert [i][..0] + Trace(e, 0, i, c, qs) == Trace(e, 0, i, c, qs);
  }

  lemma {:induction false} HangsStuck(us: seq<Unit>, e: Env, at: seq<nat>, c: Caps) returns (qs: seq<nat>)
    requires Setting(us, e) && CapsShape(c) && Hangs(us, e.s, at)
    ensures LeadsToStuck(e, 0, at[0], c, qs) && Walks(e, 0, at[0], c, qs) && Trace(e, 0, at[0], c, qs) == at
    ensures |qs| < |e.p|
  {
    hide Tracks, Walks, Trace, LeadsToStuck, Runnable, BecomeAll, NulFree, Hollow, Run;
    RunLength(us, e.s, at);
    RunStarts(us, e, at[0], c);
    TracksMore(e.p, 0, [at[0]], at, c);
    BecomeLength(us, e.p);
    qs := HangsLeads(us, e, 0, at, c);
    assert at[0..] == at;
  }

  /** There is neither a derivation nor a way to a stuck item. */
  ghost predicate NoWay(e: Env, i: nat, c: Caps) {
    forall qs :: !Derives(e, 0, i, c, qs) && !LeadsToStuck(e, 0, i, c, qs)
  }

  lemma {:induction false} SilentFrom(us: seq<Unit>, e: Env, c: Caps, at: seq<nat>)
    requires Setting(us, e) && CapsShape(c) && at != [] && NoWay(e, at[0], c)
    ensures !Match(us, e.s, at) && !Hangs(us, e.s, at)
  {
    hide Match, Hangs, Derives, LeadsToStuck, Walks, Trace, Setting;
    if Match(us, e.s, at) {
      var ks := MatchDerives(us, e, at, c);
      assert false;
    }
    if Hangs(us, e.s, at) {
      var qs := HangsStuck(us, e, at, c);
      assert false;
    }
  }

  lemma {:induction false} NoWayFrom(us: seq<Unit>, e: Env, i: nat, c: Caps, qs: seq<nat>)
    requires Setting(us, e) && CapsShape(c) && Silent(us, e.s, i)
    ensures !Derives(e, 0, i, c, qs) && !LeadsToStuck(e, 0, i, c, qs)
  {
    hide Match, Hangs, Derives, LeadsToStuck, Walks, Trace, Setting, EndCaps, Tracks, Exec;
    if Derives(e, 0, i, c, qs) {
      DerivesMatch(us, e, i, c, qs);
      assert false;
    }
    if LeadsToStuck(e, 0, i, c, qs) {
      StuckHangs(us, e, i, c, qs);
      assert false;
    }
  }

  /** Nothing happens at a start when there is no derivation and no way to a stuck item. */
  lemma {:induction false} SilentIff(us: seq<Unit>, e: Env, i: nat, c: Caps)
    requires Setting(us, e) && CapsShape(c)
    ensures Silent(us, e.s, i) <==> NoWay(e, i, c)
  {
    hide Match, Hangs, Derives, LeadsToStuck, Setting;
    if NoWay(e, i, c) {
      forall at: seq<nat> | at != [] && at[0] == i ensures !Match(us, e.s, at) && !Hangs(us, e.s, at) {
        SilentFrom(us, e, c, at);
      }
    }
    if Silent(us, e.s, i) {
      forall qs ensures !Derives(e, 0, i, c, qs) && !LeadsToStuck(e, 0, i, c, qs) {
        NoWayFrom(us, e, i, c, qs);
      }
    }
  }

  lemma {:induction false} GreedyIsBest(us: seq<Unit>, e: Env, i: nat, c: Caps, ks: seq<nat>)
    requires Setting(us, e) && CapsShape(c) && Greedy(e, 0, i, c, ks)
    requires forall qs :: LeadsToStuck(e, 0, i, c, qs) ==> !Before(ks, qs)
    ensures Best(us, e.s, Trace(e, 0, i, c, ks))
  {
    hide Match, Hangs, Derives, LeadsToStuck, Walks, Trace, Setting, EndCaps, Tracks, Exec, Further, Before, LexLe;
    var at := Trace(e, 0, i, c, ks);
    DerivesMatch(us, e, i, c, ks);
    forall bt: seq<nat> | bt != [] && Match(us, e.s, bt) && bt[0] == i ensures Further(bt, at) {
      var qs := MatchDerives(us, e, bt, c);
      LexIsBefore(qs, ks);
      TraceOrder(e, 0, i, c, qs, ks);
    }
    forall bt: seq<nat> | bt != [] && Hangs(us, e.s, bt) && bt[0] == i ensures !Further(at, bt) {
      var qs := HangsStuck(us, e, bt, c);
      TraceOrder(e, 0, i, c, ks, qs);
    }
  }

  lemma {:induction false} StuckFirstStalls(us: seq<Unit>, e: Env, i: nat, c: Caps, qs: seq<nat>)
    requires Setting(us, e) && CapsShape(c) && StuckFirst(e, 0, i, c, qs)
    ensures Stalls(us, e.s, Trace(e, 0, i, c, qs))
  {
    hide Match, Hangs, Derives, LeadsToStuck, Walks, Trace, Setting, EndCaps, Tracks, Exec, Further, Before, LexLe;
    var at := Trace(e, 0, i, c, qs);
    StuckHangs(us, e, i, c, qs);
    forall bt: seq<nat> | bt != [] && Match(us, e.s, bt) && bt[0] == i ensures Further(bt, at) {
      var ks := MatchDerives(us, e, bt, c);
      TraceOrder(e, 0, i, c, ks, qs);
    }
  }

  lemma {:induction false} TracksCaptures(us: seq<Unit>, p: seq<Item>, at: seq<nat>, c: Caps, d: Caps)
    requires BecomeAll(us, p) && Runnable(p) && Tracks(p, |p|, at, c) && Similar(p, |p|, c, d)
    ensures CapturesAre(us, at, d.starts, d.ends)
  {
    hide IsGroup, BecomeAll, Grouped;
    forall g: nat, o: nat, q: nat | IsGroup(us, g, o, q)
      ensures o < |at| && q < |at| && g < |d.starts| && g < |d.ends| && d.starts[g] == at[o] && d.ends[g] == at[q]
    {
      BecomeLength(us, p);
      GroupOrder(us, g, o, q);
      GroupItems(us, p, g, o, q);
      assert Shaped(p[o]) && Shaped(p[q]);
      assert TrackedAt(p[o].base, at[o], c) && TrackedAt(p[q].base, at[q], c);
      assert OpenedBefore(p, |p|, p[o].base.g) && ClosedBefore(p, |p|, p[q].base.g);
    }
  }
}
