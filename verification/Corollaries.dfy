/**
 Consequences for programs and patterns.
 */
module Corollaries {
  import opened Bytes
  import opened Program
  import opened ByteCode
  import opened Semantics
  import opened Interpreter
  import opened Pattern
  import opened Lexer
  import opened Fragment
  import opened Divergence
  import opened Meaning
  import opened Units
  import opened Refinement
  import opened Matching
  import opened RegexpH

  // ----- the answer -----

  lemma {:induction false} EarlierIsQuiet(e: Env, anchored: bool, i: int, j: nat)
    requires FirstStart(e, anchored, i) && j < i
    ensures Quiet(e, j)
  {
  }

  lemma {:induction false} FindsExcludesStuck(e: Env, anchored: bool, i: nat, qs: seq<nat>, j: nat, rs: seq<nat>)
    requires FirstStart(e, anchored, i) && Finds(e, i, qs) && FirstStart(e, anchored, j)
    ensures !StuckFirst(e, 0, j, NoCaps(), rs)
  {
    hide Exec, Derives, LeadsToStuck, Before;
    if i < j {
      EarlierIsQuiet(e, anchored, j, i);
      assert false;
    } else if j < i {
      EarlierIsQuiet(e, anchored, i, j);
    }
  }

  /** The three answers exclude each other, so each is given exactly when its condition on the text holds. */
  lemma {:induction false} ReportIsExact(a: Answer, p: seq<Item>, s: seq<byte>, anchored: bool,
                                         loc1: int, loc2: int, c: Caps, ks: seq<nat>)
    requires Reports(a, p, s, anchored, loc1, loc2, c, ks)
    ensures var e := Env(p, s, -1);
      && (a == Matched <==> exists i, qs :: FirstStart(e, anchored, i) && Finds(e, i, qs))
      && (a == Diverges <==> exists i, qs :: FirstStart(e, anchored, i) && StuckFirst(e, 0, i, NoCaps(), qs))
      && (a == Failed <==> forall i :: 0 <= i <= |s| && (anchored ==> i == 0) ==> Quiet(e, i))
  {
    hide Exec, Similar, Derives, LeadsToStuck, Before;
    var e := Env(p, s, -1);
    forall i, qs, j, rs | FirstStart(e, anchored, i) && Finds(e, i, qs) && FirstStart(e, anchored, j)
      ensures !StuckFirst(e, 0, j, NoCaps(), rs)
    {
      FindsExcludesStuck(e, anchored, i, qs, j, rs);
    }
    forall i, qs | FirstStart(e, anchored, i) && Finds(e, i, qs) ensures !Quiet(e, i) {
    }
    forall i, qs | FirstStart(e, anchored, i) && StuckFirst(e, 0, i, NoCaps(), qs) ensures !Quiet(e, i) {
    }
  }

  /** When no starred back-reference can hang, 1 is returned exactly when the pattern matches somewhere. */
  lemma {:induction false} ReportWithoutHangs(a: Answer, toks: seq<Token>, s: seq<byte>, anchored: bool,
                                              loc1: int, loc2: int, c: Caps, ks: seq<nat>)
    requires Reports(a, Items(toks), s, anchored, loc1, loc2, c, ks) && Runnable(Items(toks))
    requires forall t :: !HangsAt(Items(toks), t)
    ensures a == Matched <==> MatchesSomewhere(toks, anchored, s)
  {
    hide HangsAt, Items, Exec, Similar, Search;
    var e := Env(Items(toks), s, -1);
    match a
    case Matched => assert MatchesAt(toks, s, loc1, ks);
    case Failed =>
      forall i: nat, qs: seq<nat> | anchored ==> i == 0 ensures !MatchesAt(toks, s, i, qs) {
        if i <= |s| { assert Quiet(e, i); }
      }
    case Diverges =>
      var i :| FirstStart(e, anchored, i) && StuckFirst(e, 0, i, NoCaps(), ks);
      NeverIff(e, 0, i, NoCaps());
      AlwaysReturns(e, i, NoCaps());
      assert false;
  }

  // ----- the pattern and the text determine the answer -----

  lemma {:induction false} FurtherBoth(at: seq<nat>, bt: seq<nat>, n: nat)
    requires |at| == |bt| && n <= |at| && Further(at, bt) && Further(bt, at)
    ensures at[..n] == bt[..n]
  {
    if n > 0 {
      FurtherBoth(at, bt, n - 1);
      assert at[n - 1] == bt[n - 1];
      assert at[..n] == at[..n - 1] + [at[n - 1]] && bt[..n] == bt[..n - 1] + [bt[n - 1]];
    }
  }

  lemma {:induction false} BestIsUnique(us: seq<Unit>, s: seq<byte>, at: seq<nat>, bt: seq<nat>)
    requires Best(us, s, at) && Best(us, s, bt) && at[0] == bt[0]
    ensures at == bt
  {
    hide Run, Hangs, Further;
    FurtherBoth(at, bt, |at|);
    assert at[..|at|] == at && bt[..|at|] == bt;
  }

  lemma {:induction false} BestDoesNotStall(us: seq<Unit>, s: seq<byte>, at: seq<nat>)
    requires Best(us, s, at)
    ensures forall bt: seq<nat> :: bt != [] && bt[0] == at[0] ==> !Stalls(us, s, bt)
  {
    hide Run, Hollow, Further;
  }

  lemma {:induction false} OneLeftmost(us: seq<Unit>, s: seq<byte>, anchored: bool, i: nat, j: nat)
    requires Leftmost(us, s, anchored, i) && Leftmost(us, s, anchored, j) && !Silent(us, s, i) && !Silent(us, s, j)
    ensures i == j
  {
    hide Silent;
  }

  lemma {:induction false} NotSilent(us: seq<Unit>, s: seq<byte>, at: seq<nat>)
    ensures Best(us, s, at) ==> at != [] && !Silent(us, s, at[0])
    ensures Stalls(us, s, at) ==> at != [] && !Silent(us, s, at[0])
  {
    hide Takes, Further, Hollow;
  }

  /** Of all answers, starts, ends and captures of groups there is only one that can be said. */
  lemma {:induction false} SaysIsUnique(us: seq<Unit>, s: seq<byte>, anchored: bool,
                                        a: Answer, loc1: int, loc2: int, c: Caps, at: seq<nat>,
                                        b: Answer, loc3: int, loc4: int, d: Caps, bt: seq<nat>)
    requires Says(a, us, s, anchored, loc1, loc2, c, at) && Says(b, us, s, anchored, loc3, loc4, d, bt)
    ensures a == b
    ensures a == Matched ==>
      && loc1 == loc3 && loc2 == loc4
      && forall g: nat, o: nat, q: nat :: IsGroup(us, g, o, q) ==>
           && g < |c.starts| && g < |c.ends| && g < |d.starts| && g < |d.ends|
           && c.starts[g] == d.starts[g] && c.ends[g] == d.ends[g]
  {
    hide Best, Stalls, Silent, Leftmost, IsGroup;
    NotSilent(us, s, at);
    NotSilent(us, s, bt);
    if !a.Failed? { IsAllowed(us, s, anchored, at[0]); }
    if !b.Failed? { IsAllowed(us, s, anchored, bt[0]); }
    if !a.Failed? && !b.Failed? { OneLeftmost(us, s, anchored, at[0], bt[0]); }
    if a.Matched? { BestDoesNotStall(us, s, at); }
    if b.Matched? { BestDoesNotStall(us, s, bt); }
    if a.Matched? && b.Matched? { BestIsUnique(us, s, at, bt); }
  }

  lemma {:induction false} IsAllowed(us: seq<Unit>, s: seq<byte>, anchored: bool, i: nat)
    requires Leftmost(us, s, anchored, i)
    ensures i <= |s| && (anchored ==> i == 0)
  {
  }

  // ----- the end of the text -----

  lemma {:induction false} SameTakes(us: seq<Unit>, u: Unit, n: nat, s: seq<byte>, at: seq<nat>)
    requires n < |us| && n + 1 < |at|
    ensures Takes(us + [u], n, s, at) <==> Takes(us, n, s, at)
  {
    hide IsGroup, Times, Matches, IsCopy, GroupText;
    var vs := us + [u];
    assert vs[n] == us[n];
    if us[n].tok.BackRef? {
      forall o: nat, d: nat | o < d < n ensures IsGroup(vs, us[n].tok.g, o, d) <==> IsGroup(us, us[n].tok.g, o, d) {
        SameGroup(us, vs, us[n].tok.g, o, d);
      }
    }
  }

  /** A pattern with a dollar at its end matches exactly where the pattern without it matches up to the end. */
  lemma {:induction false} DollarMeans(us: seq<Unit>, s: seq<byte>, at: seq<nat>)
    ensures Match(us + [Unit(EndAnchor, [])], s, at) <==>
      |at| == |us| + 2 && Match(us, s, at[..|us| + 1]) && at[|us|] == at[|us| + 1] == |s|
  {
    hide Takes;
    var vs := us + [Unit(EndAnchor, [])];
    if |at| == |us| + 2 {
      var front := at[..|us| + 1];
      forall n | 0 <= n < |us| ensures Takes(vs, n, s, at) <==> Takes(us, n, s, front) {
        SameTakes(us, Unit(EndAnchor, []), n, s, at);
        TakesPrefix(us, n, s, at, front);
      }
      assert vs[|us|].tok == EndAnchor;
      DollarTakes(vs, |us|, s, at);
    }
  }

  lemma {:induction false} DollarTakes(us: seq<Unit>, n: nat, s: seq<byte>, at: seq<nat>)
    requires n < |us| && n + 1 < |at| && us[n].tok == EndAnchor
    ensures Takes(us, n, s, at) <==> at[n] == at[n + 1] == |s|
  {
  }

  // ----- anchors, groups, intervals -----

  /** A match of a program that ends in CDOL ends at the end of the text. */
  lemma {:induction false} EndAnchored(e: Env, t: nat, i: nat, c: Caps, ks: seq<nat>)
    requires Derives(e, t, i, c, ks) && t < |e.p| && e.p[|e.p| - 1].base.Dol?
    ensures Exec(e, t, i, c, ks).value.0 == |e.s|
    decreases ks
  {
    NextPosBound(e, e.p[t], i, c, ks[0]);
    if t + 1 < |e.p| {
      EndAnchored(e, t + 1, NextPos(e, e.p[t], i, c, ks[0]), NextCaps(e.p[t], i, c), ks[1..]);
    }
  }

  /** The captures of a match lie inside it. */
  lemma {:induction false} CapturesInside(e: Env, t: nat, from: nat, i: nat, c: Caps, ks: seq<nat>)
    requires Derives(e, t, i, c, ks) && Runnable(e.p) && CapsOk(e.p, t, c, i) && from <= i
    requires forall x :: 0 <= x < t && e.p[x].base.Open? ==> e.p[x].base.g < NBRA && from <= c.starts[e.p[x].base.g]
    ensures var r := Exec(e, t, i, c, ks).value;
      && CapsOk(e.p, |e.p|, r.1, r.0)
      && forall x :: 0 <= x < |e.p| && e.p[x].base.Open? ==> e.p[x].base.g < NBRA && from <= r.1.starts[e.p[x].base.g]
    decreases ks
  {
    hide Feasible, Grouped;
    if ks != [] {
      var j, d := NextPos(e, e.p[t], i, c, ks[0]), NextCaps(e.p[t], i, c);
      NextPosBound(e, e.p[t], i, c, ks[0]);
      CapsOkStep(e.p, t, c, i, j);
      assert Shaped(e.p[t]);
      forall x | 0 <= x < t + 1 && e.p[x].base.Open? ensures e.p[x].base.g < NBRA && from <= d.starts[e.p[x].base.g] {
        assert Shaped(e.p[x]);
      }
      CapturesInside(e, t + 1, from, j, d, ks[1..]);
    }
  }

  /** Bounds written by `compile`: in order, and below 255 unless there is no upper bound. */
  ghost predicate BoundsOk(r: Range) {
    r.lo <= r.hi && r.lo < 255
  }

  ghost predicate AllBoundsOk(x: Item) {
    forall n :: 0 <= n < |x.ranges| ==> BoundsOk(x.ranges[n])
  }

  lemma {:induction false} LawfulBounds(toks: seq<Token>)
    requires Lawful(toks)
    ensures forall t :: 0 <= t < |Items(toks)| ==> AllBoundsOk(Items(toks)[t])
  {
    if toks != [] {
      var before, tok := toks[..|toks| - 1], toks[|toks| - 1];
      assert toks == before + [tok];
      LawfulBounds(before);
      hide Items, BaseOf, StarIsLiteral, AllBoundsOk, LegalBody, LegalInterval, Modified;
      ItemsStep(before, tok);
      var xs := Items(before);
      if IsModifier(tok) {
        ModifiedBounds(xs[|xs| - 1], tok);
      } else {
        NoBounds(BaseOf(before, tok));
      }
    }
  }

  lemma {:induction false} ModifiedBounds(x: Item, tok: Token)
    requires AllBoundsOk(x) && IsModifier(tok) && (tok.Interval? ==> LegalInterval(tok.lo, tok.hi))
    ensures AllBoundsOk(Modified(x, tok))
  {
    if tok.Interval? {
      DigitsValue(tok.lo);
      if tok.hi.UpTo? { DigitsValue(tok.hi.digits); }
      hide Digits, Value;
      var y := RangeOf(tok.lo, tok.hi);
      assert BoundsOk(y);
      hide RangeOf, BoundsOk, LegalInterval;
      forall n | 0 <= n < |x.ranges + [y]| ensures BoundsOk((x.ranges + [y])[n]) {
      }
    }
  }

  lemma {:induction false} NoBounds(b: Base)
    ensures AllBoundsOk(Item(b, false, []))
  {
  }

  // ----- locs -----

  /** The ends that are tried for a repeated single-character item: from the shortest allowed to the longest
      possible, but only those behind `locs` when `locs` is one of them. */
  lemma {:induction false} LocsCut(e: Env, x: Item, i: nat, c: Caps, k: int)
    requires i <= |e.s| && Shaped(x) && x.base.One? && Repeated(x)
    ensures var first, last := i + Least(SuffixOf(x)), i + High(e, x, i, c);
      Feasible(e, x, i, c, k) <==>
        first <= i + k <= last && (first <= e.locs <= last ==> e.locs < i + k)
  {
    FeasibleRange(e, x, i, c, k);
  }

  // ----- character classes -----

  /** Each form of the class opcode accepts the characters of the bracket expression, or for `[^` all others but NUL. */
  lemma {:induction false} ClassMeaning(neg: bool, body: seq<Member>, dash: bool, code: seq<byte>, ep: nat, c: byte)
    requires LegalBody(neg, body)
    requires ep <= |code| && MapOf(neg, Denoted(body, dash)) <= code[ep..]
    ensures var op := AtomOp(Set(neg, Denoted(body, dash)));
      && op in {CCL, NCCL, CXCL} && ep + Width(op) <= |code|
      && (Test(code, ep, op, c) <==> c != 0 && Listed(body, dash, c) != neg)
      && (RangeRejects(code, ep, op, c) <==> !(c != 0 && Listed(body, dash, c) != neg))
  {
    hide LegalBody, Denoted, Listed, Test, RangeRejects;
    ListedIsDenoted(neg, body, dash, c);
    NoNulInBody(neg, body);
    NoNulInDenoted(body, dash);
    TestIsAccepts(Set(neg, Denoted(body, dash)), code, ep, c);
  }

  lemma {:induction false} NoNulInDenoted(body: seq<Member>, dash: bool)
    requires 0 !in SetOf(body)
    ensures 0 !in Denoted(body, dash)
  {
    hide SetOf;
  }

  // ----- patterns without nested groups -----

  /** No group is opened inside another. */
  ghost predicate Flat(toks: seq<Token>) {
    toks == [] || (Flat(toks[..|toks| - 1]) && |Stack(toks)| <= 1)
  }

  /** Then the count of closed groups tells which groups are closed: only the last one opened can be open. */
  lemma {:induction false} FlatStack(toks: seq<Token>)
    requires Lawful(toks) && Flat(toks)
    ensures Stack(toks) == [] || Stack(toks) == [ToByte(Opens(toks) - 1)]
    ensures |Stack(toks)| + Closes(toks) == Opens(toks) <= NBRA
  {
    if toks != [] {
      var before, tok := toks[..|toks| - 1], toks[|toks| - 1];
      assert toks == before + [tok];
      FlatStack(before);
      hide Stack, Opens, Closes, StarIsLiteral, Items, LegalBody, LegalInterval;
      GroupsStep(before, tok);
    }
  }

  /** So the check of a back-reference against that count is enough. */
  lemma {:induction false} FlatReference(before: seq<Token>, g: byte)
    requires Lawful(before) && Flat(before) && LawfulNext(before, BackRef(g))
    ensures FragmentNext(before, BackRef(g))
  {
    FlatStack(before);
  }
}
