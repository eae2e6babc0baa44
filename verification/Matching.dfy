/**
 compile followed by step: what a pattern matches.
 */
module Matching {
  import opened Bytes
  import opened Program
  import opened ByteCode
  import opened Semantics
  import opened Pattern
  import opened Lexer
  import opened Grammar
  import opened Overrun
  import opened Emitter
  import opened Decoder
  import opened Fragment
  import opened Divergence
  import opened Meaning
  import opened Units
  import opened Refinement
  import opened RegexpH

  /** Derivation `ks` matches the tokens at `i`; `locs` is not set. */
  ghost predicate MatchesAt(toks: seq<Token>, s: seq<byte>, i: nat, ks: seq<nat>) {
    Derives(Env(Items(toks), s, -1), 0, i, NoCaps(), ks)
  }

  /** The pattern matches somewhere in the text; only at its beginning when it starts with a circumflex. */
  ghost predicate MatchesSomewhere(toks: seq<Token>, anchored: bool, s: seq<byte>) {
    exists i: nat, ks: seq<nat> :: (anchored ==> i == 0) && MatchesAt(toks, s, i, ks)
  }

  /** An accepted pattern in the fragment gives a program the matcher can run. */
  lemma {:induction false} DenotesRunnable(pat: seq<byte>, eof: byte, sed: bool, start: nat, toks: seq<Token>)
    requires Denotes(pat, eof, sed, start, toks)
    ensures Runnable(Items(toks)) <==> InFragment(toks)
    ensures DolLast(Items(toks))
    ensures Brackets(Items(toks), [], Opens(toks), Closes(toks))
  {
    SpellsLawful(pat, eof, start, toks);
    RunnableIff(toks);
    LawfulDolLast(toks);
    LawfulBrackets(toks);
  }

  /** The code stands where it was written. */
  lemma {:induction false} CodePlaced(b: seq<byte>, base: nat, p: seq<Item>)
    requires base + |Code(p)| <= |b| && b[base..base + |Code(p)|] == Code(p)
    ensures Placed(b, base, p, 0)
  {
    assert b[base..][..|Code(p)|] == b[base..base + |Code(p)|];
  }

  /** At `i` the program has no derivation and nothing leads to a stuck item. */
  ghost predicate Quiet(e: Env, i: nat) {
    forall qs :: !Derives(e, 0, i, NoCaps(), qs) && !LeadsToStuck(e, 0, i, NoCaps(), qs)
  }

  /** `ks` is the greatest derivation at `i`, and the search comes to it before any stuck item. */
  ghost predicate Finds(e: Env, i: nat, ks: seq<nat>) {
    && Greedy(e, 0, i, NoCaps(), ks)
    && forall qs :: LeadsToStuck(e, 0, i, NoCaps(), qs) ==> !Before(ks, qs)
  }

  /** `i` is the leftmost start at which anything happens; the only one when the pattern is anchored. */
  ghost predicate FirstStart(e: Env, anchored: bool, i: int) {
    0 <= i <= |e.s| && (anchored ==> i == 0) && forall j :: 0 <= j < i ==> Quiet(e, j)
  }

  /** The verdict on a text in terms of derivations, for a run that started from arbitrary captures. */
  lemma {:induction false} VerdictMeans(e: Env, i: nat, c: Caps) returns (ks: seq<nat>)
    requires i <= |e.s| && Runnable(e.p) && CapsShape(c)
    ensures Search(e, 0, i, c).Yes? ==>
      && Finds(e, i, ks)
      && var r := Exec(e, 0, i, NoCaps(), ks).value;
      r.0 == Search(e, 0, i, c).end && Similar(e.p, |e.p|, r.1, Search(e, 0, i, c).caps)
    ensures Search(e, 0, i, c).No? ==> Quiet(e, i)
    ensures Search(e, 0, i, c).Never? ==> StuckFirst(e, 0, i, NoCaps(), ks)
  {
    hide Search, Exec, Similar, Derives, Greedy, LeadsToStuck, StuckFirst, Before;
    StaleCapturesIrrelevant(e, i, NoCaps(), c);
    match Search(e, 0, i, NoCaps())
    case Yes(_, _) =>
      ks := SearchGreedy(e, 0, i, NoCaps());
      GreedyDerives(e, 0, i, NoCaps(), ks);
    case Never =>
      ks := SearchNever(e, 0, i, NoCaps());
    case No =>
      ks := [];
      forall qs ensures !Derives(e, 0, i, NoCaps(), qs) && !LeadsToStuck(e, 0, i, NoCaps(), qs) {
        if Derives(e, 0, i, NoCaps(), qs) {
          SearchComplete(e, 0, i, NoCaps(), qs);
          assert false;
        }
        if LeadsToStuck(e, 0, i, NoCaps(), qs) {
          StuckNotNo(e, 0, i, NoCaps(), qs);
          assert false;
        }
      }
  }

  lemma {:induction false} GreedyDerives(e: Env, t: nat, i: nat, c: Caps, ks: seq<nat>)
    requires Greedy(e, t, i, c, ks)
    ensures Derives(e, t, i, c, ks)
  {
  }

  /** What a search reports: the leftmost start at which there is a derivation or a stuck item; there the greatest
      derivation with its end and captures, or that a stuck item comes up first; or that no start has either. */
  ghost predicate Reports(a: Answer, p: seq<Item>, s: seq<byte>, anchored: bool, loc1: int, loc2: int, c: Caps,
                          ks: seq<nat>) {
    var e := Env(p, s, -1);
    match a
    case Matched =>
      && FirstStart(e, anchored, loc1) && Finds(e, loc1, ks)
      && loc1 <= loc2 <= |s| && Exec(e, 0, loc1, NoCaps(), ks).value.0 == loc2
      && Similar(p, |p|, Exec(e, 0, loc1, NoCaps(), ks).value.1, c)
    case Failed => forall i :: 0 <= i <= |s| && (anchored ==> i == 0) ==> Quiet(e, i)
    case Diverges => exists i :: FirstStart(e, anchored, i) && StuckFirst(e, 0, i, NoCaps(), ks)
  }

  lemma {:induction false} StepReports(a: Answer, e: Env, anchored: bool, from: nat, c0: Caps, loc1: int, loc2: int,
                                       c: Caps)
    returns (ks: seq<nat>)
    requires Runnable(e.p) && e.locs == -1 && CapsShape(c0) && from <= |e.s|
    requires anchored ==> from == 0
    requires !anchored ==> forall i :: 0 <= i < from ==> Search(e, 0, i, c0).No?
    requires !anchored && a == Failed ==> from == |e.s|
    requires match Search(e, 0, from, c0)
      case No => a == Failed
      case Never => a == Diverges
      case Yes(end, caps) => a == Matched && loc1 == from && loc2 == end && c == caps
    ensures Reports(a, e.p, e.s, anchored, loc1, loc2, c, ks)
  {
    ks := VerdictMeans(e, from, c0);
    hide Search, Exec, Similar, Greedy, Quiet, StuckFirst;
    forall i | 0 <= i < from && !anchored ensures Quiet(e, i) {
      var _ := VerdictMeans(e, i, c0);
    }
    assert FirstStart(e, anchored, from);
    match a
    case Matched =>
      GreedyDerives(e, 0, from, NoCaps(), ks);
      EndAfterStart(e, 0, from, NoCaps(), ks);
    case Failed =>
    case Diverges =>
  }

  lemma {:induction false} EndAfterStart(e: Env, t: nat, i: nat, c: Caps, ks: seq<nat>)
    requires Derives(e, t, i, c, ks)
    ensures i <= Exec(e, t, i, c, ks).value.0 <= |e.s|
    decreases ks
  {
    if ks != [] {
      NextPosBound(e, e.p[t], i, c, ks[0]);
      EndAfterStart(e, t + 1, NextPos(e, e.p[t], i, c, ks[0]), NextCaps(e.p[t], i, c), ks[1..]);
    }
  }

  lemma {:induction false} NormalAtStart(e: Env, q: seq<Item>, i: nat, ks: seq<nat>)
    requires DecodableAll(e.p) && IsNormal(e.p, q)
    ensures Quiet(e.(p := q), i) <==> Quiet(e, i)
    ensures Finds(e.(p := q), i, ks) <==> Finds(e, i, ks)
    ensures StuckFirst(e.(p := q), 0, i, NoCaps(), ks) <==> StuckFirst(e, 0, i, NoCaps(), ks)
  {
    hide Derives, LeadsToStuck, Before, LexLe, IsNormal, DecodableAll;
    var f := e.(p := q);
    forall qs ensures Derives(f, 0, i, NoCaps(), qs) <==> Derives(e, 0, i, NoCaps(), qs) {
      NormalDerives(e, q, 0, i, NoCaps(), qs);
    }
    forall qs ensures LeadsToStuck(f, 0, i, NoCaps(), qs) <==> LeadsToStuck(e, 0, i, NoCaps(), qs) {
      NormalStuck(e, q, 0, i, NoCaps(), qs);
    }
  }

  /** A report about a program is a report about what is read back from its code. */
  lemma {:induction false} NormalReports(a: Answer, p: seq<Item>, q: seq<Item>, s: seq<byte>, anchored: bool,
                                         loc1: int, loc2: int, c: Caps, ks: seq<nat>)
    requires DecodableAll(p) && IsNormal(p, q)
    ensures Reports(a, q, s, anchored, loc1, loc2, c, ks) <==> Reports(a, p, s, anchored, loc1, loc2, c, ks)
  {
    hide Quiet, Finds, StuckFirst, Similar, DecodableAll, Exec, Normal;
    var e := Env(p, s, -1);
    forall i: nat
      ensures Quiet(e.(p := q), i) <==> Quiet(e, i)
      ensures StuckFirst(e.(p := q), 0, i, NoCaps(), ks) <==> StuckFirst(e, 0, i, NoCaps(), ks)
    {
      NormalAtStart(e, q, i, ks);
    }
    forall i: int ensures FirstStart(e.(p := q), anchored, i) <==> FirstStart(e, anchored, i) { }
    if a.Matched? && FirstStart(e, anchored, loc1) && Finds(e, loc1, ks) {
      FindsDerives(e, loc1, ks);
      NormalDerives(e, q, 0, loc1, NoCaps(), ks);
      NormalGroups(p, q, |p|, Exec(e, 0, loc1, NoCaps(), ks).value.1, c);
    }
    if 0 <= loc1 { NormalAtStart(e, q, loc1, ks); }
  }

  lemma {:induction false} FindsDerives(e: Env, i: nat, ks: seq<nat>)
    requires Finds(e, i, ks)
    ensures Derives(e, 0, i, NoCaps(), ks)
  {
    hide LeadsToStuck, Before, Exec;
  }

  method StepAndReport(re: Regexp, s: seq<byte>, code: seq<byte>, base: nat, ghost p: seq<Item>)
    returns (a: Answer, ghost ks: seq<nat>)
    requires re.Valid() && re.locs == -1 && NulFree(s) && Runnable(p) && Placed(code, base, p, 0)
    modifies re, re.braslist, re.braelist
    ensures re.circf == old(re.circf) && re.locs == old(re.locs) && re.sed == old(re.sed)
    ensures Reports(a, p, s, re.circf, re.loc1, re.loc2, re.Captures(), ks)
  {
    hide Search, Reports, Runnable, Placed;
    ghost var c0 := re.Captures();
    ghost var from;
    a, from := re.Step(s, 0, code, base, p);
    ks := StepReports(a, Env(p, s, -1), re.circf, from, c0, re.loc1, re.loc2, re.Captures());
  }

  // ----- in terms of the pattern -----

  /** What `step` says about a pattern: 1 with the positions of the best run from the leftmost start, or 0 when no run
      matches or hangs, or that it does not return because a run that hangs is tried before every match. */
  ghost predicate Says(a: Answer, us: seq<Unit>, s: seq<byte>, anchored: bool, loc1: int, loc2: int, c: Caps,
                       at: seq<nat>) {
    match a
    case Matched =>
      && Best(us, s, at) && at[0] == loc1 && at[|us|] == loc2 && Leftmost(us, s, anchored, loc1)
      && CapturesAre(us, at, c.starts, c.ends)
    case Failed => forall i :: 0 <= i <= |s| && (anchored ==> i == 0) ==> Silent(us, s, i)
    case Diverges => Stalls(us, s, at) && Leftmost(us, s, anchored, at[0])
  }

  lemma {:induction false} LeftmostIsFirst(us: seq<Unit>, e: Env, anchored: bool, i: int)
    requires Setting(us, e) && FirstStart(e, anchored, i)
    ensures Leftmost(us, e.s, anchored, i)
  {
    hide Setting, Silent, Derives, LeadsToStuck;
    forall j | 0 <= j < i ensures Silent(us, e.s, j) {
      assert Quiet(e, j);
      SilentIff(us, e, j, NoCaps());
    }
  }

  /** A report about the program is a report about the pattern. */
  lemma {:induction false} ReportsSay(a: Answer, us: seq<Unit>, p: seq<Item>, s: seq<byte>, anchored: bool,
                                      loc1: int, loc2: int, c: Caps, ks: seq<nat>)
    returns (at: seq<nat>)
    requires BecomeAll(us, p) && Runnable(p) && NulFree(s) && Reports(a, p, s, anchored, loc1, loc2, c, ks)
    ensures Says(a, us, s, anchored, loc1, loc2, c, at)
  {
    hide BecomeAll, Runnable, NulFree, Best, Stalls, Silent, Leftmost, Quiet, Derives, Exec, Trace,
         Greedy, LeadsToStuck, Before, Similar, CapturesAre, Tracks, Walks, Match, EndCaps, StuckFirst;
    var e := Env(p, s, -1);
    assert Setting(us, e);
    at := [0];
    match a
    case Matched =>
      LeftmostIsFirst(us, e, anchored, loc1);
      FindsDerives(e, loc1, ks);
      at := Trace(e, 0, loc1, NoCaps(), ks);
      DerivesMatch(us, e, loc1, NoCaps(), ks);
      GreedyIsBest(us, e, loc1, NoCaps(), ks);
      TracksCaptures(us, p, at, EndCaps(e, 0, loc1, NoCaps(), ks), c);
    case Failed =>
      forall i | 0 <= i <= |s| && (anchored ==> i == 0) ensures Silent(us, s, i) {
        QuietIs(e, i);
        SilentIff(us, e, i, NoCaps());
      }
    case Diverges =>
      var i :| FirstStart(e, anchored, i) && StuckFirst(e, 0, i, NoCaps(), ks);
      LeftmostIsFirst(us, e, anchored, i);
      at := Trace(e, 0, i, NoCaps(), ks);
      StuckFirstStalls(us, e, i, NoCaps(), ks);
  }

  lemma {:induction false} QuietIs(e: Env, i: nat)
    requires Quiet(e, i)
    ensures NoWay(e, i, NoCaps())
  {
  }

  lemma {:induction false} RunnableDecodes(p: seq<Item>)
    requires Runnable(p)
    ensures DecodableAll(p) && Decode(Code(p)) == Some(NormalAll(p, 0)) && IsNormal(p, NormalAll(p, 0))
  {
    hide Decode, Code, NormalAll, DecodableAll, IsNormal;
    ShapedDecodable(p);
    DecodeIff(p);
    NormalAllIs(p);
  }

  lemma {:induction false} DenotesUnits(pat: seq<byte>, eof: byte, sed: bool, start: nat, toks: seq<Token>)
    requires Denotes(pat, eof, sed, start, toks)
    ensures BecomeAll(UnitsOf(toks), Items(toks))
  {
    hide Spells, Lawful, UnitsOf, BecomeAll, Items;
    SpellsLawful(pat, eof, start, toks);
    UnitsBecomeItems(toks);
  }

  /** The pattern consists of these tokens, behind a circumflex when it is anchored. */
  ghost predicate PatternIs(pat: seq<byte>, eof: byte, sed: bool, anchored: bool, toks: seq<Token>) {
    && (anchored <==> Peek(pat, 0) == CARET)
    && Denotes(pat, eof, sed, if anchored then 1 else 0, toks)
  }

  /** Compile a pattern and look for it in a text. For a pattern that `toks` spells, in the fragment, with room for
      its program: nothing outside the buffer is written, the code reads back to the pattern's items, and the answer
      is what those items report on the text, which is what the pattern's units say. */
  method CompileAndStep(re: Regexp, pat: seq<byte>, eof: byte, buf: array<byte>, base: nat, endbuf: nat, s: seq<byte>,
                        ghost anchored: bool, ghost toks: seq<Token>, ghost us: seq<Unit>)
    returns (a: Answer, ghost ks: seq<nat>, ghost at: seq<nat>)
    requires re.Valid() && re.locs == -1 && NulFree(pat) && NulFree(s) && base <= endbuf <= buf.Length
    requires Peek(pat, 0) !in {eof, NEWLINE} && PatternIs(pat, eof, re.sed, anchored, toks)
    requires InFragment(toks) && Divides(us, toks)
    requires |Code(Items(toks))| <= endbuf - base
    modifies re, buf, re.braslist, re.braelist
    ensures OnlyWithin(buf, base, endbuf)
    ensures Decode(buf[base..base + |Code(Items(toks))|]) == Some(NormalAll(Items(toks), 0))
    ensures Reports(a, Items(toks), s, anchored, re.loc1, re.loc2, re.Captures(), ks)
    ensures Reports(a, NormalAll(Items(toks), 0), s, anchored, re.loc1, re.loc2, re.Captures(), ks)
    ensures Says(a, us, s, anchored, re.loc1, re.loc2, re.Captures(), at)
  {
    hide Parse, Denotes, InFragment, Items, Code, TextOf, Opens, Closes, Brackets, Reports, Runnable, Placed, ItemsCode,
         Spilled, ClassRoom, Decode, NormalAll, IsNormal, DecodableAll, Says, BecomeAll, UnitsOf,
         Divides;
    ghost var start := if anchored then 1 else 0;
    ParseIff(pat, eof, re.sed, start, toks);
    DenotesRunnable(pat, eof, re.sed, start, toks);
    DenotesUnits(pat, eof, re.sed, start, toks);
    OneDivision(us, toks);
    FitsInside(pat, eof, re.sed, start, [], endbuf - base);
    var _, _ := re.Compile(pat, buf, base, endbuf, eof);
    CodePlaced(buf[..], base, Items(toks));
    RunnableDecodes(Items(toks));
    a, ks := StepAndReport(re, s, buf[..], base, Items(toks));
    NormalReports(a, Items(toks), NormalAll(Items(toks), 0), s, anchored, re.loc1, re.loc2, re.Captures(), ks);
    at := ReportsSay(a, us, Items(toks), s, anchored, re.loc1, re.loc2, re.Captures(), ks);
  }
}
