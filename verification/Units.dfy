/**
 The units of an accepted pattern, and the items they become.
 */
module Units {
  import opened Bytes
  import opened Program
  import opened Pattern
  import opened Fragment
  import opened Meaning

  function UnitsOf(toks: seq<Token>): seq<Unit> {
    if toks == [] then []
    else
      var us, tok := UnitsOf(toks[..|toks| - 1]), toks[|toks| - 1];
      if !IsModifier(tok) then us + [Unit(tok, [])]
      else if us == [] then []
      else us[..|us| - 1] + [Unit(us[|us| - 1].tok, us[|us| - 1].mods + [tok])]
  }

  lemma {:induction false} UnitsStep(toks: seq<Token>, tok: Token)
    ensures var us := UnitsOf(toks);
      UnitsOf(toks + [tok]) ==
        if !IsModifier(tok) then us + [Unit(tok, [])]
        else if us == [] then []
        else us[..|us| - 1] + [Unit(us[|us| - 1].tok, us[|us| - 1].mods + [tok])]
  {
    assert (toks + [tok])[..|toks|] == toks;
  }

  lemma {:induction false} FlattenMore(us: seq<Unit>, u: Unit)
    ensures Flatten(us + [u]) == Flatten(us) + [u.tok] + u.mods
  {
    assert (us + [u])[..|us|] == us;
  }

  lemma {:induction false} DividesFront(us: seq<Unit>, toks: seq<Token>)
    requires Divides(us, toks) && us != [] && us[|us| - 1].mods == []
    ensures var front := us[..|us| - 1];
      toks == Flatten(front) + [us[|us| - 1].tok] && !IsModifier(us[|us| - 1].tok) && Divides(front, Flatten(front))
  {
    var front, u := us[..|us| - 1], us[|us| - 1];
    assert us == front + [u];
    FlattenMore(front, u);
  }

  lemma {:induction false} DividesShorter(us: seq<Unit>, toks: seq<Token>)
    requires Divides(us, toks) && us != [] && us[|us| - 1].mods != []
    ensures var u := us[|us| - 1];
      var vs, tok := us[..|us| - 1] + [Unit(u.tok, u.mods[..|u.mods| - 1])], u.mods[|u.mods| - 1];
      toks == Flatten(vs) + [tok] && IsModifier(tok) && Divides(vs, Flatten(vs))
  {
    hide Flatten;
    var front, u := us[..|us| - 1], us[|us| - 1];
    var v, tok := Unit(u.tok, u.mods[..|u.mods| - 1]), u.mods[|u.mods| - 1];
    assert us == front + [u];
    FlattenMore(front, u);
    FlattenMore(front, v);
    assert u.mods == v.mods + [tok];
    assert toks == Flatten(front + [v]) + [tok];
    forall n, m | 0 <= n < |us| && 0 <= m < |(front + [v])[n].mods| ensures IsModifier((front + [v])[n].mods[m]) {
      assert IsModifier(us[n].mods[m]);
    }
  }

  /** There is exactly one way to divide the tokens. */
  lemma {:induction false} OneDivision(us: seq<Unit>, toks: seq<Token>)
    requires Divides(us, toks)
    ensures us == UnitsOf(toks)
    decreases |toks|
  {
    hide Divides, UnitsOf, Flatten;
    Empty();
    if us != [] {
      var front, u := us[..|us| - 1], us[|us| - 1];
      if u.mods == [] {
        DividesFront(us, toks);
        OneDivision(front, Flatten(front));
        UnitsStep(Flatten(front), u.tok);
      } else {
        var v, tok := Unit(u.tok, u.mods[..|u.mods| - 1]), u.mods[|u.mods| - 1];
        DividesShorter(us, toks);
        OneDivision(front + [v], Flatten(front + [v]));
        UnitsStep(Flatten(front + [v]), tok);
        assert v.mods + [tok] == u.mods && (front + [v])[..|front|] == front;
      }
    } else {
      NoToken(toks);
    }
  }

  lemma {:induction false} NoToken(toks: seq<Token>)
    requires Divides([], toks)
    ensures toks == []
  {
  }

  lemma {:induction false} DividesMore(us: seq<Unit>, toks: seq<Token>, tok: Token)
    requires Divides(us, toks) && (IsModifier(tok) ==> us != [])
    ensures !IsModifier(tok) ==> Divides(us + [Unit(tok, [])], toks + [tok])
    ensures IsModifier(tok) ==>
      Divides(us[..|us| - 1] + [Unit(us[|us| - 1].tok, us[|us| - 1].mods + [tok])], toks + [tok])
  {
    if IsModifier(tok) {
      var front, u := us[..|us| - 1], us[|us| - 1];
      var v := Unit(u.tok, u.mods + [tok]);
      assert us == front + [u];
      FlattenMore(front, u);
      FlattenMore(front, v);
      assert Flatten(front + [v]) == toks + [tok];
      forall n, m | 0 <= n < |us| && 0 <= m < |(front + [v])[n].mods| ensures IsModifier((front + [v])[n].mods[m]) {
        if n < |front| || m < |u.mods| { assert IsModifier(us[n].mods[m]); }
      }
    } else {
      FlattenMore(us, Unit(tok, []));
    }
  }

  lemma {:induction false} LawfulDivides(toks: seq<Token>)
    requires Lawful(toks)
    ensures Divides(UnitsOf(toks), toks) && |UnitsOf(toks)| == |Items(toks)|
  {
    hide Items, UnitsOf, Divides, LegalBody, LegalInterval, StarIsLiteral, Stack, Opens, Closes;
    Empty();
    if toks != [] {
      var before, tok := toks[..|toks| - 1], toks[|toks| - 1];
      assert toks == before + [tok];
      LawfulDivides(before);
      ItemsStep(before, tok);
      UnitsStep(before, tok);
      DividesMore(UnitsOf(before), before, tok);
    }
  }

  lemma {:induction false} Empty()
    ensures UnitsOf([]) == [] && Items([]) == [] && Divides([], []) && StackIs([], []) && BecomeAll([], [])
    ensures Stack([]) == [] && Opens([]) == 0
  {
  }

  // ----- brackets -----

  /** The counts see only the tokens in front. */
  lemma {:induction false} PrefixCounts(us: seq<Unit>, vs: seq<Unit>, n: nat)
    requires n <= |us| && n <= |vs| && forall m :: 0 <= m < n ==> us[m].tok == vs[m].tok
    ensures Opened(us, n) == Opened(vs, n) && Depth(us, n) == Depth(vs, n)
  {
    if n != 0 { PrefixCounts(us, vs, n - 1); }
  }

  /** So a group stays one when units follow, or units get more modifiers. */
  lemma {:induction false} SameGroup(us: seq<Unit>, vs: seq<Unit>, g: nat, o: nat, d: nat)
    requires |us| <= |vs| && (forall m :: 0 <= m < |us| ==> us[m].tok == vs[m].tok) && d < |us|
    ensures IsGroup(us, g, o, d) <==> IsGroup(vs, g, o, d)
  {
    forall m | 0 <= m <= |us| ensures Opened(us, m) == Opened(vs, m) && Depth(us, m) == Depth(vs, m) {
      PrefixCounts(us, vs, m);
    }
  }

  /** Group `g` is open behind the units, at nesting depth `x`. */
  ghost predicate OpenAt(us: seq<Unit>, g: nat, x: nat) {
    exists o ::
      && 0 <= o < |us| && us[o].tok.GroupOpen? && Opened(us, o) == g && Depth(us, o) == x
      && forall m :: o < m <= |us| ==> Depth(us, m) > x
  }

  /** The bracket stack: the open groups, innermost last. */
  ghost predicate StackIs(us: seq<Unit>, st: seq<byte>) {
    |st| == Depth(us, |us|) && forall x :: 0 <= x < |st| ==> OpenAt(us, st[x], x)
  }

  lemma {:induction false} OpenAtMore(us: seq<Unit>, u: Unit, g: nat, x: nat)
    requires OpenAt(us, g, x) && Depth(us + [u], |us| + 1) > x
    ensures OpenAt(us + [u], g, x)
  {
    var vs := us + [u];
    var o :| && 0 <= o < |us| && us[o].tok.GroupOpen? && Opened(us, o) == g && Depth(us, o) == x
             && forall m :: o < m <= |us| ==> Depth(us, m) > x;
    PrefixCounts(us, vs, o);
    forall m | o < m <= |vs| ensures Depth(vs, m) > x {
      if m <= |us| { PrefixCounts(us, vs, m); }
    }
    assert vs[o].tok.GroupOpen?;
  }

  lemma {:induction false} StackMore(us: seq<Unit>, st: seq<byte>, tok: Token)
    requires StackIs(us, st) && Opened(us, |us|) <= 255
    ensures var vs := us + [Unit(tok, [])];
      && (tok.GroupOpen? ==> StackIs(vs, st + [Opened(us, |us|)]))
      && (tok.GroupClose? && st != [] ==> StackIs(vs, st[..|st| - 1]))
      && (!tok.GroupOpen? && !tok.GroupClose? ==> StackIs(vs, st))
  {
    hide OpenAt;
    var u := Unit(tok, []);
    var vs := us + [u];
    PrefixCounts(us, vs, |us|);
    var n := Depth(vs, |vs|);
    forall x | 0 <= x < |st| && x < n ensures OpenAt(vs, st[x], x) {
      OpenAtMore(us, u, st[x], x);
    }
    if tok.GroupOpen? { NewlyOpen(us, u); }
  }

  lemma {:induction false} NewlyOpen(us: seq<Unit>, u: Unit)
    requires u.tok.GroupOpen? && Depth(us, |us|) >= 0
    ensures OpenAt(us + [u], Opened(us, |us|), Depth(us, |us|))
  {
    var vs := us + [u];
    PrefixCounts(us, vs, |us|);
    assert vs[|us|].tok.GroupOpen?;
  }

  /** The innermost open group is the one that the next closing bracket ends. */
  lemma {:induction false} ClosesTop(us: seq<Unit>, st: seq<byte>, u: Unit) returns (o: nat)
    requires StackIs(us, st) && st != [] && u.tok.GroupClose?
    ensures IsGroup(us + [u], st[|st| - 1], o, |us|)
  {
    var vs, x := us + [u], |st| - 1;
    assert OpenAt(us, st[x], x);
    o :| && 0 <= o < |us| && us[o].tok.GroupOpen? && Opened(us, o) == st[x] && Depth(us, o) == x
         && forall m :: o < m <= |us| ==> Depth(us, m) > x;
    forall m | 0 <= m <= |us| ensures Opened(us, m) == Opened(vs, m) && Depth(us, m) == Depth(vs, m) {
      PrefixCounts(us, vs, m);
    }
  }

  // ----- what each unit becomes -----

  ghost function RangesOf(mods: seq<Token>): seq<Range> {
    if mods == [] then []
    else
      var m := mods[|mods| - 1];
      RangesOf(mods[..|mods| - 1]) + if m.Interval? then [RangeOf(m.lo, m.hi)] else []
  }

  ghost predicate LegalMods(mods: seq<Token>) {
    forall m :: 0 <= m < |mods| ==> IsModifier(mods[m]) && (mods[m].Interval? ==> LegalInterval(mods[m].lo, mods[m].hi))
  }

  ghost predicate BaseIs(us: seq<Unit>, n: nat, b: Base)
    requires n < |us|
  {
    match us[n].tok
    case Literal(c) => b == One(Chr(c))
    case Quoted(c) => b == One(Chr(if c == LETTER_N then NEWLINE else c))
    case AnyChar => b == One(Any)
    case Bracket(neg, body, dash) => b == One(Set(neg, Denoted(body, dash))) && LegalBody(neg, body)
    case GroupOpen => b.Open? && b.g == Opened(us, n)
    case GroupClose => b.Close? && exists o: nat :: IsGroup(us, b.g, o, n)
    case BackRef(g) => b == Back(g)
    case EndAnchor => b == Dol
    case _ => false
  }

  /** Unit `n` has become item `x`. */
  ghost predicate Becomes(us: seq<Unit>, n: nat, x: Item)
    requires n < |us|
  {
    && BaseIs(us, n, x.base) && LegalMods(us[n].mods)
    && x.star == (Asterisk in us[n].mods) && x.ranges == RangesOf(us[n].mods)
  }

  ghost predicate BecomeAll(us: seq<Unit>, p: seq<Item>) {
    |us| == |p| && forall n :: 0 <= n < |us| ==> Becomes(us, n, p[n])
  }

  lemma {:induction false} BaseStays(us: seq<Unit>, vs: seq<Unit>, n: nat, b: Base)
    requires n < |us| <= |vs| && (forall m :: 0 <= m < |us| ==> us[m].tok == vs[m].tok) && BaseIs(us, n, b)
    ensures BaseIs(vs, n, b)
  {
    hide IsGroup, LegalBody, Denoted;
    PrefixCounts(us, vs, n);
    if us[n].tok.GroupClose? {
      var o: nat :| IsGroup(us, b.g, o, n);
      SameGroup(us, vs, b.g, o, n);
    }
  }

  lemma {:induction false} NewBase(toks: seq<Token>, us: seq<Unit>, tok: Token)
    requires LawfulNext(toks, tok) && !IsModifier(tok)
    requires StackIs(us, Stack(toks)) && Opened(us, |us|) == Opens(toks)
    ensures BaseIs(us + [Unit(tok, [])], |us|, BaseOf(toks, tok))
  {
    hide StackIs, IsGroup, LegalBody, Denoted, Stack, Opens, Closes, Items, StarIsLiteral;
    var vs := us + [Unit(tok, [])];
    PrefixCounts(us, vs, |us|);
    if tok.GroupClose? {
      var o := ClosesTop(us, Stack(toks), Unit(tok, []));
    }
  }

  lemma {:induction false} MoreMods(mods: seq<Token>, tok: Token, x: Item)
    requires IsModifier(tok) && (tok.Interval? ==> LegalInterval(tok.lo, tok.hi))
    requires LegalMods(mods) && x.star == (Asterisk in mods) && x.ranges == RangesOf(mods)
    ensures LegalMods(mods + [tok])
    ensures Modified(x, tok).star == (Asterisk in mods + [tok]) && Modified(x, tok).ranges == RangesOf(mods + [tok])
  {
    hide LegalInterval, RangeOf;
    assert (mods + [tok])[..|mods|] == mods;
    assert x.ranges + [] == x.ranges;
  }

  lemma {:induction false} AddUnit(toks: seq<Token>, us: seq<Unit>, tok: Token)
    requires LawfulNext(toks, tok) && !IsModifier(tok) && BecomeAll(us, Items(toks))
    requires StackIs(us, Stack(toks)) && Opened(us, |us|) == Opens(toks)
    ensures BecomeAll(us + [Unit(tok, [])], Items(toks + [tok]))
  {
    hide Items, Stack, Opens, Closes, StackIs, BaseIs, LawfulNext, BaseOf, LegalMods;
    var vs := us + [Unit(tok, [])];
    ItemsStep(toks, tok);
    NewBase(toks, us, tok);
    assert LegalMods([]) by { NoMods(); }
    assert RangesOf([]) == [];
    forall n | 0 <= n < |vs| ensures Becomes(vs, n, Items(toks + [tok])[n]) {
      if n < |us| {
        assert Becomes(us, n, Items(toks)[n]);
        BaseStays(us, vs, n, Items(toks)[n].base);
      }
    }
  }

  lemma {:induction false} NoMods()
    ensures LegalMods([])
  {
  }

  lemma {:induction false} LegalModifier(toks: seq<Token>, tok: Token)
    requires LawfulNext(toks, tok)
    ensures tok.Interval? ==> LegalInterval(tok.lo, tok.hi)
  {
    hide Items, LegalInterval, LegalBody, StarIsLiteral, Stack, Opens, Closes;
  }

  lemma {:induction false} ModifyUnit(toks: seq<Token>, us: seq<Unit>, tok: Token)
    requires LawfulNext(toks, tok) && IsModifier(tok) && BecomeAll(us, Items(toks)) && us != []
    ensures BecomeAll(us[..|us| - 1] + [Unit(us[|us| - 1].tok, us[|us| - 1].mods + [tok])], Items(toks + [tok]))
  {
    hide Items, BaseIs, LegalMods, LegalInterval, LawfulNext, Modified, RangesOf;
    LegalModifier(toks, tok);
    var u := us[|us| - 1];
    var vs := us[..|us| - 1] + [Unit(u.tok, u.mods + [tok])];
    ItemsStep(toks, tok);
    var xs, ys := Items(toks), Items(toks + [tok]);
    assert Becomes(us, |us| - 1, xs[|us| - 1]);
    MoreMods(u.mods, tok, xs[|us| - 1]);
    forall n | 0 <= n < |vs| ensures Becomes(vs, n, ys[n]) {
      assert Becomes(us, n, xs[n]);
      BaseStays(us, vs, n, xs[n].base);
    }
  }

  lemma {:induction false} StackSame(us: seq<Unit>, vs: seq<Unit>, st: seq<byte>)
    requires |us| == |vs| && (forall m :: 0 <= m < |us| ==> us[m].tok == vs[m].tok) && StackIs(us, st)
    ensures StackIs(vs, st) && Opened(vs, |vs|) == Opened(us, |us|)
  {
    forall m | 0 <= m <= |us| ensures Opened(us, m) == Opened(vs, m) && Depth(us, m) == Depth(vs, m) {
      PrefixCounts(us, vs, m);
    }
    forall x | 0 <= x < |st| ensures OpenAt(vs, st[x], x) {
      assert OpenAt(us, st[x], x);
      var o :| && 0 <= o < |us| && us[o].tok.GroupOpen? && Opened(us, o) == st[x] && Depth(us, o) == x
               && forall m :: o < m <= |us| ==> Depth(us, m) > x;
      assert vs[o].tok.GroupOpen?;
    }
  }

  lemma {:induction false} NoneOpened()
    ensures Opened([], 0) == 0
  {
  }

  lemma {:induction false} OpenedStep(us: seq<Unit>, u: Unit)
    ensures Opened(us + [u], |us| + 1) == Opened(us, |us|) + if u.tok.GroupOpen? then 1 else 0
  {
    PrefixCounts(us, us + [u], |us|);
  }

  /** The units of an accepted pattern become its items, one by one. */
  lemma {:induction false} UnitsBecomeItems(toks: seq<Token>)
    requires Lawful(toks)
    ensures BecomeAll(UnitsOf(toks), Items(toks))
    ensures StackIs(UnitsOf(toks), Stack(toks)) && Opened(UnitsOf(toks), |UnitsOf(toks)|) == Opens(toks) <= NBRA
  {
    hide Items, Stack, Opens, Closes, StackIs, BecomeAll, UnitsOf, Divides, LegalBody, LegalInterval, StarIsLiteral,
         Opened;
    Empty();
    NoneOpened();
    if toks != [] {
      var before, tok := toks[..|toks| - 1], toks[|toks| - 1];
      assert toks == before + [tok];
      UnitsBecomeItems(before);
      UnitsStep(before, tok);
      GroupsStep(before, tok);
      var us := UnitsOf(before);
      if IsModifier(tok) {
        LawfulDivides(before);
        ItemsStep(before, tok);
        ModifyUnit(before, us, tok);
        StackSame(us, UnitsOf(toks), Stack(before));
      } else {
        AddUnit(before, us, tok);
        OpenedStep(us, Unit(tok, []));
        StackMore(us, Stack(before), tok);
      }
    }
  }
}
