/**
 What every accepted pattern guarantees about its program, and which accepted patterns
 yield a program that the matcher can run.
 */
module Fragment {
  import opened Bytes
  import opened Program
  import opened Pattern
  import opened Grammar
  import opened Divergence

  // ----- what reading a token checks, apart from its spelling -----

  ghost predicate LawfulNext(before: seq<Token>, tok: Token) {
    && (before != [] ==> !before[|before| - 1].EndAnchor?)
    && match tok
       case Literal(c) => c != 0
       case Bracket(neg, body, _) => LegalBody(neg, body)
       case GroupOpen => Opens(before) < NBRA
       case GroupClose => Stack(before) != []
       case BackRef(g) => g < NBRA && g < Closes(before)
       case Asterisk => !StarIsLiteral(before)
       case Interval(lo, hi) => Items(before) != [] && LegalInterval(lo, hi)
       case _ => true
  }

  ghost predicate Lawful(toks: seq<Token>) {
    toks == [] || (Lawful(toks[..|toks| - 1]) && LawfulNext(toks[..|toks| - 1], toks[|toks| - 1]))
  }

  lemma {:induction false} NoTokenAtEnd(pat: seq<byte>, eof: byte, pos: nat, before: seq<Token>, tok: Token)
    requires IsToken(pat, eof, pos, before, tok)
    ensures Peek(pat, pos) != eof && Peek(pat, pos) != NEWLINE
  {
    hide Reads, Items, Stack, Opens, Closes, StarIsLiteral, LegalBody, LegalInterval;
    ReadsFirst(pat, pos, Text(tok));
  }

  lemma {:induction false} AnchorAtEnd(pat: seq<byte>, eof: byte, start: nat, toks: seq<Token>)
    requires Spells(pat, eof, start, toks) && toks != [] && toks[|toks| - 1].EndAnchor?
    ensures Peek(pat, start + |TextOf(toks)|) == eof || Peek(pat, start + |TextOf(toks)|) == NEWLINE
  {
    hide Reads, Items;
  }

  lemma {:induction false} LegalIsLawful(before: seq<Token>, tok: Token, next: byte, eof: byte)
    requires Legal(before, tok, next, eof) && (before != [] ==> !before[|before| - 1].EndAnchor?)
    ensures LawfulNext(before, tok)
  {
    hide Items, Stack, Opens, Closes, StarIsLiteral, LegalBody, LegalInterval, Text;
  }

  /** A token that has been read obeys these rules; in particular nothing follows an end anchor. */
  lemma {:induction false} SpellsLawful(pat: seq<byte>, eof: byte, start: nat, toks: seq<Token>)
    requires Spells(pat, eof, start, toks)
    ensures Lawful(toks)
  {
    hide LawfulNext, Legal, Text, TextOf;
    if toks != [] {
      var before, tok := toks[..|toks| - 1], toks[|toks| - 1];
      SpellsLawful(pat, eof, start, before);
      NoTokenAtEnd(pat, eof, start + |TextOf(before)|, before, tok);
      if before != [] && before[|before| - 1].EndAnchor? {
        AnchorAtEnd(pat, eof, start, before);
        assert false;
      }
      LegalIsLawful(before, tok, Peek(pat, start + |TextOf(before)| + |Text(tok)|), eof);
    }
  }

  // ----- items and groups -----

  /** The item list changes by one new item, or by a modification of the last one that keeps its base. */
  lemma {:induction false} ItemsStep(before: seq<Token>, tok: Token)
    requires LawfulNext(before, tok)
    ensures !IsModifier(tok) ==> Items(before + [tok]) == Items(before) + [Item(BaseOf(before, tok), false, [])]
    ensures IsModifier(tok) ==>
      var xs, ys := Items(before), Items(before + [tok]);
      && xs != [] && |ys| == |xs|
      && ys[|ys| - 1] == Modified(xs[|xs| - 1], tok) && ys[|ys| - 1].base == xs[|xs| - 1].base
      && forall t :: 0 <= t < |xs| - 1 ==> ys[t] == xs[t]
  {
    assert (before + [tok])[..|before|] == before;
  }

  ghost function OpensIn(p: seq<Item>, t: nat): nat
    requires t <= |p|
  {
    if t == 0 then 0 else OpensIn(p, t - 1) + if p[t - 1].base.Open? then 1 else 0
  }

  /** The group opened last among those still open is the one that is closed. */
  ghost predicate ClosesInnermost(p: seq<Item>, t: nat)
    requires t < |p| && p[t].base.Close?
  {
    exists o :: 0 <= o < t && p[o].base == Open(p[t].base.g) && AllClosed(p, o + 1, t)
  }

  /** Groups opened at `o` or later are closed before `t`. */
  ghost predicate AllClosed(p: seq<Item>, o: nat, t: nat) {
    forall x :: o <= x < t && x < |p| && p[x].base.Open? ==> ClosedBefore(p, t, p[x].base.g)
  }

  /** Groups are numbered in the order of their opening brackets, and brackets match. */
  ghost predicate MarkOk(p: seq<Item>, t: nat)
    requires t < |p|
  {
    match p[t].base
    case Open(g) => g == OpensIn(p, t) < NBRA && GroupedAt(p, t)
    case Close(g) => g < NBRA && GroupedAt(p, t) && ClosesInnermost(p, t)
    case _ => true
  }

  /** The brackets of the items, against the counters `n` (opened) and `m` (closed) and the stack. */
  ghost predicate Brackets(p: seq<Item>, st: seq<byte>, n: nat, m: nat) {
    && OpensIn(p, |p|) == n <= NBRA && |st| + m == n
    && (forall t :: 0 <= t < |p| ==> MarkOk(p, t))
    && (forall x :: 0 <= x < |st| ==> st[x] < n && OpenedBefore(p, |p|, st[x]) && !ClosedBefore(p, |p|, st[x]))
    && (forall x, y :: 0 <= x < y < |st| ==> st[x] < st[y])
    && (forall g: byte :: ClosedBefore(p, |p|, g) || OpenedBefore(p, |p|, g) ==> g < n)
    && (forall g: byte :: g < n ==> g in st || ClosedBefore(p, |p|, g))
  }

  lemma {:induction false} OpenedMore(p: seq<Item>, x: Item, t: nat, g: byte)
    requires t <= |p|
    ensures OpenedBefore(p + [x], t, g) <==> OpenedBefore(p, t, g)
    ensures ClosedBefore(p + [x], t, g) <==> ClosedBefore(p, t, g)
    ensures OpenedBefore(p + [x], |p| + 1, g) <==> OpenedBefore(p, |p|, g) || x.base == Open(g)
    ensures ClosedBefore(p + [x], |p| + 1, g) <==> ClosedBefore(p, |p|, g) || x.base == Close(g)
  {
    var q := p + [x];
    assert forall y :: 0 <= y < |p| ==> q[y] == p[y];
    assert q[|p|] == x;
  }

  lemma {:induction false} OpensInMore(p: seq<Item>, x: Item, t: nat)
    requires t <= |p|
    ensures OpensIn(p + [x], t) == OpensIn(p, t)
  {
    if t != 0 { OpensInMore(p, x, t - 1); }
  }

  /** What was in order stays in order when the new item opens or closes another group. */
  lemma {:induction false} MarkMore(p: seq<Item>, x: Item, t: nat)
    requires t < |p| && MarkOk(p, t)
    requires p[t].base.Open? ==> x.base != p[t].base
    requires p[t].base.Close? ==> x.base != p[t].base
    ensures MarkOk(p + [x], t)
  {
    var q := p + [x];
    OpensInMore(p, x, t);
    if p[t].base.Open? || p[t].base.Close? {
      OpenedMore(p, x, t, p[t].base.g);
    }
    if p[t].base.Close? {
      var o :| 0 <= o < t && p[o].base == Open(p[t].base.g) && AllClosed(p, o + 1, t);
      forall y | o + 1 <= y < t && y < |q| && q[y].base.Open? ensures ClosedBefore(q, t, q[y].base.g) {
        OpenedMore(p, x, t, p[y].base.g);
      }
      assert q[o].base == Open(q[t].base.g) && AllClosed(q, o + 1, t);
    }
  }

  /** Opening numbers grow along the program. */
  lemma {:induction false} OpensInMono(p: seq<Item>, t: nat, u: nat)
    requires t <= u <= |p|
    ensures OpensIn(p, t) <= OpensIn(p, u)
    ensures t < u && p[t].base.Open? ==> OpensIn(p, t) < OpensIn(p, u)
  {
    if t < u { OpensInMono(p, t, u - 1); }
  }

  lemma {:induction false} BracketsOther(p: seq<Item>, st: seq<byte>, n: nat, m: nat, x: Item)
    requires Brackets(p, st, n, m) && !x.base.Open? && !x.base.Close?
    ensures Brackets(p + [x], st, n, m)
  {
    var q := p + [x];
    hide MarkOk, OpenedBefore, ClosedBefore;
    OpensInMore(p, x, |p|);
    assert OpensIn(q, |q|) == OpensIn(q, |p|);
    forall t | 0 <= t < |q| ensures MarkOk(q, t) {
      if t < |p| { MarkMore(p, x, t); } else { MarkNone(q, t); }
    }
    forall g: byte
      ensures OpenedBefore(q, |q|, g) <==> OpenedBefore(p, |p|, g)
      ensures ClosedBefore(q, |q|, g) <==> ClosedBefore(p, |p|, g)
    {
      OpenedMore(p, x, 0, g);
    }
  }

  lemma {:induction false} MarkNone(p: seq<Item>, t: nat)
    requires t < |p| && !p[t].base.Open? && !p[t].base.Close?
    ensures MarkOk(p, t)
  {
  }

  lemma {:induction false} BracketsOpen(p: seq<Item>, st: seq<byte>, n: nat, m: nat, x: Item)
    requires Brackets(p, st, n, m) && n < NBRA && x.base == Open(n)
    ensures Brackets(p + [x], st + [n], n + 1, m)
  {
    var q := p + [x];
    OpensInMore(p, x, |p|);
    assert OpensIn(q, |q|) == OpensIn(q, |p|) + 1;
    forall t | 0 <= t < |q| ensures MarkOk(q, t) {
      if t < |p| {
        if p[t].base.Open? { OpensInMono(p, t, |p|); }
        MarkMore(p, x, t);
      } else {
        OpenedMore(p, x, |p|, n);
        assert GroupedAt(q, t);
      }
    }
    hide MarkOk, OpenedBefore, ClosedBefore;
    forall g: byte
      ensures OpenedBefore(q, |q|, g) <==> OpenedBefore(p, |p|, g) || g == n
      ensures ClosedBefore(q, |q|, g) <==> ClosedBefore(p, |p|, g)
    {
      OpenedMore(p, x, 0, g);
    }
  }

  lemma {:induction false} BracketsClose(p: seq<Item>, st: seq<byte>, n: nat, m: nat, x: Item)
    requires Brackets(p, st, n, m) && st != [] && x.base == Close(st[|st| - 1])
    ensures Brackets(p + [x], st[..|st| - 1], n, m + 1)
  {
    var q, top := p + [x], st[|st| - 1];
    OpensInMore(p, x, |p|);
    assert OpensIn(q, |q|) == OpensIn(q, |p|);
    forall t | 0 <= t < |q| ensures MarkOk(q, t) {
      if t < |p| {
        assert !ClosedBefore(p, |p|, top);
        MarkMore(p, x, t);
      } else {
        CloseInnermost(p, st, n, m, x);
      }
    }
    hide MarkOk, OpenedBefore, ClosedBefore;
    forall g: byte
      ensures OpenedBefore(q, |q|, g) <==> OpenedBefore(p, |p|, g)
      ensures ClosedBefore(q, |q|, g) <==> ClosedBefore(p, |p|, g) || g == top
    {
      OpenedMore(p, x, 0, g);
    }
  }

  lemma {:induction false} CloseInnermost(p: seq<Item>, st: seq<byte>, n: nat, m: nat, x: Item)
    requires Brackets(p, st, n, m) && st != [] && x.base == Close(st[|st| - 1])
    ensures MarkOk(p + [x], |p|)
  {
    var q, top := p + [x], st[|st| - 1];
    OpenedMore(p, x, |p|, top);
    var o :| 0 <= o < |p| && p[o].base == Open(top);
    assert MarkOk(p, o);
    forall y | o + 1 <= y < |p| && q[y].base.Open? ensures ClosedBefore(q, |p|, q[y].base.g) {
      assert MarkOk(p, y);
      OpensInMono(p, o, y);
      assert OpenedBefore(p, |p|, p[y].base.g);
      OpenedMore(p, x, |p|, p[y].base.g);
    }
    assert q[o].base == Open(q[|p|].base.g) && AllClosed(q, o + 1, |p|);
  }

  // ----- modifiers leave the bases alone -----

  ghost predicate SameBases(p: seq<Item>, q: seq<Item>) {
    |p| == |q| && forall t :: 0 <= t < |p| ==> p[t].base == q[t].base
  }

  lemma {:induction false} SameBefore(p: seq<Item>, q: seq<Item>, t: nat, g: byte)
    requires SameBases(p, q)
    ensures OpenedBefore(p, t, g) <==> OpenedBefore(q, t, g)
    ensures ClosedBefore(p, t, g) <==> ClosedBefore(q, t, g)
    ensures NoOpen(p, t, g) <==> NoOpen(q, t, g)
    ensures NoClose(p, t, g) <==> NoClose(q, t, g)
  {
  }

  lemma {:induction false} SameOpensIn(p: seq<Item>, q: seq<Item>, t: nat)
    requires SameBases(p, q) && t <= |p|
    ensures OpensIn(p, t) == OpensIn(q, t)
  {
    if t != 0 { SameOpensIn(p, q, t - 1); }
  }

  lemma {:induction false} MarkSame(p: seq<Item>, q: seq<Item>, t: nat)
    requires SameBases(p, q) && t < |p| && MarkOk(p, t)
    ensures MarkOk(q, t)
  {
    SameOpensIn(p, q, t);
    if p[t].base.Open? || p[t].base.Close? {
      SameBefore(p, q, t, p[t].base.g);
      SameBefore(p, q, t + 1, p[t].base.g);
    }
    if p[t].base.Close? {
      var o :| 0 <= o < t && p[o].base == Open(p[t].base.g) && AllClosed(p, o + 1, t);
      forall y | o + 1 <= y < t && q[y].base.Open? ensures ClosedBefore(q, t, q[y].base.g) {
        SameBefore(p, q, t, q[y].base.g);
      }
      assert q[o].base == Open(q[t].base.g) && AllClosed(q, o + 1, t);
    }
  }

  lemma {:induction false} BracketsSame(p: seq<Item>, q: seq<Item>, st: seq<byte>, n: nat, m: nat)
    requires SameBases(p, q) && Brackets(p, st, n, m)
    ensures Brackets(q, st, n, m)
  {
    SameOpensIn(p, q, |p|);
    hide MarkOk, OpenedBefore, ClosedBefore;
    forall t | 0 <= t < |q| ensures MarkOk(q, t) {
      MarkSame(p, q, t);
    }
    forall g: byte
      ensures OpenedBefore(q, |q|, g) <==> OpenedBefore(p, |p|, g)
      ensures ClosedBefore(q, |q|, g) <==> ClosedBefore(p, |p|, g)
    {
      SameBefore(p, q, |p|, g);
    }
  }

  // ----- every accepted pattern -----

  /** Group discipline: for every list of tokens the reader lets through. */
  lemma {:induction false} LawfulBrackets(toks: seq<Token>)
    requires Lawful(toks)
    ensures Brackets(Items(toks), Stack(toks), Opens(toks), Closes(toks))
  {
    if toks == [] {
      assert Brackets([], [], 0, 0);
    } else {
      var before, tok := toks[..|toks| - 1], toks[|toks| - 1];
      assert toks == before + [tok];
      LawfulBrackets(before);
      BracketsStep(before, tok);
    }
  }

  lemma {:induction false} BracketsStep(before: seq<Token>, tok: Token)
    requires LawfulNext(before, tok) && Brackets(Items(before), Stack(before), Opens(before), Closes(before))
    ensures var toks := before + [tok]; Brackets(Items(toks), Stack(toks), Opens(toks), Closes(toks))
  {
    hide Brackets, Items, Stack, Opens, Closes, StarIsLiteral, LegalBody, LegalInterval;
    var p, st, n, m := Items(before), Stack(before), Opens(before), Closes(before);
    GroupsStep(before, tok);
    ItemsStep(before, tok);
    if IsModifier(tok) {
      BracketsSame(p, Items(before + [tok]), st, n, m);
    } else {
      var x := Item(BaseOf(before, tok), false, []);
      if tok.GroupOpen? {
        BracketsOpen(p, st, n, m, x);
      } else if tok.GroupClose? {
        BracketsClose(p, st, n, m, x);
      } else {
        BracketsOther(p, st, n, m, x);
      }
    }
  }

  /** An end anchor is the last item. */
  lemma {:induction false} LawfulDolLast(toks: seq<Token>)
    requires Lawful(toks)
    ensures DolLast(Items(toks))
    ensures Items(toks) != [] && Items(toks)[|Items(toks)| - 1].base.Dol? ==> toks != [] && toks[|toks| - 1].EndAnchor?
  {
    if toks != [] {
      var before, tok := toks[..|toks| - 1], toks[|toks| - 1];
      assert toks == before + [tok];
      LawfulDolLast(before);
      ItemsStep(before, tok);
    }
  }

  // ----- which accepted patterns the matcher can run -----

  /** No lone backslash at the end, an interval only once and only after a single-character item, and a
      back-reference not inside the group it names. */
  ghost predicate FragmentNext(before: seq<Token>, tok: Token) {
    match tok
    case Quoted(c) => c != 0
    case Interval(_, _) => var xs := Items(before); xs != [] && xs[|xs| - 1].base.One? && xs[|xs| - 1].ranges == []
    case BackRef(g) => g !in Stack(before)
    case _ => true
  }

  ghost predicate InFragment(toks: seq<Token>) {
    toks == [] || (InFragment(toks[..|toks| - 1]) && FragmentNext(toks[..|toks| - 1], toks[|toks| - 1]))
  }

  lemma {:induction false} NoNulInBody(neg: bool, body: seq<Member>)
    requires LegalBody(neg, body)
    ensures 0 !in SetOf(body) && LastChar(body) != 0
  {
    assert LegalMember(body, neg, |body| - 1);
    var front := body[..|body| - 1];
    if front != [] {
      forall x | 0 <= x < |front| ensures LegalMember(front, neg, x) {
        assert LegalMember(body, neg, x);
      }
      NoNulInBody(neg, front);
    }
  }

  /** A new item is one the matcher knows. */
  lemma {:induction false} NewItemShaped(before: seq<Token>, tok: Token)
    requires LawfulNext(before, tok) && !IsModifier(tok)
    requires Brackets(Items(before), Stack(before), Opens(before), Closes(before))
    ensures Shaped(Item(BaseOf(before, tok), false, [])) <==> (tok.Quoted? ==> tok.c != 0)
  {
    hide Items, Opens, Closes, MarkOk, OpenedBefore, ClosedBefore;
    if tok.Bracket? {
      NoNulInBody(tok.neg, tok.body);
    }
  }

  lemma {:induction false} ModifiedShaped(x: Item, tok: Token)
    requires IsModifier(tok) && !x.base.Dol? && (tok.Interval? ==> LegalInterval(tok.lo, tok.hi))
    requires tok.Asterisk? ==> !((x.base.Open? || x.base.Close?) && !x.star && x.ranges == [])
    ensures Shaped(Modified(x, tok)) <==> Shaped(x) && (tok.Interval? ==> x.base.One? && x.ranges == [])
  {
    if tok.Interval? {
      DigitsValue(tok.lo);
      if tok.hi.UpTo? { DigitsValue(tok.hi.digits); }
      hide Value, Digits;
      var y := RangeOf(tok.lo, tok.hi);
      assert (x.ranges + [y])[0] == if x.ranges == [] then y else x.ranges[0];
    }
  }

  lemma {:induction false} DigitsValue(ds: seq<byte>)
    requires Digits(ds)
    ensures Value(ds) >= 0
  {
    if |ds| > 1 { DigitsValue(ds[..|ds| - 1]); } else { assert Value(ds[..0]) == 0; }
  }

  lemma {:induction false} ShapedStep(before: seq<Token>, tok: Token)
    requires Lawful(before) && LawfulNext(before, tok)
    ensures ShapedAll(Items(before + [tok])) <==>
      && ShapedAll(Items(before))
      && (tok.Quoted? ==> tok.c != 0)
      && (tok.Interval? ==> var xs := Items(before); xs != [] && xs[|xs| - 1].base.One? && xs[|xs| - 1].ranges == [])
  {
    hide Brackets, Shaped, Items, LegalInterval, LegalBody, Modified, BaseOf, Stack, Opens, Closes;
    LawfulBrackets(before);
    LawfulDolLast(before);
    var xs, ys := Items(before), Items(before + [tok]);
    ItemsStep(before, tok);
    if IsModifier(tok) {
      ModifiedShaped(xs[|xs| - 1], tok);
      hide Lawful;
      ShapedLast(xs);
      ShapedLast(ys);
    } else {
      NewItemShaped(before, tok);
      hide Lawful;
      ShapedLast(ys);
      assert forall t :: 0 <= t < |xs| ==> ys[t] == xs[t];
    }
  }

  lemma {:induction false} ShapedLast(p: seq<Item>)
    requires p != []
    ensures ShapedAll(p) <==> Shaped(p[|p| - 1]) && forall t :: 0 <= t < |p| - 1 ==> Shaped(p[t])
  {
    hide Shaped;
  }

  ghost predicate BacksOk(p: seq<Item>) {
    forall t :: 0 <= t < |p| && p[t].base.Back? ==> ClosedBefore(p, t, p[t].base.g)
  }

  lemma {:induction false} GroupedIsBacksOk(p: seq<Item>, st: seq<byte>, n: nat, m: nat)
    requires Brackets(p, st, n, m)
    ensures Grouped(p) <==> BacksOk(p)
  {
    forall t | 0 <= t < |p| ensures GroupedAt(p, t) <==> (p[t].base.Back? ==> ClosedBefore(p, t, p[t].base.g)) {
      assert MarkOk(p, t);
    }
  }

  lemma {:induction false} BackBase(before: seq<Token>, tok: Token)
    requires !IsModifier(tok)
    ensures BaseOf(before, tok).Back? <==> tok.BackRef?
    ensures tok.BackRef? ==> BaseOf(before, tok) == Back(tok.g)
  {
    hide Opens, Stack;
  }

  lemma {:induction false} BacksStep(before: seq<Token>, tok: Token)
    requires Lawful(before) && LawfulNext(before, tok)
    ensures BacksOk(Items(before + [tok])) <==> BacksOk(Items(before)) && (tok.BackRef? ==> tok.g !in Stack(before))
  {
    hide Items, Stack, Opens, Closes, Lawful, MarkOk, BaseOf, Modified, LegalBody, LegalInterval, StarIsLiteral;
    var p, q, st, n := Items(before), Items(before + [tok]), Stack(before), Opens(before);
    LawfulBrackets(before);
    ItemsStep(before, tok);
    if IsModifier(tok) {
      assert SameBases(p, q);
      forall t, g: byte ensures 0 <= t ==> (ClosedBefore(p, t, g) <==> ClosedBefore(q, t, g)) {
        if 0 <= t { SameBefore(p, q, t, g); }
      }
    } else {
      var x := Item(BaseOf(before, tok), false, []);
      forall t, g: byte ensures 0 <= t <= |p| ==> (ClosedBefore(p, t, g) <==> ClosedBefore(q, t, g)) {
        if 0 <= t <= |p| { OpenedMore(p, x, t, g); }
      }
      if tok.BackRef? {
        assert tok.g in st <==> !ClosedBefore(p, |p|, tok.g);
      }
      assert x.base.Back? <==> tok.BackRef? by { BackBase(before, tok); }
      if tok.BackRef? { BackBase(before, tok); }
      hide Brackets;
      assert q[|p|] == x;
      assert forall t :: 0 <= t < |p| ==> q[t] == p[t];
      assert BacksOk(q) <==> BacksOk(p) && (x.base.Back? ==> ClosedBefore(q, |p|, x.base.g)) by {
        hide ClosedBefore;
        if BacksOk(q) {
          forall t | 0 <= t < |p| && p[t].base.Back? ensures ClosedBefore(p, t, p[t].base.g) {
            assert q[t].base.Back?;
          }
        }
      }
    }
  }

  /** The matcher can run the program of an accepted pattern exactly when the pattern is in the fragment. */
  lemma {:induction false} RunnableIff(toks: seq<Token>)
    requires Lawful(toks)
    ensures Runnable(Items(toks)) <==> InFragment(toks)
  {
    if toks != [] {
      hide Items, LawfulNext, FragmentNext, Runnable;
      var before, tok := toks[..|toks| - 1], toks[|toks| - 1];
      assert toks == before + [tok];
      RunnableIff(before);
      RunnableStep(before, tok);
    }
  }

  lemma {:induction false} RunnableStep(before: seq<Token>, tok: Token)
    requires Lawful(before) && LawfulNext(before, tok)
    ensures Runnable(Items(before + [tok])) <==> Runnable(Items(before)) && FragmentNext(before, tok)
  {
    hide Items, Brackets, Stack, Opens, Closes, LawfulNext, BacksOk, ShapedAll, Grouped;
    var toks := before + [tok];
    assert Lawful(toks) by { assert toks[..|before|] == before; }
    hide Lawful;
    ShapedStep(before, tok);
    BacksStep(before, tok);
    LawfulBrackets(before);
    LawfulBrackets(toks);
    GroupedIsBacksOk(Items(before), Stack(before), Opens(before), Closes(before));
    GroupedIsBacksOk(Items(toks), Stack(toks), Opens(toks), Closes(toks));
  }
}
