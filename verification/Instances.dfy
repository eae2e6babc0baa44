/**
 Patterns that `compile` accepts, or begins to write, and for which the plain expectation fails.
 */
module Instances {
  import opened Bytes
  import opened Program
  import opened Semantics
  import opened Pattern
  import opened Lexer
  import opened Grammar
  import opened Emitter
  import opened Assembly
  import opened Overrun
  import opened Decoder
  import opened Fragment
  import opened Divergence
  import opened Matching
  import opened Corollaries
  import opened RegexpH

  const LETTER_A: byte := 'a' as int
  const LETTER_B: byte := 'b' as int
  const TWO: byte := '2' as int
  const EIGHT: byte := '8' as int

  // ----- reading a pattern token by token, with NUL as its delimiter -----

  /** Tokens, and what the reader looks at in them. */
  datatype Known = Known(toks: seq<Token>, xs: seq<Item>, opens: byte, closes: nat, st: seq<byte>) {
    ghost predicate Holds() {
      Items(toks) == xs && Opens(toks) == opens && Closes(toks) == closes && Stack(toks) == st
    }
  }

  /** From `pos` with `a` the reader comes to `end` with `b`. */
  ghost predicate Comes(pat: seq<byte>, pos: nat, a: Known, end: nat, b: Known) {
    b.Holds() && Parse(pat, 0, false, pos, a.toks) == Parse(pat, 0, false, end, b.toks)
  }

  lemma {:induction false} Begin() returns (a: Known)
    ensures a == Known([], [], 0, 0, []) && a.Holds()
  {
    a := Known([], [], 0, 0, []);
  }

  lemma {:induction false} Adds(pat: seq<byte>, pos: nat, a: Known, tok: Token, b: Known)
    requires a.Holds() && IsToken(pat, 0, pos, a.toks, tok) && !IsModifier(tok)
    requires b.toks == a.toks + [tok] && b.xs == a.xs + [Item(BaseOf(a.toks, tok), false, [])]
    requires b.opens == a.opens + (if tok.GroupOpen? then 1 else 0)
    requires b.closes == a.closes + (if tok.GroupClose? then 1 else 0)
    requires b.st == if tok.GroupOpen? then a.st + [a.opens]
                     else if tok.GroupClose? && a.st != [] then a.st[..|a.st| - 1]
                     else a.st
    ensures Comes(pat, pos, a, pos + |Text(tok)|, b)
  {
    hide Items, Opens, Closes, Stack, IsToken, Text, NextToken, Parse, BaseOf, ItemsCode, ItemCode;
    TokenComplete(pat, 0, false, pos, a.toks, tok);
    ParseStep(pat, 0, false, pos, a.toks);
    GroupsStep(a.toks, tok);
    AddedItem(a.toks, tok);
  }

  lemma {:induction false} TakeOpen(pat: seq<byte>, pos: nat, a: Known) returns (b: Known)
    requires a.Holds() && a.opens < NBRA && Peek(pat, pos) == BACKSLASH && Peek(pat, pos + 1) == LPAREN
    ensures b == Known(a.toks + [GroupOpen], a.xs + [Item(Open(a.opens), false, [])], a.opens + 1, a.closes,
                       a.st + [a.opens])
    ensures Comes(pat, pos, a, pos + 2, b)
  {
    hide Items, Opens, Closes, Stack, Reads, LegalInterval, LegalBody, StarIsLiteral, Comes;
    ReadsTwo(pat, pos, BACKSLASH, LPAREN);
    b := Known(a.toks + [GroupOpen], a.xs + [Item(Open(a.opens), false, [])], a.opens + 1, a.closes, a.st + [a.opens]);
    Adds(pat, pos, a, GroupOpen, b);
  }

  lemma {:induction false} TakeClose(pat: seq<byte>, pos: nat, a: Known) returns (b: Known)
    requires a.Holds() && a.st != [] && Peek(pat, pos) == BACKSLASH && Peek(pat, pos + 1) == RPAREN
    ensures b == Known(a.toks + [GroupClose], a.xs + [Item(Close(a.st[|a.st| - 1]), false, [])], a.opens, a.closes + 1,
                       a.st[..|a.st| - 1])
    ensures Comes(pat, pos, a, pos + 2, b)
  {
    hide Items, Opens, Closes, Stack, Reads, LegalInterval, LegalBody, StarIsLiteral, Comes;
    ReadsTwo(pat, pos, BACKSLASH, RPAREN);
    b := Known(a.toks + [GroupClose], a.xs + [Item(Close(a.st[|a.st| - 1]), false, [])], a.opens, a.closes + 1,
               a.st[..|a.st| - 1]);
    Adds(pat, pos, a, GroupClose, b);
  }

  lemma {:induction false} TakeBack(pat: seq<byte>, pos: nat, a: Known, g: byte) returns (b: Known)
    requires a.Holds() && g < NBRA && g < a.closes && Peek(pat, pos) == BACKSLASH && Peek(pat, pos + 1) == ONE + g
    ensures b == Known(a.toks + [BackRef(g)], a.xs + [Item(Back(g), false, [])], a.opens, a.closes, a.st)
    ensures Comes(pat, pos, a, pos + 2, b)
  {
    hide Items, Opens, Closes, Stack, Reads, LegalInterval, LegalBody, StarIsLiteral, Comes;
    ReadsTwo(pat, pos, BACKSLASH, ToByte(ONE + g));
    b := Known(a.toks + [BackRef(g)], a.xs + [Item(Back(g), false, [])], a.opens, a.closes, a.st);
    Adds(pat, pos, a, BackRef(g), b);
  }

  lemma {:induction false} TakeLetter(pat: seq<byte>, pos: nat, a: Known, c: byte) returns (b: Known)
    requires a.Holds() && Peek(pat, pos) == c
    requires c !in {0, NEWLINE, PERIOD, LBRACKET, BACKSLASH, ASTERISK, DOLLAR}
    ensures b == Known(a.toks + [Literal(c)], a.xs + [Item(One(Chr(c)), false, [])], a.opens, a.closes, a.st)
    ensures Comes(pat, pos, a, pos + 1, b)
  {
    hide Items, Opens, Closes, Stack, Reads, LegalInterval, LegalBody, StarIsLiteral, Comes;
    ReadsOne(pat, pos, c);
    b := Known(a.toks + [Literal(c)], a.xs + [Item(One(Chr(c)), false, [])], a.opens, a.closes, a.st);
    Adds(pat, pos, a, Literal(c), b);
  }

  lemma {:induction false} Changes(pat: seq<byte>, pos: nat, a: Known, tok: Token) returns (b: Known)
    requires a.Holds() && IsToken(pat, 0, pos, a.toks, tok) && IsModifier(tok) && a.xs != []
    ensures b == Known(a.toks + [tok], a.xs[..|a.xs| - 1] + [Modified(a.xs[|a.xs| - 1], tok)], a.opens, a.closes, a.st)
    ensures Comes(pat, pos, a, pos + |Text(tok)|, b)
  {
    hide Items, Opens, Closes, Stack, IsToken, Text, NextToken, Parse, Modified, ItemsCode, ItemCode;
    b := Known(a.toks + [tok], a.xs[..|a.xs| - 1] + [Modified(a.xs[|a.xs| - 1], tok)], a.opens, a.closes, a.st);
    TokenComplete(pat, 0, false, pos, a.toks, tok);
    ParseStep(pat, 0, false, pos, a.toks);
    GroupsStep(a.toks, tok);
    ChangedItem(a.toks, tok);
  }

  lemma {:induction false} TakeStar(pat: seq<byte>, pos: nat, a: Known) returns (b: Known)
    requires a.Holds() && Peek(pat, pos) == ASTERISK
    requires a.xs != [] && !a.xs[|a.xs| - 1].base.Open? && !a.xs[|a.xs| - 1].base.Close?
    ensures b == Known(a.toks + [Asterisk], a.xs[..|a.xs| - 1] + [a.xs[|a.xs| - 1].(star := true)],
                       a.opens, a.closes, a.st)
    ensures Comes(pat, pos, a, pos + 1, b)
  {
    hide Items, Opens, Closes, Stack, Reads, LegalInterval, LegalBody, Comes;
    ReadsOne(pat, pos, ASTERISK);
    b := Changes(pat, pos, a, Asterisk);
  }

  /** `\{d\}` with one digit. */
  lemma {:induction false} TakeInterval(pat: seq<byte>, pos: nat, a: Known, d: byte) returns (b: Known)
    requires a.Holds() && a.xs != [] && IsDigit(d)
    requires Reads(pat, pos, [BACKSLASH, LBRACE, d, BACKSLASH, RBRACE])
    ensures var x := a.xs[|a.xs| - 1];
      b == Known(a.toks + [Interval([d], Exact)],
                 a.xs[..|a.xs| - 1] + [x.(ranges := x.ranges + [Range(d - ZERO, d - ZERO)])], a.opens, a.closes, a.st)
    ensures Comes(pat, pos, a, pos + 5, b)
  {
    hide Items, Opens, Closes, Stack, Reads, LegalBody, StarIsLiteral, Comes;
    assert Text(Interval([d], Exact)) == [BACKSLASH, LBRACE, d, BACKSLASH, RBRACE];
    assert Value([d]) == d - ZERO by { assert Value([d][..0]) == 0; }
    b := Changes(pat, pos, a, Interval([d], Exact));
  }

  lemma {:induction false} End(pat: seq<byte>, a: Known)
    requires a.Holds() && a.st == []
    ensures Parse(pat, 0, false, |pat|, a.toks) == Accept(a.toks, |pat|)
  {
    hide Items, Opens, Closes, Stack, NextToken, Parse;
    ParseStep(pat, 0, false, |pat|, a.toks);
    LastStep(pat, 0, false, |pat|, a.toks);
  }

  // ----- a back-reference inside the group it names -----

  /** `\(\(a\)\1\)` */
  const NESTED: seq<byte> :=
    [BACKSLASH, LPAREN, BACKSLASH, LPAREN, LETTER_A, BACKSLASH, RPAREN, BACKSLASH, ONE, BACKSLASH, RPAREN]

  const NESTED_TOKENS: seq<Token> := [GroupOpen, GroupOpen, Literal(LETTER_A), GroupClose, BackRef(0), GroupClose]

  const NESTED_ITEMS: seq<Item> :=
    [Item(Open(0), false, []), Item(Open(1), false, []), Item(One(Chr(LETTER_A)), false, []),
     Item(Close(1), false, []), Item(Back(0), false, []), Item(Close(0), false, [])]

  lemma {:induction false} NestedParse()
    ensures Parse(NESTED, 0, false, 0, []) == Accept(NESTED_TOKENS, 11)
    ensures Items(NESTED_TOKENS) == NESTED_ITEMS && Stack(NESTED_TOKENS[..4]) == [0]
  {
    hide Parse, Items, Opens, Closes, Stack;
    var k := Begin();
    k := TakeOpen(NESTED, 0, k);
    k := TakeOpen(NESTED, 2, k);
    k := TakeLetter(NESTED, 4, k, LETTER_A);
    k := TakeClose(NESTED, 5, k);
    assert k.toks == NESTED_TOKENS[..4] && k.st == [0];
    k := TakeBack(NESTED, 7, k, 0);
    k := TakeClose(NESTED, 9, k);
    assert k.toks == NESTED_TOKENS && k.xs == NESTED_ITEMS;
    End(NESTED, k);
  }

  lemma {:induction false} NestedShaped()
    ensures ShapedAll(NESTED_ITEMS)
  {
  }

  /** The run on "a" up to the back-reference. */
  lemma {:induction false} NestedRun(c: Caps)
    requires CapsShape(c) && ShapedAll(NESTED_ITEMS)
    ensures var e := Env(NESTED_ITEMS, [LETTER_A], -1);
      Search(e, 0, 0, c) == Search(e, 4, 1, Caps(c.starts[0 := 0][1 := 0], c.ends[1 := 1]))
  {
    var e := Env(NESTED_ITEMS, [LETTER_A], -1);
    Forced(e, 0, 0, c, 0);
    var c1 := c.(starts := c.starts[0 := 0]);
    Forced(e, 1, 0, c1, 0);
    var c2 := c1.(starts := c1.starts[1 := 0]);
    Forced(e, 2, 0, c2, 1);
    Forced(e, 3, 1, c2, 0);
  }

  lemma {:induction false} NestedBack(c: Caps)
    requires CapsShape(c) && c.starts[0] == 0 && ShapedAll(NESTED_ITEMS)
    ensures var e := Env(NESTED_ITEMS, [LETTER_A], -1);
      && (c.ends[0] == 0 ==> Search(e, 4, 1, c).Yes?)
      && (c.ends[0] == 1 ==> Search(e, 4, 1, c).No?)
  {
    var e := Env(NESTED_ITEMS, [LETTER_A], -1);
    if c.ends[0] == 0 {
      Forced(e, 4, 1, c, 1);
      Forced(e, 5, 1, c, 0);
    } else if c.ends[0] == 1 {
      Blocked(e, 4, 1, c);
    }
  }

  /** `\(\(a\)\1\)` is accepted, although its back-reference stands inside the group it names. Whether it matches
      "a" depends on what an earlier run has left in braelist. */
  lemma {:induction false} NestedReference(c: Caps)
    requires CapsShape(c)
    ensures Parse(NESTED, 0, false, 0, []) == Accept(NESTED_TOKENS, 11)
    ensures !InFragment(NESTED_TOKENS)
    ensures Items(NESTED_TOKENS) == NESTED_ITEMS && ShapedAll(NESTED_ITEMS)
    ensures var e := Env(NESTED_ITEMS, [LETTER_A], -1);
      && (c.ends[0] == 0 ==> Search(e, 0, 0, c).Yes?)
      && (c.ends[0] == 1 ==> Search(e, 0, 0, c).No?)
  {
    hide Parse, Items, Search, Stack;
    NestedParse();
    assert NESTED_TOKENS[..5][..4] == NESTED_TOKENS[..4];
    assert !FragmentNext(NESTED_TOKENS[..4], NESTED_TOKENS[4]);
    assert !InFragment(NESTED_TOKENS[..5]);
    NestedShaped();
    NestedRun(c);
    NestedBack(Caps(c.starts[0 := 0][1 := 0], c.ends[1 := 1]));
  }

  // ----- a starred back-reference to a group that can be empty -----

  /** `\(a*\)\1*` */
  const HANGING: seq<byte> :=
    [BACKSLASH, LPAREN, LETTER_A, ASTERISK, BACKSLASH, RPAREN, BACKSLASH, ONE, ASTERISK]

  const HANGING_TOKENS: seq<Token> := [GroupOpen, Literal(LETTER_A), Asterisk, GroupClose, BackRef(0), Asterisk]

  const HANGING_ITEMS: seq<Item> :=
    [Item(Open(0), false, []), Item(One(Chr(LETTER_A)), true, []), Item(Close(0), false, []), Item(Back(0), true, [])]

  lemma {:induction false} HangingParse()
    ensures Parse(HANGING, 0, false, 0, []) == Accept(HANGING_TOKENS, 9)
    ensures Items(HANGING_TOKENS) == HANGING_ITEMS
  {
    hide Parse, Items, Opens, Closes, Stack;
    var k := Begin();
    k := TakeOpen(HANGING, 0, k);
    k := TakeLetter(HANGING, 2, k, LETTER_A);
    k := TakeStar(HANGING, 3, k);
    k := TakeClose(HANGING, 4, k);
    k := TakeBack(HANGING, 6, k, 0);
    k := TakeStar(HANGING, 8, k);
    assert k.toks == HANGING_TOKENS && k.xs == HANGING_ITEMS;
    End(HANGING, k);
  }

  lemma {:induction false} HangingRunnable()
    ensures Runnable(HANGING_ITEMS) && DolLast(HANGING_ITEMS) && HangsAt(HANGING_ITEMS, 3)
  {
    var p := HANGING_ITEMS;
    assert GroupedAt(p, 0);
    assert p[0].base == Open(0) && p[2].base == Close(0);
    assert OpenedBefore(p, 2, 0);
    assert GroupedAt(p, 2);
    assert ClosedBefore(p, 3, 0);
    assert GroupedAt(p, 3) && GroupedAt(p, 1);
    assert Shortest(p, 0).0 == 0;
    assert Shortest(p, 1).0 == 0 && Shortest(p, 1).1.starts[0] == 0;
    assert Shortest(p, 2).0 == 0 && Shortest(p, 2).1.starts[0] == 0;
    assert Shortest(p, 3).1.ends[0] == 0 && Shortest(p, 3).1.starts[0] == 0;
  }

  /** On the empty text the group is empty. */
  lemma {:induction false} HangsOnEmpty(c: Caps)
    requires CapsShape(c) && ShapedAll(HANGING_ITEMS)
    ensures Search(Env(HANGING_ITEMS, [], -1), 0, 0, c).Never?
  {
    var e := Env(HANGING_ITEMS, [], -1);
    Forced(e, 0, 0, c, 0);
    var d := c.(starts := c.starts[0 := 0]);
    Forced(e, 1, 0, d, 0);
    Forced(e, 2, 0, d, 0);
    assert Stuck(e, e.p[3], d.(ends := d.ends[0 := 0]));
  }

  /** On "a" the group takes the character, and the reference finds no copy of it behind. */
  lemma {:induction false} ReturnsOnLetter(c: Caps)
    requires CapsShape(c) && ShapedAll(HANGING_ITEMS)
    ensures Search(Env(HANGING_ITEMS, [LETTER_A], -1), 0, 0, c).Yes?
  {
    var e := Env(HANGING_ITEMS, [LETTER_A], -1);
    Forced(e, 0, 0, c, 0);
    var d := c.(starts := c.starts[0 := 0]);
    assert Reps(Chr(LETTER_A), e.s, 1) == 0 && Reps(Chr(LETTER_A), e.s, 0) == 1;
    SearchIsDown(e, 1, 0, d);
    Forced(e, 2, 1, d, 0);
    var f := d.(ends := d.ends[0 := 1]);
    assert Captured(e.s, f, 0) == [LETTER_A];
    Forced(e, 3, 1, f, 0);
  }

  /** `\(a*\)\1*` is accepted and in the fragment; `step` does not return on the empty text, and does on "a". */
  lemma {:induction false} StarredEmptyGroup(c: Caps)
    requires CapsShape(c)
    ensures Parse(HANGING, 0, false, 0, []) == Accept(HANGING_TOKENS, 9)
    ensures Items(HANGING_TOKENS) == HANGING_ITEMS
    ensures Runnable(HANGING_ITEMS) && DolLast(HANGING_ITEMS) && HangsAt(HANGING_ITEMS, 3)
    ensures Search(Env(HANGING_ITEMS, [], -1), 0, 0, c).Never?
    ensures Search(Env(HANGING_ITEMS, [LETTER_A], -1), 0, 0, c).Yes?
  {
    hide Parse, Items, HangsAt, Search, Grouped;
    HangingParse();
    HangingRunnable();
    HangsOnEmpty(c);
    ReturnsOnLetter(c);
  }

  /** So "does not return" is the only report there can be. */
  lemma {:induction false} HangingAnswer(a: Answer, anchored: bool, loc1: int, loc2: int, c: Caps, ks: seq<nat>)
    requires Reports(a, HANGING_ITEMS, [], anchored, loc1, loc2, c, ks)
    ensures a == Diverges
  {
    hide Reports, Search, StuckFirst, Finds, Quiet, HangsAt, Runnable;
    var e := Env(HANGING_ITEMS, [], -1);
    HangingRunnable();
    HangingShaped();
    HangsOnEmpty(NoCaps());
    var qs := VerdictMeans(e, 0, NoCaps());
    assert FirstStart(e, anchored, 0);
    ReportIsExact(a, HANGING_ITEMS, [], anchored, loc1, loc2, c, ks);
  }

  lemma {:induction false} HangingShaped()
    ensures ShapedAll(HANGING_ITEMS)
  {
  }

  // ----- intervals that the code does not show -----

  /** `\(a\)\{2\}` */
  const GROUP_TWICE: seq<byte> :=
    [BACKSLASH, LPAREN, LETTER_A, BACKSLASH, RPAREN, BACKSLASH, LBRACE, TWO, BACKSLASH, RBRACE]

  const GROUP_TWICE_TOKENS: seq<Token> := [GroupOpen, Literal(LETTER_A), GroupClose, Interval([TWO], Exact)]

  const GROUP_TWICE_ITEMS: seq<Item> :=
    [Item(Open(0), false, []), Item(One(Chr(LETTER_A)), false, []), Item(Close(0), false, [Range(2, 2)])]

  lemma {:induction false} GroupTwiceParse()
    ensures Parse(GROUP_TWICE, 0, false, 0, []) == Accept(GROUP_TWICE_TOKENS, 10)
    ensures Items(GROUP_TWICE_TOKENS) == GROUP_TWICE_ITEMS
  {
    hide Parse, Items, Opens, Closes, Stack;
    var k := Begin();
    k := TakeOpen(GROUP_TWICE, 0, k);
    k := TakeLetter(GROUP_TWICE, 2, k, LETTER_A);
    k := TakeClose(GROUP_TWICE, 3, k);
    k := TakeInterval(GROUP_TWICE, 5, k, TWO);
    assert k.xs[2].ranges == [Range(2, 2)];
    assert k.toks == GROUP_TWICE_TOKENS && k.xs == GROUP_TWICE_ITEMS;
    End(GROUP_TWICE, k);
  }

  lemma {:induction false} GroupTwiceCode()
    ensures Code(GROUP_TWICE_ITEMS) == [CBRA, 0, CCHR, LETTER_A, CKET + RNGE, 0, 2, 2, CCEOF]
  {
    hide OrRange;
    OpcodeBits(CKET);
    var p := GROUP_TWICE_ITEMS;
    assert RangeCode([]) == [] && RangeCode([Range(2, 2)]) == RangeCode([Range(2, 2)][..0]) + [2, 2];
    assert ItemCode(p[0]) == [CBRA, 0] && ItemCode(p[1]) == [CCHR, LETTER_A] && ItemCode(p[2]) == [27, 0, 2, 2];
    assert CodeFrom(p, 3) == [CCEOF] && CodeFrom(p, 2) == [27, 0, 2, 2, CCEOF];
    assert CodeFrom(p, 1) == [CCHR, LETTER_A, 27, 0, 2, 2, CCEOF];
  }

  /** An interval after a group gives an opcode that is none. */
  lemma {:induction false} IntervalAfterGroup()
    ensures Parse(GROUP_TWICE, 0, false, 0, []) == Accept(GROUP_TWICE_TOKENS, 10)
    ensures Items(GROUP_TWICE_TOKENS) == GROUP_TWICE_ITEMS
    ensures Code(GROUP_TWICE_ITEMS) == [CBRA, 0, CCHR, LETTER_A, CKET + RNGE, 0, 2, 2, CCEOF]
    ensures Decode(Code(GROUP_TWICE_ITEMS)) == None
  {
    hide Parse, Items, Code;
    GroupTwiceParse();
    GroupTwiceCode();
    var b: seq<byte> := [CBRA, 0, CCHR, LETTER_A, CKET + RNGE, 0, 2, 2, CCEOF];
    assert b[2..] == [CCHR, LETTER_A, CKET + RNGE, 0, 2, 2, CCEOF];
    assert b[2..][2..] == [CKET + RNGE, 0, 2, 2, CCEOF];
    assert DecodeItem(b[2..][2..]) == None;
    assert Decode(b[2..][2..]) == None;
    assert DecodeItem(b[2..]).value.1 == 2 && DecodeItem(b).value.1 == 2;
    assert Decode(b[2..]) == None;
  }

  /** `a\{2\}\{8\}` */
  const TWO_INTERVALS: seq<byte> :=
    [LETTER_A, BACKSLASH, LBRACE, TWO, BACKSLASH, RBRACE, BACKSLASH, LBRACE, EIGHT, BACKSLASH, RBRACE]

  const TWO_INTERVALS_TOKENS: seq<Token> := [Literal(LETTER_A), Interval([TWO], Exact), Interval([EIGHT], Exact)]

  const TWO_INTERVALS_ITEMS: seq<Item> := [Item(One(Chr(LETTER_A)), false, [Range(2, 2), Range(8, 8)])]

  lemma {:induction false} TwoIntervalsParse()
    ensures Parse(TWO_INTERVALS, 0, false, 0, []) == Accept(TWO_INTERVALS_TOKENS, 11)
    ensures Items(TWO_INTERVALS_TOKENS) == TWO_INTERVALS_ITEMS
  {
    hide Parse, Items, Opens, Closes, Stack;
    var k := Begin();
    k := TakeLetter(TWO_INTERVALS, 0, k, LETTER_A);
    k := TakeInterval(TWO_INTERVALS, 1, k, TWO);
    k := TakeInterval(TWO_INTERVALS, 6, k, EIGHT);
    assert k.xs[0].ranges == [Range(2, 2), Range(8, 8)];
    assert k.toks == TWO_INTERVALS_TOKENS && k.xs == TWO_INTERVALS_ITEMS;
    End(TWO_INTERVALS, k);
  }

  lemma {:induction false} TwoIntervalsCode()
    ensures Code(TWO_INTERVALS_ITEMS) == [CCHR + RNGE, LETTER_A, 2, 2, CDOT, CDOT, CCEOF]
  {
    hide OrRange;
    OpcodeBits(CCHR);
    var p := TWO_INTERVALS_ITEMS;
    var r := [Range(2, 2), Range(8, 8)];
    assert RangeCode(r[..1][..0]) == [] && r[..1][0] == r[0];
    assert RangeCode(r[..1]) == [2, 2];
    assert RangeCode(r) == [2, 2, 8, 8];
    assert ItemCode(p[0]) == [CCHR + RNGE, LETTER_A, 2, 2, CDOT, CDOT];
    assert CodeFrom(p, 1) == [CCEOF];
  }

  /** The bounds of a second interval are read as items: here as two dots. */
  lemma {:induction false} SecondInterval()
    ensures Parse(TWO_INTERVALS, 0, false, 0, []) == Accept(TWO_INTERVALS_TOKENS, 11)
    ensures Items(TWO_INTERVALS_TOKENS) == TWO_INTERVALS_ITEMS
    ensures Code(TWO_INTERVALS_ITEMS) == [CCHR + RNGE, LETTER_A, 2, 2, CDOT, CDOT, CCEOF]
    ensures Decode(Code(TWO_INTERVALS_ITEMS)) ==
      Some([Item(One(Chr(LETTER_A)), false, [Range(2, 2)]), Item(One(Any), false, []), Item(One(Any), false, [])])
  {
    hide Parse, Items, Code;
    TwoIntervalsParse();
    TwoIntervalsCode();
    var b: seq<byte> := [CCHR + RNGE, LETTER_A, 2, 2, CDOT, CDOT, CCEOF];
    assert b[4..] == [CDOT, CDOT, CCEOF] && b[4..][1..] == [CDOT, CCEOF] && b[4..][1..][1..] == [CCEOF];
    var x, dot := Item(One(Chr(LETTER_A)), false, [Range(2, 2)]), Item(One(Any), false, []);
    assert DecodeItem(b) == Some((x, 4)) && DecodeItem(b[4..]) == Some((dot, 1));
    assert DecodeItem(b[4..][1..]) == Some((dot, 1)) && Decode(b[4..][1..][1..]) == Some([]);
    assert [dot] + [] == [dot] && [dot] + [dot] == [dot, dot] && [x] + [dot, dot] == [x, dot, dot];
    assert Decode(b[4..][1..]) == Some([dot]);
    assert Decode(b[4..]) == Some([dot, dot]);
  }

  // ----- a byte behind the buffer -----

  const TWO_LETTERS: seq<byte> := [LETTER_A, LETTER_B]

  lemma {:induction false} TwoLettersParse()
    ensures Parse(TWO_LETTERS, 0, false, 0, []) == Accept([Literal(LETTER_A), Literal(LETTER_B)], 2)
    ensures |Code(Items([Literal(LETTER_A), Literal(LETTER_B)]))| == 5
  {
    hide Parse, Items, Opens, Closes, Stack;
    var k := Begin();
    k := TakeLetter(TWO_LETTERS, 0, k, LETTER_A);
    k := TakeLetter(TWO_LETTERS, 1, k, LETTER_B);
    assert k.toks == [Literal(LETTER_A), Literal(LETTER_B)];
    End(TWO_LETTERS, k);
    assert |CodeFrom(k.xs, 2)| == 1 && |CodeFrom(k.xs, 1)| == 3;
  }

  /** With room for three bytes, the second byte of the second letter is the fourth. */
  lemma {:induction false} TwoLettersSpill()
    ensures Spilled(TWO_LETTERS, 0, false, 0, [], 3) == Some(LETTER_B)
  {
    hide Spilled, Items, Opens, Closes, Stack, LexBracket, LexEscape, ItemsCode;
    var k := Begin();
    var m := TakeLetter(TWO_LETTERS, 0, k, LETTER_A);
    assert [] + [Literal(LETTER_A)] == m.toks;
    SpilledStep(TWO_LETTERS, 0, false, 0, [], 3);
    SpilledStep(TWO_LETTERS, 0, false, 1, m.toks, 3);
    LetterCode();
  }

  lemma {:induction false} LetterCode()
    ensures ItemsCode([]) == []
    ensures |ItemsCode([] + [Item(One(Chr(LETTER_A)), false, [])])| == 2
  {
    var p := [] + [Item(One(Chr(LETTER_A)), false, [])];
    assert p[..0] == [];
  }

  /** `ab` for a buffer of three bytes: ERROR(50), and the letter is stored behind them. */
  method CompileTwoLetters(re: Regexp, buf: array<byte>, base: nat) returns (r: Compiled, pos: nat)
    requires !re.sed && base + 3 < buf.Length
    modifies re, buf
    ensures r == Error(50) && buf[base + 3] == LETTER_B && OnlyWithin(buf, base, base + 4)
  {
    hide Parse, Spilled, Items, ItemsCode, Code, ClassRoom, Opens;
    TwoLettersParse();
    TwoLettersSpill();
    r, pos := re.Compile(TWO_LETTERS, buf, base, base + 3, 0);
  }
}
