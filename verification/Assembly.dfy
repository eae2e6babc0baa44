/**
 How the buffer grows token by token: appending an item, and patching the last one.
 */
module Assembly {
  import opened Bytes
  import opened Program
  import opened Pattern
  import opened Lexer
  import opened Emitter

  /** The buffer from `base` to `ep` holds the code of the tokens; `lastep` is the last item's opcode, or -1. */
  ghost predicate Built(b: seq<byte>, base: nat, ep: nat, lastep: int, toks: seq<Token>) {
    var xs := Items(toks);
    && ep <= |b| && ep == base + |ItemsCode(xs)|
    && b[base..ep] == ItemsCode(xs)
    && lastep == if xs == [] then -1 else base + |ItemsCode(xs[..|xs| - 1])|
  }

  /** bracket[], bracketp, closed and nbra */
  ghost predicate Groups(bracket: seq<byte>, bracketp: nat, closed: nat, nbra: nat, toks: seq<Token>) {
    && |bracket| == NBRA && bracketp <= NBRA && nbra <= NBRA
    && bracketp == |Stack(toks)| && bracket[..bracketp] == Stack(toks)
    && closed == Closes(toks) && nbra == Opens(toks)
    && bracketp == nbra - closed
  }

  lemma {:induction false} AddedItem(toks: seq<Token>, tok: Token)
    requires !IsModifier(tok)
    ensures Items(toks + [tok]) == Items(toks) + [Item(BaseOf(toks, tok), false, [])]
    ensures ItemsCode(Items(toks + [tok])) == ItemsCode(Items(toks)) + ItemCode(Item(BaseOf(toks, tok), false, []))
  {
    assert (toks + [tok])[..|toks|] == toks;
    var xs, x := Items(toks), Item(BaseOf(toks, tok), false, []);
    assert (xs + [x])[..|xs|] == xs;
  }

  lemma {:induction false} ChangedItem(toks: seq<Token>, tok: Token)
    requires IsModifier(tok) && Items(toks) != []
    ensures var xs := Items(toks);
      var front, last := xs[..|xs| - 1], xs[|xs| - 1];
      && Items(toks + [tok]) == front + [Modified(last, tok)]
      && ItemsCode(xs) == ItemsCode(front) + ItemCode(last)
      && ItemsCode(Items(toks + [tok])) == ItemsCode(front) + ItemCode(Modified(last, tok))
      && Items(toks + [tok])[..|Items(toks + [tok])| - 1] == front
  {
    assert (toks + [tok])[..|toks|] == toks;
    var xs := Items(toks);
    var front, last := xs[..|xs| - 1], xs[|xs| - 1];
    assert (front + [Modified(last, tok)])[..|front|] == front;
  }

  lemma {:induction false} Append(b: seq<byte>, b': seq<byte>, base: nat, ep: nat, lastep: int, ep': nat,
                                  toks: seq<Token>, tok: Token)
    requires Built(b, base, ep, lastep, toks) && !IsModifier(tok)
    requires base <= ep <= ep' <= |b'| && b'[base..ep] == b[base..ep]
    requires b'[ep..ep'] == ItemCode(Item(BaseOf(toks, tok), false, []))
    ensures Built(b', base, ep', ep, toks + [tok])
  {
    hide ItemsCode, ItemCode, Items, BaseOf;
    AddedItem(toks, tok);
    assert b'[base..ep'] == b'[base..ep] + b'[ep..ep'];
    var xs := Items(toks + [tok]);
    assert xs[..|xs| - 1] == Items(toks);
  }

  /** A star, or the bounds of an interval, after the last item. */
  lemma {:induction false} ModifiedCode(x: Item, tok: Token)
    requires IsModifier(tok)
    ensures ItemCode(Modified(x, tok)) ==
      [if tok.Asterisk? then OrStar(Opcode(x)) else OrRange(Opcode(x))] + ItemCode(x)[1..] +
      (if tok.Asterisk? then [] else [RangeOf(tok.lo, tok.hi).lo, RangeOf(tok.lo, tok.hi).hi])
  {
    hide Operand, OrStar, OrRange, BaseOp;
    ModifiedOpcode(x, tok);
    if tok.Interval? {
      var y := RangeOf(tok.lo, tok.hi);
      assert (x.ranges + [y])[..|x.ranges|] == x.ranges;
      assert RangeCode(x.ranges + [y]) == RangeCode(x.ranges) + [y.lo, y.hi];
    }
  }

  lemma {:induction false} ModifiedOpcode(x: Item, tok: Token)
    requires IsModifier(tok)
    ensures Opcode(Modified(x, tok)) == if tok.Asterisk? then OrStar(Opcode(x)) else OrRange(Opcode(x))
  {
    hide OrStar, OrRange, BaseOp, RangeOf;
    OpcodeBits(BaseOp(x.base));
    OpcodeBits(OrStar(BaseOp(x.base)));
    OpcodeBits(OrRange(BaseOp(x.base)));
  }

  lemma {:induction false} OpcodeOfGroup(x: Item)
    ensures Opcode(x) == CBRA || Opcode(x) == CKET <==> (x.base.Open? || x.base.Close?) && !x.star && x.ranges == []
  {
    hide OrStar, OrRange;
    OpcodeBits(BaseOp(x.base));
  }

  lemma {:induction false} Patch(b: seq<byte>, b': seq<byte>, base: nat, ep: nat, lastep: int, ep': nat,
                                 toks: seq<Token>, tok: Token)
    requires Built(b, base, ep, lastep, toks) && IsModifier(tok) && Items(toks) != [] && |b| == |b'|
    requires base <= lastep < ep && ep' == (if tok.Asterisk? then ep else ep + 2) <= |b'|
    requires b'[lastep] == if tok.Asterisk? then OrStar(b[lastep]) else OrRange(b[lastep])
    requires forall x :: base <= x < ep && x != lastep ==> b'[x] == b[x]
    requires tok.Interval? ==> b'[ep] == RangeOf(tok.lo, tok.hi).lo && b'[ep + 1] == RangeOf(tok.lo, tok.hi).hi
    ensures Built(b', base, ep', lastep, toks + [tok])
  {
    hide ItemsCode, ItemCode, Items, Modified, OrStar, OrRange, Opcode, RangeOf;
    var xs := Items(toks);
    var front, last := xs[..|xs| - 1], xs[|xs| - 1];
    ChangedItem(toks, tok);
    ModifiedCode(last, tok);
    FirstIsOpcode(last);
    Splice(b, b', base, lastep, ep, ep', ItemsCode(front), ItemCode(last));
    if tok.Interval? {
      assert b'[ep..ep'] == [b'[ep], b'[ep + 1]];
    }
  }

  /** One byte changed and some bytes added. */
  lemma {:induction false} Splice(b: seq<byte>, b': seq<byte>, base: nat, at: nat, ep: nat, ep': nat,
                                  front: seq<byte>, code: seq<byte>)
    requires base + |front| == at < ep <= ep' <= |b'| == |b|
    requires b[base..ep] == front + code
    requires forall x :: base <= x < ep && x != at ==> b'[x] == b[x]
    ensures b[at] == code[0]
    ensures b'[base..ep'] == front + ([b'[at]] + code[1..] + b'[ep..ep'])
  {
    assert forall x :: base <= x < ep ==> b[x] == (front + code)[x - base];
  }

  lemma {:induction false} FirstIsOpcode(x: Item)
    ensures ItemCode(x)[0] == Opcode(x)
  {
    hide Opcode, Operand, RangeCode;
  }

  lemma {:induction false} NotFirst(b: seq<byte>, base: nat, ep: nat, lastep: int, toks: seq<Token>)
    requires Built(b, base, ep, lastep, toks)
    ensures lastep == -1 <==> Items(toks) == []
    ensures lastep != -1 ==> base <= lastep < ep
  {
    hide ItemCode, Items;
  }

  /** Where the code ends after a bracket expression. */
  lemma {:induction false} BracketSize(b: seq<byte>, base: nat, ep: nat, lastep: int, toks: seq<Token>, tok: Token)
    requires Built(b, base, ep, lastep, toks) && tok.Bracket?
    ensures base + |ItemsCode(Items(toks + [tok]))| == ep + |ItemCode(ClassItem(tok))|
  {
    hide ItemsCode, ItemCode, Items;
    AddedItem(toks, tok);
  }

  /** The opcode that `*lastep` shows tells whether a star is to be taken literally. */
  lemma {:induction false} LastOpcode(b: seq<byte>, base: nat, ep: nat, lastep: int, toks: seq<Token>)
    requires Built(b, base, ep, lastep, toks) && Items(toks) != []
    ensures base <= lastep < ep
    ensures b[lastep] == CBRA || b[lastep] == CKET <==> StarIsLiteral(toks)
  {
    hide ItemCode, Items, Opcode;
    var xs := Items(toks);
    var front, last := xs[..|xs| - 1], xs[|xs| - 1];
    assert ItemsCode(xs) == ItemsCode(front) + ItemCode(last);
    hide ItemsCode;
    FirstIsOpcode(last);
    OpcodeOfGroup(last);
    assert b[lastep] == b[base..ep][lastep - base] == Opcode(last);
  }

  /** A program grows with its tokens. */
  lemma {:induction false} CodeGrows(toks: seq<Token>, tok: Token)
    requires IsModifier(tok) ==> Items(toks) != []
    ensures |ItemsCode(Items(toks))| <= |ItemsCode(Items(toks + [tok]))|
  {
    if IsModifier(tok) {
      ChangedItem(toks, tok);
      var xs := Items(toks);
      ModifiedCode(xs[|xs| - 1], tok);
    } else {
      AddedItem(toks, tok);
    }
  }

  lemma {:induction false} TwoBytes(base: Base)
    requires OneOperand(base).Some?
    ensures ItemCode(Item(base, false, [])) == [BaseOp(base), OneOperand(base).value]
  {
    hide OrStar, OrRange;
    assert RangeCode([]) == [];
  }

  /** An opcode and a one-byte operand. */
  method Emit(buf: array<byte>, ep: nat, op: byte, operand: byte,
              ghost base: nat, ghost lastep: int, ghost toks: seq<Token>, ghost tok: Token)
    requires ep + 2 <= buf.Length && base <= ep && Built(buf[..], base, ep, lastep, toks)
    requires !IsModifier(tok) && op == BaseOp(BaseOf(toks, tok)) && OneOperand(BaseOf(toks, tok)) == Some(operand)
    modifies buf
    ensures Built(buf[..], base, ep + 2, ep, toks + [tok])
    ensures OnlyWithin(buf, ep, ep + 2) && buf[ep + 1] == operand
  {
    hide ItemCode, BaseOf, BaseOp, OneOperand;
    ghost var b := buf[..];
    TwoBytes(BaseOf(toks, tok));
    buf[ep] := op;
    buf[ep + 1] := operand;
    assert buf[..][base..ep] == b[base..ep] by { hide Built; }
    assert buf[..][ep..ep + 2] == [op, operand] by { hide Built; }
    hide Built;
    Append(b, buf[..], base, ep, lastep, ep + 2, toks, tok);
  }

  /** An opcode without operand. */
  method EmitOne(buf: array<byte>, ep: nat, op: byte,
                 ghost base: nat, ghost lastep: int, ghost toks: seq<Token>, ghost tok: Token)
    requires ep < buf.Length && base <= ep && Built(buf[..], base, ep, lastep, toks)
    requires !IsModifier(tok) && ItemCode(Item(BaseOf(toks, tok), false, [])) == [op]
    modifies buf
    ensures Built(buf[..], base, ep + 1, ep, toks + [tok])
    ensures OnlyWithin(buf, ep, ep + 1)
  {
    hide ItemCode, BaseOf;
    ghost var b := buf[..];
    buf[ep] := op;
    assert buf[..][base..ep] == b[base..ep] by { hide Built; }
    assert buf[..][ep..ep + 1] == [op] by { hide Built; }
    hide Built;
    Append(b, buf[..], base, ep, lastep, ep + 1, toks, tok);
  }

  lemma {:induction false} ModifierHasItem(pat: seq<byte>, eof: byte, sed: bool, pos: nat, toks: seq<Token>)
    ensures var r := NextToken(pat, eof, sed, pos, toks); r.Token? && IsModifier(r.tok) ==> Items(toks) != []
  {
    hide Items, LexNumber, LexMembers, Opens, Closes, Stack;
  }

  ghost function TokensOf(r: Parsed): seq<Token> {
    match r { case Accept(toks, _) => toks case Reject(_, sofar, _) => sofar }
  }

  /** The code of a pattern is at least as long as that of what has been read of it. */
  lemma {:induction false} ParseGrows(pat: seq<byte>, eof: byte, sed: bool, pos: nat, toks: seq<Token>)
    ensures |ItemsCode(Items(toks))| <= |ItemsCode(Items(TokensOf(Parse(pat, eof, sed, pos, toks))))|
    decreases Left(pat, pos)
  {
    hide NextToken, Items, ItemsCode, Stack;
    TokenAdvance(pat, eof, sed, pos, toks);
    ModifierHasItem(pat, eof, sed, pos, toks);
    var r := NextToken(pat, eof, sed, pos, toks);
    if r.Token? {
      CodeGrows(toks, r.tok);
      ParseGrows(pat, eof, sed, r.end, toks + [r.tok]);
    }
  }

  // ----- facts for the main loop -----

  lemma {:induction false} Start(b: seq<byte>, base: nat, bracket: seq<byte>)
    requires base <= |b| && |bracket| == NBRA
    ensures Built(b, base, base, -1, []) && Groups(bracket, 0, 0, 0, [])
  {
  }

  lemma {:induction false} BuiltSize(b: seq<byte>, base: nat, ep: nat, lastep: int, toks: seq<Token>)
    requires Built(b, base, ep, lastep, toks)
    ensures base <= ep && |ItemsCode(Items(toks))| == ep - base
  {
    hide Items, ItemsCode;
  }

  lemma {:induction false} ParseStep(pat: seq<byte>, eof: byte, sed: bool, pos: nat, toks: seq<Token>)
    ensures Parse(pat, eof, sed, pos, toks) ==
      match NextToken(pat, eof, sed, pos, toks) {
        case Token(tok, end) => Parse(pat, eof, sed, end, toks + [tok])
        case Stop => if Stack(toks) == [] then Accept(toks, pos) else Reject(42, toks, pos)
        case Wrong(code) => Reject(code, toks, pos)
      }
    ensures var r := NextToken(pat, eof, sed, pos, toks); r.Token? ==> Left(pat, r.end) < Left(pat, pos)
  {
    hide NextToken, Stack;
    TokenAdvance(pat, eof, sed, pos, toks);
  }

  lemma {:induction false} ErrorIsNotZero(pat: seq<byte>, eof: byte, sed: bool, pos: nat, toks: seq<Token>)
    ensures var r := NextToken(pat, eof, sed, pos, toks); r.Wrong? ==> r.code > 0
  {
    hide Items, LexNumber, LexMembers, Value, Stack, Opens, Closes;
  }

  /** Only a bracket expression raises error 49. */
  lemma {:induction false} EscapeCode(pat: seq<byte>, pos: nat, toks: seq<Token>)
    ensures LexEscape(pat, pos, toks) != Wrong(49)
  {
    hide Items, LexNumber, Value, Stack, Opens, Closes;
  }

  lemma {:induction false} LastStep(pat: seq<byte>, eof: byte, sed: bool, pos: nat, toks: seq<Token>)
    ensures var c := Peek(pat, pos);
      if c == eof then NextToken(pat, eof, sed, pos, toks) == Stop
      else if c == NEWLINE then NextToken(pat, eof, sed, pos, toks) == if sed then Wrong(36) else Stop
      else c == 0 ==> NextToken(pat, eof, sed, pos, toks) == Wrong(50)
  {
    hide LexBracket, LexEscape, Items;
  }

  /** CCEOF completes the program. */
  lemma {:induction false} Finished(b: seq<byte>, base: nat, ep: nat, lastep: int, toks: seq<Token>)
    requires Built(b, base, ep, lastep, toks) && ep < |b| && b[ep] == CCEOF
    ensures |Code(Items(toks))| == ep + 1 - base
    ensures b[base..ep + 1] == Code(Items(toks))
  {
    hide Items, ItemsCode;
    CodeEnds(Items(toks));
    assert b[base..ep + 1] == b[base..ep] + [CCEOF];
  }

  /** Writing behind the code does not change it. */
  lemma {:induction false} Behind(b: seq<byte>, b': seq<byte>, base: nat, ep: nat, lastep: int, toks: seq<Token>)
    requires Built(b, base, ep, lastep, toks) && |b'| == |b| && forall x :: base <= x < ep ==> b'[x] == b[x]
    ensures Built(b', base, ep, lastep, toks)
  {
    hide Items, ItemsCode;
    assert b'[base..ep] == b[base..ep];
  }

  /** ERROR(50) in front of a token, or inside a class, is right: the whole program does not fit. */
  lemma {:induction false} TooLong(pat: seq<byte>, eof: byte, sed: bool, pos: nat, toks: seq<Token>, room: int)
    requires room <= |ItemsCode(Items(toks))|
    ensures match Parse(pat, eof, sed, pos, toks)
      case Accept(all, _) => room < |Code(Items(all))|
      case Reject(_, sofar, _) => room <= |ItemsCode(Items(sofar))|
  {
    hide Items, ItemsCode, Parse, Code;
    ParseGrows(pat, eof, sed, pos, toks);
    CodeEnds(Items(TokensOf(Parse(pat, eof, sed, pos, toks))));
  }
}
