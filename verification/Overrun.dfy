/**
 When `compile` stores a byte at `endbuf`.

 The room left is looked at in front of a token and not between the bytes of one, so a token of two
 bytes whose first byte is the last one in the buffer puts its second byte behind it.
 */
module Overrun {
  import opened Bytes
  import opened Program
  import opened Pattern
  import opened Lexer
  import opened Grammar
  import opened Assembly

  function SecondOf(toks: seq<Token>, next: Next): Option<byte> {
    if next.Token? && !IsModifier(next.tok) then OneOperand(BaseOf(toks, next.tok)) else None
  }

  /** The second byte stored for what stands behind a backslash. */
  function SecondEscape(pat: seq<byte>, pos: nat, toks: seq<Token>): Option<byte> {
    if Peek(pat, pos) == LBRACE && Items(toks) != [] then SecondBound(pat, pos + 1)
    else SecondOf(toks, LexEscape(pat, pos, toks))
  }

  /** The second byte stored for what stands at `pos`, if a second byte is stored for it. */
  function SecondByte(pat: seq<byte>, eof: byte, sed: bool, pos: nat, toks: seq<Token>): Option<byte> {
    if Peek(pat, pos) == BACKSLASH != eof then SecondEscape(pat, pos + 1, toks)
    else SecondOf(toks, NextToken(pat, eof, sed, pos, toks))
  }

  lemma {:induction false} ClassHasNoSecond(pat: seq<byte>, pos: nat, toks: seq<Token>)
    ensures SecondOf(toks, LexBracket(pat, pos)) == None
  {
    hide LexMembers, SetOf;
  }

  function AtLimit(ep: nat, endbuf: nat, second: Option<byte>): Option<byte> {
    if ep + 1 == endbuf then second else None
  }

  /** The byte that is stored behind a buffer of `room` bytes, if one is, with `toks` already read. */
  ghost function Spilled(pat: seq<byte>, eof: byte, sed: bool, pos: nat, toks: seq<Token>, room: int): Option<byte>
    decreases Left(pat, pos)
  {
    TokenAdvance(pat, eof, sed, pos, toks);
    var left := room - |ItemsCode(Items(toks))|;
    var second := SecondByte(pat, eof, sed, pos, toks);
    if left <= 0 then None
    else if Peek(pat, pos) == 0 != eof then if left % 2 == 1 then Some(0) else None
    else if left == 1 && second.Some? then second
    else
      match NextToken(pat, eof, sed, pos, toks)
      case Token(tok, end) => Spilled(pat, eof, sed, end, toks + [tok], room)
      case _ => None
  }

  lemma {:induction false} SpilledStep(pat: seq<byte>, eof: byte, sed: bool, pos: nat, toks: seq<Token>, room: int)
    ensures Spilled(pat, eof, sed, pos, toks, room) ==
      var left := room - |ItemsCode(Items(toks))|;
      var second := SecondByte(pat, eof, sed, pos, toks);
      if left <= 0 then None
      else if Peek(pat, pos) == 0 != eof then if left % 2 == 1 then Some(0) else None
      else if left == 1 && second.Some? then second
      else
        match NextToken(pat, eof, sed, pos, toks)
        case Token(tok, end) => Spilled(pat, eof, sed, end, toks + [tok], room)
        case _ => None
  {
    hide NextToken, Items, ItemsCode, SecondByte;
    TokenAdvance(pat, eof, sed, pos, toks);
  }

  // ----- without a run -----

  /** What is read next, when the room left is `left`, stores `b` behind the buffer. */
  ghost predicate Spills(pat: seq<byte>, eof: byte, sed: bool, pos: nat, toks: seq<Token>, left: int, b: byte) {
    if Peek(pat, pos) == 0 != eof then left > 0 && left % 2 == 1 && b == 0
    else left == 1 && SecondByte(pat, eof, sed, pos, toks) == Some(b)
  }

  /** Some tokens that the pattern starts with leave room for one byte only, and what follows stores two; or
      the pattern has no delimiter, and the NULs behind it fill up an odd number of bytes. */
  ghost predicate Overruns(pat: seq<byte>, eof: byte, sed: bool, start: nat, room: int, b: byte) {
    exists toks ::
      && Spells(pat, eof, start, toks)
      && Spills(pat, eof, sed, start + |TextOf(toks)|, toks, room - |ItemsCode(Items(toks))|, b)
  }

  lemma {:induction false} SpilledSound(pat: seq<byte>, eof: byte, sed: bool, start: nat, toks: seq<Token>, room: int)
    requires NulFree(pat) && Spells(pat, eof, start, toks)
    ensures var r := Spilled(pat, eof, sed, start + |TextOf(toks)|, toks, room);
      r.Some? ==> Overruns(pat, eof, sed, start, room, r.value)
    decreases Left(pat, start + |TextOf(toks)|)
  {
    hide IsToken, Text, NextToken, Spells, TextOf, Items, ItemsCode, SecondByte;
    var pos := start + |TextOf(toks)|;
    TokenSound(pat, eof, sed, pos, toks);
    TokenAdvance(pat, eof, sed, pos, toks);
    var next := NextToken(pat, eof, sed, pos, toks);
    var r := Spilled(pat, eof, sed, pos, toks, room);
    if r.Some? && !Spills(pat, eof, sed, pos, toks, room - |ItemsCode(Items(toks))|, r.value) {
      SpellsMore(pat, eof, start, toks, next.tok);
      SpilledSound(pat, eof, sed, start, toks + [next.tok], room);
    }
  }

  /** A second byte is stored for a token exactly when it makes the code two bytes longer, and it is then the last. */
  lemma {:induction false} SecondIsLast(pat: seq<byte>, eof: byte, sed: bool, pos: nat, toks: seq<Token>)
    requires NextToken(pat, eof, sed, pos, toks).Token?
    ensures var tok := NextToken(pat, eof, sed, pos, toks).tok;
      var p, q := ItemsCode(Items(toks)), ItemsCode(Items(toks + [tok]));
      SecondByte(pat, eof, sed, pos, toks) == if |q| == |p| + 2 then Some(q[|q| - 1]) else None
  {
    hide Items, ItemsCode, ItemCode, SecondByte, NextToken, Modified;
    var tok := NextToken(pat, eof, sed, pos, toks).tok;
    SecondOfToken(pat, eof, sed, pos, toks);
    ModifierHasItem(pat, eof, sed, pos, toks);
    if IsModifier(tok) {
      ChangedItem(toks, tok);
      var xs := Items(toks);
      ModifiedCode(xs[|xs| - 1], tok);
    } else {
      AddedItem(toks, tok);
      NewCode(BaseOf(toks, tok));
    }
  }

  lemma {:induction false} SecondOfToken(pat: seq<byte>, eof: byte, sed: bool, pos: nat, toks: seq<Token>)
    requires NextToken(pat, eof, sed, pos, toks).Token?
    ensures var tok := NextToken(pat, eof, sed, pos, toks).tok;
      SecondByte(pat, eof, sed, pos, toks) ==
        match tok
        case Asterisk => None
        case Interval(lo, hi) => Some(RangeOf(lo, hi).hi)
        case _ => OneOperand(BaseOf(toks, tok))
  {
    hide Items, LexNumber, LexMembers, Opens, Closes, Stack, Value, StarIsLiteral, SetOf;
  }

  lemma {:induction false} NewCode(base: Base)
    ensures var code := ItemCode(Item(base, false, []));
      OneOperand(base) == if |code| == 2 then Some(code[1]) else None
  {
    hide Opcode;
    assert RangeCode([]) == [];
  }

  lemma {:induction false} ChangesAnItem(pat: seq<byte>, eof: byte, pos: nat, before: seq<Token>, tok: Token)
    requires IsToken(pat, eof, pos, before, tok)
    ensures IsModifier(tok) ==> Items(before) != []
  {
    hide Items, Text, Reads, LegalInterval;
  }

  lemma {:induction false} PrefixCode(pat: seq<byte>, eof: byte, start: nat, toks: seq<Token>, n: nat)
    requires Spells(pat, eof, start, toks) && n <= |toks|
    ensures |ItemsCode(Items(toks[..n]))| <= |ItemsCode(Items(toks))|
  {
    hide Items, ItemsCode, TextOf, IsToken;
    if n == |toks| {
      assert toks[..n] == toks;
    } else {
      var before, tok := toks[..|toks| - 1], toks[|toks| - 1];
      assert before + [tok] == toks;
      ChangesAnItem(pat, eof, start + |TextOf(before)|, before, tok);
      CodeGrows(before, tok);
      PrefixCode(pat, eof, start, before, n);
      assert before[..n] == toks[..n];
    }
  }

  lemma {:induction false} SpilledComplete(pat: seq<byte>, eof: byte, sed: bool, start: nat, toks: seq<Token>,
                                           n: nat, room: int, b: byte)
    requires Spells(pat, eof, start, toks) && n <= |toks|
    requires Spills(pat, eof, sed, start + |TextOf(toks)|, toks, room - |ItemsCode(Items(toks))|, b)
    ensures Spilled(pat, eof, sed, start + |TextOf(toks[..n])|, toks[..n], room) == Some(b)
    decreases |toks| - n
  {
    hide IsToken, Text, NextToken, TextOf, Items, ItemsCode, SecondByte, Spilled;
    var before := toks[..n];
    var pos := start + |TextOf(before)|;
    SpilledStep(pat, eof, sed, pos, before, room);
    if n == |toks| {
      assert before == toks;
    } else {
      var tok := toks[n];
      SpellsPrefix(pat, eof, start, toks, n + 1);
      assert toks[..n + 1] == before + [tok] && toks[..n + 1][..n] == before;
      TextOfMore(before, tok);
      TokenComplete(pat, eof, sed, pos, before, tok);
      LastStep(pat, eof, sed, pos, before);
      PrefixCode(pat, eof, start, toks, n);
      PrefixCode(pat, eof, start, toks, n + 1);
      if SecondByte(pat, eof, sed, pos, before).Some? { SecondIsLast(pat, eof, sed, pos, before); }
      SpilledComplete(pat, eof, sed, start, toks, n + 1, room, b);
    }
  }

  /** Exactly when a byte is stored behind the buffer, and which. */
  lemma {:induction false} OverrunIff(pat: seq<byte>, eof: byte, sed: bool, start: nat, room: int, b: byte)
    requires NulFree(pat)
    ensures Spilled(pat, eof, sed, start, [], room) == Some(b) <==> Overruns(pat, eof, sed, start, room, b)
  {
    hide Spilled, Spills, Items, ItemsCode, Spells, TextOf;
    NoTokens(pat, eof, start);
    SpilledSound(pat, eof, sed, start, [], room);
    if Overruns(pat, eof, sed, start, room, b) {
      var toks :| Spells(pat, eof, start, toks)
        && Spills(pat, eof, sed, start + |TextOf(toks)|, toks, room - |ItemsCode(Items(toks))|, b);
      SpilledComplete(pat, eof, sed, start, toks, 0, room, b);
      assert toks[..0] == [];
    }
  }

  lemma {:induction false} StopStoresOne(pat: seq<byte>, eof: byte, sed: bool, pos: nat, toks: seq<Token>)
    ensures NextToken(pat, eof, sed, pos, toks).Stop? || Peek(pat, pos) == NEWLINE ==>
      SecondByte(pat, eof, sed, pos, toks).None?
  {
    hide Items, LexNumber, LexMembers, Opens, Closes, Stack, Value, SecondBound, StarIsLiteral;
  }

  /** A program that fits stays inside its buffer. */
  lemma {:induction false} FitsInside(pat: seq<byte>, eof: byte, sed: bool, pos: nat, toks: seq<Token>, room: int)
    requires var r := Parse(pat, eof, sed, pos, toks); r.Accept? && |Code(Items(r.toks))| <= room
    ensures Spilled(pat, eof, sed, pos, toks, room) == None
    decreases Left(pat, pos)
  {
    hide NextToken, Items, ItemsCode, Code, Parse, Spilled, SecondByte, Stack;
    var all := Parse(pat, eof, sed, pos, toks).toks;
    ParseStep(pat, eof, sed, pos, toks);
    SpilledStep(pat, eof, sed, pos, toks, room);
    LastStep(pat, eof, sed, pos, toks);
    ParseGrows(pat, eof, sed, pos, toks);
    CodeEnds(Items(all));
    var next := NextToken(pat, eof, sed, pos, toks);
    if next.Token? {
      if SecondByte(pat, eof, sed, pos, toks).Some? { SecondIsLast(pat, eof, sed, pos, toks); }
      ParseGrows(pat, eof, sed, next.end, toks + [next.tok]);
      FitsInside(pat, eof, sed, next.end, toks + [next.tok], room);
    } else {
      StopStoresOne(pat, eof, sed, pos, toks);
    }
  }
}
