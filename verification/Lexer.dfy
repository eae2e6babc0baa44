/**
 Reading a pattern: the next token at a cursor position, and the run over the whole pattern.
 */
module Lexer {
  import opened Bytes
  import opened Program
  import opened Pattern

  /** Characters left, past-the-end NULs not counted. */
  ghost function Left(pat: seq<byte>, pos: nat): nat {
    if pos <= |pat| then |pat| - pos + 1 else 0
  }

  // ----- bracket expressions -----

  /** `read` is what was taken before a NUL or a newline. */
  datatype Members = Body(body: seq<Member>, dash: bool, end: nat) | NoBody(read: seq<Member>)

  /** The members from `pos` on, behind those already in `acc`. */
  function LexMembers(pat: seq<byte>, pos: nat, acc: seq<Member>): Members
    decreases Left(pat, pos), 0
  {
    var c := Peek(pat, pos);
    if c == 0 || c == NEWLINE then NoBody(acc)
    else if c == DASH && acc != [] then
      if Peek(pat, pos + 1) == RBRACKET then Body(acc, true, pos + 2)
      else LexRest(pat, pos + 2, acc + [To(Peek(pat, pos + 1))])
    else LexRest(pat, pos + 1, acc + [Single(c)])
  }

  function LexRest(pat: seq<byte>, pos: nat, acc: seq<Member>): Members
    decreases Left(pat, pos), 1
  {
    if Peek(pat, pos) == RBRACKET then Body(acc, false, pos + 1) else LexMembers(pat, pos, acc)
  }

  function Taken(r: Members): seq<Member> {
    match r { case Body(body, _, _) => body case NoBody(read) => read }
  }

  // ----- intervals -----

  datatype Number = Number(digits: seq<byte>, end: nat) | NoNumber

  predicate IsDigit(c: byte) {
    ZERO <= c <= NINE
  }

  /** Digits up to a backslash or a comma. */
  function LexNumber(pat: seq<byte>, pos: nat, acc: seq<byte>): Number
    decreases Left(pat, pos)
  {
    var c := Peek(pat, pos);
    if !IsDigit(c) then NoNumber
    else if Peek(pat, pos + 1) == BACKSLASH || Peek(pat, pos + 1) == COMMA then Number(acc + [c], pos + 1)
    else LexNumber(pat, pos + 1, acc + [c])
  }

  datatype Next = Token(tok: Token, end: nat) | Stop | Wrong(code: nat)

  function ClosingBrace(pat: seq<byte>, pos: nat, lo: seq<byte>, hi: Upper): Next {
    if Peek(pat, pos) != RBRACE then Wrong(45)
    else if hi.UpTo? && Value(hi.digits) < Value(lo) then Wrong(46)
    else Token(Interval(lo, hi), pos + 1)
  }

  function LexInterval(pat: seq<byte>, pos: nat): Next {
    match LexNumber(pat, pos, [])
    case NoNumber => Wrong(16)
    case Number(lo, mid) =>
      if Value(lo) >= 255 then Wrong(11)
      else if Peek(pat, mid) == BACKSLASH then ClosingBrace(pat, mid + 1, lo, Exact)
      else if Peek(pat, mid + 1) == BACKSLASH then ClosingBrace(pat, mid + 2, lo, Unbounded)
      else
        match LexNumber(pat, mid + 1, [])
        case NoNumber => Wrong(16)
        case Number(hi, end) =>
          if Value(hi) >= 255 then Wrong(11)
          else if Peek(pat, end) == COMMA then Wrong(44)
          else ClosingBrace(pat, end + 1, lo, UpTo(hi))
  }

  /** The second bound byte of the interval behind `\{`, when it is stored: which is before some of the errors. */
  function SecondBound(pat: seq<byte>, pos: nat): Option<byte> {
    match LexNumber(pat, pos, [])
    case NoNumber => None
    case Number(lo, mid) =>
      if Value(lo) >= 255 then None
      else if Peek(pat, mid) == BACKSLASH then
        if Peek(pat, mid + 1) == RBRACE then Some(ToByte(Value(lo))) else None
      else if Peek(pat, mid + 1) == BACKSLASH then Some(255)
      else
        match LexNumber(pat, mid + 1, [])
        case NoNumber => None
        case Number(hi, _) => if Value(hi) >= 255 then None else Some(ToByte(Value(hi)))
  }

  lemma {:induction false} SecondIsStored(pat: seq<byte>, pos: nat)
    ensures LexInterval(pat, pos).Token? ==> SecondBound(pat, pos).Some?
  {
    hide LexNumber, Value;
  }

  // ----- tokens -----

  function LexBracket(pat: seq<byte>, pos: nat): Next {
    var neg := Peek(pat, pos) == CARET;
    match LexMembers(pat, if neg then pos + 1 else pos, [])
    case NoBody(_) => Wrong(49)
    case Body(body, dash, end) => Token(Bracket(neg, body, dash), end)
  }

  /** The buffer must have more room than this for the bracket expression behind `[`, as far as it is read. */
  ghost function ClassRoom(pat: seq<byte>, pos: nat): nat {
    var start := if Peek(pat, pos) == CARET then pos + 1 else pos;
    if Wide(SetOf(Taken(LexMembers(pat, start, [])))) then 33 else 17
  }

  function LexEscape(pat: seq<byte>, pos: nat, before: seq<Token>): Next {
    var c := Peek(pat, pos);
    if c == LPAREN then if Opens(before) >= NBRA then Wrong(43) else Token(GroupOpen, pos + 1)
    else if c == RPAREN then if Stack(before) == [] then Wrong(42) else Token(GroupClose, pos + 1)
    else if c == LBRACE && Items(before) != [] then LexInterval(pat, pos + 1)
    else if c == NEWLINE then Wrong(36)
    else if ONE <= c <= NINE then
      if c - ONE >= Closes(before) then Wrong(25) else Token(BackRef(c - ONE), pos + 1)
    else Token(Quoted(c), pos + 1)
  }

  function NextToken(pat: seq<byte>, eof: byte, sed: bool, pos: nat, before: seq<Token>): Next {
    var c := Peek(pat, pos);
    if c == eof then Stop
    else if c == PERIOD then Token(AnyChar, pos + 1)
    else if c == NEWLINE then if sed then Wrong(36) else Stop
    else if c == ASTERISK then Token(if StarIsLiteral(before) then Literal(c) else Asterisk, pos + 1)
    else if c == DOLLAR then
      Token(if Peek(pat, pos + 1) != eof && Peek(pat, pos + 1) != NEWLINE then Literal(c) else EndAnchor, pos + 1)
    else if c == LBRACKET then LexBracket(pat, pos + 1)
    else if c == BACKSLASH then LexEscape(pat, pos + 1, before)
    else if c == 0 then Wrong(50)  // the pattern has no delimiter: the buffer fills up
    else Token(Literal(c), pos + 1)
  }

  // ----- the whole pattern -----

  /** A pattern that is rejected is correct up to `at`, where it reads `sofar`. */
  datatype Parsed = Accept(toks: seq<Token>, end: nat) | Reject(code: nat, sofar: seq<Token>, at: nat)

  lemma {:induction false} MembersAdvance(pat: seq<byte>, pos: nat, acc: seq<Member>)
    ensures LexMembers(pat, pos, acc).Body? ==> LexMembers(pat, pos, acc).end > pos + 1
    decreases Left(pat, pos)
  {
    var c := Peek(pat, pos);
    if c != 0 && c != NEWLINE {
      MembersAdvance(pat, pos + 1, acc + [Single(c)]);
      MembersAdvance(pat, pos + 2, acc + [To(Peek(pat, pos + 1))]);
    }
  }

  lemma {:induction false} NumberAdvance(pat: seq<byte>, pos: nat, acc: seq<byte>)
    ensures var r := LexNumber(pat, pos, acc);
      r.Number? ==> r.end > pos && (Peek(pat, r.end) == BACKSLASH || Peek(pat, r.end) == COMMA)
    decreases Left(pat, pos)
  {
    var c := Peek(pat, pos);
    if IsDigit(c) { NumberAdvance(pat, pos + 1, acc + [c]); }
  }

  lemma {:induction false} TokenAdvance(pat: seq<byte>, eof: byte, sed: bool, pos: nat, before: seq<Token>)
    ensures var r := NextToken(pat, eof, sed, pos, before); r.Token? ==> r.end > pos && pos < |pat|
  {
    hide LexBracket, LexEscape, StarIsLiteral;
    BracketAdvance(pat, pos + 1);
    EscapeAdvance(pat, pos + 1, before);
  }

  lemma {:induction false} BracketAdvance(pat: seq<byte>, pos: nat)
    ensures LexBracket(pat, pos).Token? ==> LexBracket(pat, pos).end > pos
  {
    hide LexMembers;
    MembersAdvance(pat, pos, []);
    MembersAdvance(pat, pos + 1, []);
  }

  lemma {:induction false} IntervalAdvance(pat: seq<byte>, pos: nat)
    ensures LexInterval(pat, pos).Token? ==> LexInterval(pat, pos).end > pos
  {
    hide LexNumber, Value;
    NumberAdvance(pat, pos, []);
    match LexNumber(pat, pos, [])
    case NoNumber =>
    case Number(_, mid) => NumberAdvance(pat, mid + 1, []);
  }

  lemma {:induction false} EscapeAdvance(pat: seq<byte>, pos: nat, before: seq<Token>)
    ensures LexEscape(pat, pos, before).Token? ==> LexEscape(pat, pos, before).end > pos
  {
    hide LexInterval, Opens, Closes, Stack, Items;
    IntervalAdvance(pat, pos + 1);
  }

  ghost function Parse(pat: seq<byte>, eof: byte, sed: bool, pos: nat, toks: seq<Token>): Parsed
    decreases Left(pat, pos)
  {
    TokenAdvance(pat, eof, sed, pos, toks);
    match NextToken(pat, eof, sed, pos, toks)
    case Token(tok, end) => Parse(pat, eof, sed, end, toks + [tok])
    case Stop => if Stack(toks) == [] then Accept(toks, pos) else Reject(42, toks, pos)
    case Wrong(code) => Reject(code, toks, pos)
  }
}
