/**
 The pattern language: tokens, their spelling, and the items a list of tokens stands for.

 A star or an interval changes the last item; every other token adds one.
 */
module Pattern {
  import opened Bytes
  import opened Program

  const NEWLINE: byte := 10
  const DOLLAR: byte := '$' as int
  const LPAREN: byte := '(' as int
  const RPAREN: byte := ')' as int
  const ASTERISK: byte := '*' as int
  const COMMA: byte := ',' as int
  const DASH: byte := '-' as int
  const PERIOD: byte := '.' as int
  const ZERO: byte := '0' as int
  const ONE: byte := '1' as int
  const NINE: byte := '9' as int
  const LBRACKET: byte := '[' as int
  const BACKSLASH: byte := '\\' as int
  const RBRACKET: byte := ']' as int
  const CARET: byte := '^' as int
  const LETTER_N: byte := 'n' as int
  const LBRACE: byte := '{' as int
  const RBRACE: byte := '}' as int

  /** A character of a bracket expression, or `-c`: the range from the character before it. */
  datatype Member = Single(c: byte) | To(c: byte)

  datatype Upper = Exact | Unbounded | UpTo(digits: seq<byte>)

  datatype Token =
    | Literal(c: byte)
    | Quoted(c: byte)
    | AnyChar
    | Bracket(neg: bool, body: seq<Member>, dash: bool)
    | GroupOpen
    | GroupClose
    | BackRef(g: byte)
    | EndAnchor
    | Asterisk
    | Interval(lo: seq<byte>, hi: Upper)

  // ----- spelling -----

  function MembersText(body: seq<Member>): seq<byte> {
    if body == [] then []
    else MembersText(body[..|body| - 1]) +
         match body[|body| - 1] { case Single(c) => [c] case To(c) => [DASH, c] }
  }

  function UpperText(hi: Upper): seq<byte> {
    match hi
    case Exact => []
    case Unbounded => [COMMA]
    case UpTo(digits) => [COMMA] + digits
  }

  function Text(tok: Token): (r: seq<byte>)
    ensures |r| >= 1
  {
    match tok
    case Literal(c) => [c]
    case Quoted(c) => [BACKSLASH, c]
    case AnyChar => [PERIOD]
    case Bracket(neg, body, dash) =>
      [LBRACKET] + (if neg then [CARET] else []) + MembersText(body) + (if dash then [DASH] else []) + [RBRACKET]
    case GroupOpen => [BACKSLASH, LPAREN]
    case GroupClose => [BACKSLASH, RPAREN]
    case BackRef(g) => [BACKSLASH, ToByte(ONE + g)]
    case EndAnchor => [DOLLAR]
    case Asterisk => [ASTERISK]
    case Interval(lo, hi) => [BACKSLASH, LBRACE] + lo + UpperText(hi) + [BACKSLASH, RBRACE]
  }

  // ----- numbers and sets -----

  function Value(digits: seq<byte>): int {
    if digits == [] then 0 else 10 * Value(digits[..|digits| - 1]) + digits[|digits| - 1] - ZERO
  }

  ghost predicate Digits(ds: seq<byte>) {
    ds != [] && forall x :: 0 <= x < |ds| ==> ZERO <= ds[x] <= NINE
  }

  /** `(char)n` */
  function ToByte(n: int): byte {
    n % 256
  }

  function LastChar(body: seq<Member>): byte {
    if body == [] then 0 else body[|body| - 1].c
  }

  predicate InSpan(lo: byte, x: byte, hi: byte) {
    lo <= x < hi
  }

  /** A range that runs backwards has only its two ends. */
  function SetOf(body: seq<Member>): set<byte> {
    if body == [] then {}
    else
      var before := body[..|body| - 1];
      match body[|body| - 1]
      case Single(c) => SetOf(before) + {c}
      case To(c) => SetOf(before) + (set x: byte | InSpan(LastChar(before), x, c)) + {c}
  }

  function Denoted(body: seq<Member>, dash: bool): set<byte> {
    SetOf(body) + if dash then {DASH} else {}
  }

  // ----- groups -----

  /** nbra */
  function Opens(toks: seq<Token>): nat {
    if toks == [] then 0
    else Opens(toks[..|toks| - 1]) + if toks[|toks| - 1].GroupOpen? then 1 else 0
  }

  /** closed */
  function Closes(toks: seq<Token>): nat {
    if toks == [] then 0
    else Closes(toks[..|toks| - 1]) + if toks[|toks| - 1].GroupClose? then 1 else 0
  }

  /** The numbers of the groups that are open, innermost last: bracket[..bracketp]. */
  function Stack(toks: seq<Token>): seq<byte> {
    if toks == [] then []
    else
      var before := toks[..|toks| - 1];
      var st := Stack(before);
      match toks[|toks| - 1]
      case GroupOpen => st + [ToByte(Opens(before))]
      case GroupClose => if st == [] then [] else st[..|st| - 1]
      case _ => st
  }

  lemma {:induction false} GroupsStep(toks: seq<Token>, tok: Token)
    ensures Opens(toks + [tok]) == Opens(toks) + (if tok.GroupOpen? then 1 else 0)
    ensures Closes(toks + [tok]) == Closes(toks) + (if tok.GroupClose? then 1 else 0)
    ensures Stack(toks + [tok]) ==
      if tok.GroupOpen? then Stack(toks) + [ToByte(Opens(toks))]
      else if tok.GroupClose? && Stack(toks) != [] then Stack(toks)[..|Stack(toks)| - 1]
      else Stack(toks)
  {
    assert (toks + [tok])[..|toks|] == toks;
  }

  // ----- items -----

  predicate IsModifier(tok: Token) {
    tok.Asterisk? || tok.Interval?
  }

  function BaseOf(before: seq<Token>, tok: Token): Base
    requires !IsModifier(tok)
  {
    match tok
    case Literal(c) => One(Chr(c))
    case Quoted(c) => One(Chr(if c == LETTER_N then NEWLINE else c))
    case AnyChar => One(Any)
    case Bracket(neg, body, dash) => One(Set(neg, Denoted(body, dash)))
    case GroupOpen => Open(ToByte(Opens(before)))
    case GroupClose => var st := Stack(before); Close(if st == [] then 0 else st[|st| - 1])
    case BackRef(g) => Back(g)
    case EndAnchor => Dol
  }

  function RangeOf(lo: seq<byte>, hi: Upper): Range {
    Range(ToByte(Value(lo)),
          match hi { case Exact => ToByte(Value(lo)) case Unbounded => 255 case UpTo(ds) => ToByte(Value(ds)) })
  }

  function Modified(x: Item, tok: Token): Item
    requires IsModifier(tok)
  {
    match tok
    case Asterisk => x.(star := true)
    case Interval(lo, hi) => x.(ranges := x.ranges + [RangeOf(lo, hi)])
  }

  function Items(toks: seq<Token>): seq<Item> {
    if toks == [] then []
    else
      var before, tok := toks[..|toks| - 1], toks[|toks| - 1];
      var xs := Items(before);
      if !IsModifier(tok) then xs + [Item(BaseOf(before, tok), false, [])]
      else if xs == [] then []
      else xs[..|xs| - 1] + [Modified(xs[|xs| - 1], tok)]
  }

  // ----- which token may come where -----

  /** At the start and right after a group bracket an asterisk stands for itself. */
  predicate StarIsLiteral(toks: seq<Token>) {
    var xs := Items(toks);
    xs == [] || (var x := xs[|xs| - 1]; (x.base.Open? || x.base.Close?) && !x.star && x.ranges == [])
  }

  ghost predicate LegalMember(body: seq<Member>, neg: bool, x: nat)
    requires x < |body|
  {
    match body[x]
    case Single(c) =>
      && c != 0 && c != NEWLINE
      && (x == 0 ==> neg || c != CARET)
      && (x != 0 ==> c != RBRACKET && c != DASH)
    case To(c) => x != 0 && c != 0 && c != RBRACKET
  }

  ghost predicate LegalBody(neg: bool, body: seq<Member>) {
    body != [] && forall x :: 0 <= x < |body| ==> LegalMember(body, neg, x)
  }

  ghost predicate LegalInterval(lo: seq<byte>, hi: Upper) {
    && Digits(lo) && Value(lo) < 255
    && (hi.UpTo? ==> Digits(hi.digits) && Value(lo) <= Value(hi.digits) < 255)
  }

  /** `tok` may follow `before`, with `next` the character behind it; `eof` is the delimiter. */
  ghost predicate Legal(before: seq<Token>, tok: Token, next: byte, eof: byte) {
    && Text(tok)[0] != eof
    && match tok
       case Literal(c) =>
         && c !in {0, NEWLINE, PERIOD, LBRACKET, BACKSLASH}
         && (c == ASTERISK ==> StarIsLiteral(before))
         && (c == DOLLAR ==> next != eof && next != NEWLINE)
       case Quoted(c) =>
         && c !in {LPAREN, RPAREN, NEWLINE}
         && !(ONE <= c <= NINE)
         && (c == LBRACE ==> Items(before) == [])
       case AnyChar => true
       case Bracket(neg, body, _) => LegalBody(neg, body)
       case GroupOpen => Opens(before) < NBRA
       case GroupClose => Stack(before) != []
       case BackRef(g) => g < NBRA && g < Closes(before)
       case EndAnchor => next == eof || next == NEWLINE
       case Asterisk => !StarIsLiteral(before)
       case Interval(lo, hi) => Items(before) != [] && LegalInterval(lo, hi)
  }

  /** The pattern, followed by NULs, reads `text` at `pos`. */
  ghost predicate Reads(pat: seq<byte>, pos: nat, text: seq<byte>) {
    forall x :: 0 <= x < |text| ==> Peek(pat, pos + x) == text[x]
  }

  /** `tok` is the token at `pos`. */
  ghost predicate IsToken(pat: seq<byte>, eof: byte, pos: nat, before: seq<Token>, tok: Token) {
    && Reads(pat, pos, Text(tok))
    && Legal(before, tok, Peek(pat, pos + |Text(tok)|), eof)
  }
}
