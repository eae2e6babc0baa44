/**
 The reader and the grammar agree: a pattern is accepted with a list of tokens exactly when
 the tokens, each legal where it stands, spell the pattern up to its delimiter.
 */
module Grammar {
  import opened Bytes
  import opened Pattern
  import opened Lexer

  lemma {:induction false} ReadsJoin(pat: seq<byte>, pos: nat, a: seq<byte>, b: seq<byte>)
    ensures Reads(pat, pos, a + b) <==> Reads(pat, pos, a) && Reads(pat, pos + |a|, b)
  {
    if Reads(pat, pos, a + b) {
      forall x | 0 <= x < |a| ensures Peek(pat, pos + x) == a[x] {
        assert (a + b)[x] == a[x];
      }
      forall x | 0 <= x < |b| ensures Peek(pat, pos + |a| + x) == b[x] {
        assert (a + b)[|a| + x] == b[x];
      }
    }
    if Reads(pat, pos, a) && Reads(pat, pos + |a|, b) {
      forall x | 0 <= x < |a + b| ensures Peek(pat, pos + x) == (a + b)[x] {
        if x >= |a| { assert Peek(pat, pos + |a| + (x - |a|)) == b[x - |a|]; }
      }
    }
  }

  lemma {:induction false} ReadsOne(pat: seq<byte>, pos: nat, c: byte)
    ensures Reads(pat, pos, [c]) <==> Peek(pat, pos) == c
  {
    if Reads(pat, pos, [c]) { assert Peek(pat, pos + 0) == [c][0]; }
  }

  lemma {:induction false} ReadsTwo(pat: seq<byte>, pos: nat, c: byte, d: byte)
    ensures Reads(pat, pos, [c, d]) <==> Peek(pat, pos) == c && Peek(pat, pos + 1) == d
  {
    if Reads(pat, pos, [c, d]) { assert Peek(pat, pos + 0) == [c, d][0] && Peek(pat, pos + 1) == [c, d][1]; }
  }

  lemma {:induction false} ReadsFirst(pat: seq<byte>, pos: nat, text: seq<byte>)
    requires Reads(pat, pos, text) && text != []
    ensures Peek(pat, pos) == text[0]
  {
    assert Peek(pat, pos + 0) == text[0];
  }

  // ----- bracket expressions -----

  function MemberText(m: Member): seq<byte> {
    match m { case Single(c) => [c] case To(c) => [DASH, c] }
  }

  function BodyEnd(dash: bool): seq<byte> {
    (if dash then [DASH] else []) + [RBRACKET]
  }

  lemma {:induction false} AddMember(acc: seq<Member>, m: Member)
    ensures MembersText(acc + [m]) == MembersText(acc) + MemberText(m)
  {
    assert (acc + [m])[..|acc|] == acc;
  }

  lemma {:induction false} LegalPrefix(neg: bool, body: seq<Member>, m: Member)
    requires body == [] || LegalBody(neg, body)
    requires LegalMember(body + [m], neg, |body|)
    ensures LegalBody(neg, body + [m])
  {
    forall x | 0 <= x < |body + [m]| ensures LegalMember(body + [m], neg, x) {
      if x < |body| { assert LegalMember(body, neg, x); }
    }
  }

  /** The member that the reader takes at `pos`. */
  function MemberAt(pat: seq<byte>, pos: nat, acc: seq<Member>): Member {
    if Peek(pat, pos) == DASH && acc != [] then To(Peek(pat, pos + 1)) else Single(Peek(pat, pos))
  }

  /** One turn of the reader. */
  lemma {:induction false} ReadMember(pat: seq<byte>, pos: nat, acc: seq<Member>)
    ensures var c := Peek(pat, pos);
      LexMembers(pat, pos, acc) ==
        if c == 0 || c == NEWLINE then NoBody(acc)
        else if c == DASH && acc != [] && Peek(pat, pos + 1) == RBRACKET then Body(acc, true, pos + 2)
        else
          var m := MemberAt(pat, pos, acc);
          var end := pos + |MemberText(m)|;
          if Peek(pat, end) == RBRACKET then Body(acc + [m], false, end + 1) else LexMembers(pat, end, acc + [m])
  {
    var m := MemberAt(pat, pos, acc);
    assert LexRest(pat, pos + |MemberText(m)|, acc + [m]) ==
      if Peek(pat, pos + |MemberText(m)|) == RBRACKET
      then Body(acc + [m], false, pos + |MemberText(m)| + 1)
      else LexMembers(pat, pos + |MemberText(m)|, acc + [m]);
  }

  lemma {:induction false} TakeMember(pat: seq<byte>, start: nat, neg: bool, acc: seq<Member>)
    requires (acc == [] || LegalBody(neg, acc)) && Reads(pat, start, MembersText(acc))
    requires acc == [] ==> neg || Peek(pat, start) != CARET
    requires acc != [] ==> Peek(pat, start + |MembersText(acc)|) != RBRACKET
    requires var pos := start + |MembersText(acc)|;
      Peek(pat, pos) != 0 && Peek(pat, pos) != NEWLINE && MemberAt(pat, pos, acc).c != 0 &&
      !(Peek(pat, pos) == DASH && acc != [] && Peek(pat, pos + 1) == RBRACKET)
    ensures var more := acc + [MemberAt(pat, start + |MembersText(acc)|, acc)];
      LegalBody(neg, more) && Reads(pat, start, MembersText(more)) && |MembersText(more)| > |MembersText(acc)|
  {
    assert MembersText([]) == [];
    hide MembersText, LegalBody, Reads;
    var pos := start + |MembersText(acc)|;
    var m := MemberAt(pat, pos, acc);
    AddMember(acc, m);
    ReadsJoin(pat, start, MembersText(acc), MemberText(m));
    ReadsOne(pat, pos, m.c);
    ReadsTwo(pat, pos, DASH, m.c);
    LegalPrefix(neg, acc, m);
  }

  /** What the bracket reader returns is legal and spells the text. */
  lemma {:induction false} MembersSound(pat: seq<byte>, start: nat, neg: bool, acc: seq<Member>)
    requires NulFree(pat) && (acc == [] || LegalBody(neg, acc)) && Reads(pat, start, MembersText(acc))
    requires acc == [] ==> neg || Peek(pat, start) != CARET
    requires acc != [] ==> Peek(pat, start + |MembersText(acc)|) != RBRACKET
    ensures match LexMembers(pat, start + |MembersText(acc)|, acc)
      case Body(body, dash, end) =>
        && LegalBody(neg, body)
        && Reads(pat, start, MembersText(body) + BodyEnd(dash))
        && end == start + |MembersText(body) + BodyEnd(dash)|
      case NoBody(_) => true
    decreases Left(pat, start + |MembersText(acc)|)
  {
    hide LegalBody, LexMembers, LexRest, MembersText;
    var pos := start + |MembersText(acc)|;
    var c := Peek(pat, pos);
    ReadMember(pat, pos, acc);
    if c == 0 || c == NEWLINE {
    } else if c == DASH && acc != [] && Peek(pat, pos + 1) == RBRACKET {
      ReadsJoin(pat, start, MembersText(acc), BodyEnd(true));
    } else {
      var m := MemberAt(pat, pos, acc);
      var more := acc + [m];
      AddMember(acc, m);
      var at := start + |MembersText(more)|;
      if m.c == 0 {
        ReadMember(pat, at, more);
      } else {
        TakeMember(pat, start, neg, acc);
        if Peek(pat, at) == RBRACKET {
          ReadsJoin(pat, start, MembersText(more), BodyEnd(false));
        } else {
          MembersSound(pat, start, neg, more);
        }
      }
    }
  }

  lemma {:induction false} MembersPrefix(body: seq<Member>, n: nat)
    requires n <= |body|
    ensures MembersText(body[..n]) <= MembersText(body)
    decreases |body|
  {
    if n < |body| {
      MembersPrefix(body[..|body| - 1], n);
      assert body[..|body| - 1][..n] == body[..n];
    } else {
      assert body[..n] == body;
    }
  }

  /** The reader takes member `n` of a legal body. */
  lemma {:induction false} MemberBack(pat: seq<byte>, start: nat, neg: bool, body: seq<Member>, n: nat)
    requires LegalBody(neg, body) && Reads(pat, start, MembersText(body)) && n < |body|
    ensures var pos := start + |MembersText(body[..n])|;
      && Peek(pat, pos) != 0 && Peek(pat, pos) != NEWLINE
      && MemberAt(pat, pos, body[..n]) == body[n]
      && !(Peek(pat, pos) == DASH && n != 0 && Peek(pat, pos + 1) == RBRACKET)
      && start + |MembersText(body[..n + 1])| == if body[n].To? then pos + 2 else pos + 1
  {
    var m := body[n];
    assert LegalMember(body, neg, n);
    hide LegalBody, MembersText;
    assert body[..n + 1] == body[..n] + [m];
    AddMember(body[..n], m);
    MembersPrefix(body, n + 1);
    var at := |MembersText(body[..n])|;
    assert MembersText(body)[..at + |MemberText(m)|] == MembersText(body[..n]) + MemberText(m);
    assert Peek(pat, start + at) == MembersText(body)[at] == MemberText(m)[0];
    if m.To? {
      assert Peek(pat, start + (at + 1)) == MembersText(body)[at + 1] == MemberText(m)[1];
    }
  }

  lemma {:induction false} EndRead(pat: seq<byte>, pos: nat, dash: bool)
    requires Reads(pat, pos, BodyEnd(dash))
    ensures Peek(pat, pos) == if dash then DASH else RBRACKET
    ensures dash ==> Peek(pat, pos + 1) == RBRACKET
  {
    assert Peek(pat, pos + 0) == BodyEnd(dash)[0];
    if dash { assert Peek(pat, pos + 1) == BodyEnd(dash)[1]; }
  }

  lemma {:induction false} NotEmpty(neg: bool, body: seq<Member>, dash: bool)
    requires LegalBody(neg, body)
    ensures body != [] && |BodyEnd(dash)| == if dash then 2 else 1
  {
  }

  /** A legal body is read back as it was spelled. */
  lemma {:induction false} MembersComplete(pat: seq<byte>, start: nat, neg: bool, body: seq<Member>, dash: bool, n: nat)
    requires LegalBody(neg, body) && Reads(pat, start, MembersText(body) + BodyEnd(dash))
    requires n < |body| || (n == |body| && dash)
    ensures LexMembers(pat, start + |MembersText(body[..n])|, body[..n])
         == Body(body, dash, start + |MembersText(body) + BodyEnd(dash)|)
    decreases |body| - n
  {
    hide Reads, LexMembers, LexRest, MembersText, LegalBody, BodyEnd;
    NotEmpty(neg, body, dash);
    ReadsJoin(pat, start, MembersText(body), BodyEnd(dash));
    ReadMember(pat, start + |MembersText(body[..n])|, body[..n]);
    if n == |body| {
      assert body[..n] == body;
      EndRead(pat, start + |MembersText(body)|, dash);
    } else {
      MemberBack(pat, start, neg, body, n);
      NextIsRest(pat, start, neg, body, dash, n + 1);
      assert body[..n + 1] == body[..n] + [body[n]];
      if n + 1 < |body| || dash {
        MembersComplete(pat, start, neg, body, dash, n + 1);
      } else {
        assert body[..n + 1] == body;
      }
    }
  }

  /** Behind member `n - 1` comes a closing bracket only if the body ends there. */
  lemma {:induction false} NextIsRest(pat: seq<byte>, start: nat, neg: bool, body: seq<Member>, dash: bool, n: nat)
    requires LegalBody(neg, body) && Reads(pat, start, MembersText(body) + BodyEnd(dash)) && 0 < n <= |body|
    ensures Peek(pat, start + |MembersText(body[..n])|) == RBRACKET <==> n == |body| && !dash
  {
    ReadsJoin(pat, start, MembersText(body), BodyEnd(dash));
    if n == |body| {
      assert body[..n] == body;
      EndRead(pat, start + |MembersText(body)|, dash);
    } else {
      assert LegalMember(body, neg, n);
      assert body[..n + 1] == body[..n] + [body[n]];
      AddMember(body[..n], body[n]);
      MembersPrefix(body, n + 1);
      assert Peek(pat, start + |MembersText(body[..n])|) == MembersText(body)[|MembersText(body[..n])|];
    }
  }

  // ----- numbers -----

  ghost predicate AtDelimiter(pat: seq<byte>, pos: nat) {
    Peek(pat, pos) == BACKSLASH || Peek(pat, pos) == COMMA
  }

  lemma {:induction false} NumberSound(pat: seq<byte>, start: nat, acc: seq<byte>)
    requires acc == [] || Digits(acc)
    requires Reads(pat, start, acc)
    ensures match LexNumber(pat, start + |acc|, acc)
      case Number(digits, end) =>
        Digits(digits) && Reads(pat, start, digits) && end == start + |digits| && AtDelimiter(pat, end)
      case NoNumber => true
    decreases Left(pat, start + |acc|)
  {
    var c := Peek(pat, start + |acc|);
    if IsDigit(c) {
      ReadsJoin(pat, start, acc, [c]);
      if !AtDelimiter(pat, start + |acc| + 1) { NumberSound(pat, start, acc + [c]); }
    }
  }

  lemma {:induction false} NumberComplete(pat: seq<byte>, start: nat, digits: seq<byte>, n: nat)
    requires Digits(digits) && Reads(pat, start, digits) && n < |digits| && AtDelimiter(pat, start + |digits|)
    ensures LexNumber(pat, start + n, digits[..n]) == Number(digits, start + |digits|)
    decreases |digits| - n
  {
    assert Peek(pat, start + n) == digits[n];
    assert digits[..n + 1] == digits[..n] + [digits[n]];
    if n + 1 < |digits| {
      assert Peek(pat, start + n + 1) == digits[n + 1];
      NumberComplete(pat, start, digits, n + 1);
    } else {
      assert digits[..n + 1] == digits;
    }
  }

  // ----- tokens -----

  /** The pieces of a spelled bracket expression. */
  lemma {:induction false} JoinBracket(pat: seq<byte>, pos: nat, neg: bool, body: seq<Member>, dash: bool)
    ensures
      var start, rest := if neg then pos + 2 else pos + 1, MembersText(body) + BodyEnd(dash);
      && (Reads(pat, pos, Text(Bracket(neg, body, dash))) <==>
           Peek(pat, pos) == LBRACKET && (neg ==> Peek(pat, pos + 1) == CARET) && Reads(pat, start, rest))
      && pos + |Text(Bracket(neg, body, dash))| == start + |rest|
  {
    hide MembersText, Reads, Text, BodyEnd;
    var head := if neg then [LBRACKET, CARET] else [LBRACKET];
    var rest := MembersText(body) + BodyEnd(dash);
    TextOfBracket(neg, body, dash);
    ReadsJoin(pat, pos, head, rest);
    ReadsTwo(pat, pos, LBRACKET, CARET);
    ReadsOne(pat, pos, LBRACKET);
  }

  lemma {:induction false} TextOfBracket(neg: bool, body: seq<Member>, dash: bool)
    ensures Text(Bracket(neg, body, dash)) ==
      (if neg then [LBRACKET, CARET] else [LBRACKET]) + (MembersText(body) + BodyEnd(dash))
  {
    hide MembersText;
  }

  lemma {:induction false} MembersAt(pat: seq<byte>, start: nat, neg: bool)
    requires NulFree(pat) && (neg || Peek(pat, start) != CARET)
    ensures match LexMembers(pat, start, [])
      case Body(body, dash, end) =>
        && LegalBody(neg, body)
        && Reads(pat, start, MembersText(body) + BodyEnd(dash))
        && end == start + |MembersText(body) + BodyEnd(dash)|
      case NoBody(_) => true
  {
    assert MembersText([]) == [];
    MembersSound(pat, start, neg, []);
  }

  lemma {:induction false} BracketSound(pat: seq<byte>, pos: nat)
    requires NulFree(pat) && Peek(pat, pos) == LBRACKET
    ensures var r := LexBracket(pat, pos + 1);
      r.Token? ==>
        && r.tok.Bracket? && LegalBody(r.tok.neg, r.tok.body)
        && Reads(pat, pos, Text(r.tok)) && r.end == pos + |Text(r.tok)|
    ensures !LexBracket(pat, pos + 1).Stop?
  {
    hide Reads, LexMembers, MembersText, BodyEnd, LegalBody, Text;
    var neg := Peek(pat, pos + 1) == CARET;
    MembersAt(pat, if neg then pos + 2 else pos + 1, neg);
    match LexMembers(pat, if neg then pos + 2 else pos + 1, [])
    case Body(body, dash, _) => JoinBracket(pat, pos, neg, body, dash);
    case NoBody(_) =>
  }

  lemma {:induction false} BracketComplete(pat: seq<byte>, pos: nat, tok: Token)
    requires tok.Bracket? && LegalBody(tok.neg, tok.body) && Reads(pat, pos, Text(tok))
    ensures LexBracket(pat, pos + 1) == Next.Token(tok, pos + |Text(tok)|)
  {
    hide Reads, LexMembers, MembersText, BodyEnd, Text;
    var start := if tok.neg then pos + 2 else pos + 1;
    JoinBracket(pat, pos, tok.neg, tok.body, tok.dash);
    FirstMember(pat, start, tok.neg, tok.body, tok.dash);
  }

  lemma {:induction false} FirstMember(pat: seq<byte>, start: nat, neg: bool, body: seq<Member>, dash: bool)
    requires LegalBody(neg, body) && Reads(pat, start, MembersText(body) + BodyEnd(dash))
    ensures !neg ==> Peek(pat, start) != CARET
    ensures LexMembers(pat, start, []) == Body(body, dash, start + |MembersText(body) + BodyEnd(dash)|)
  {
    assert body[..0] == [] && MembersText([]) == [];
    assert LegalMember(body, neg, 0);
    hide Reads, LexMembers, MembersText, BodyEnd, LegalBody;
    ReadsJoin(pat, start, MembersText(body), BodyEnd(dash));
    MemberBack(pat, start, neg, body, 0);
    MembersComplete(pat, start, neg, body, dash, 0);
  }

  /** The pieces of a spelled interval. */
  lemma {:induction false} JoinInterval(pat: seq<byte>, pos: nat, lo: seq<byte>, hi: Upper)
    ensures
      var mid := pos + 2 + |lo|;
      var close := mid + |UpperText(hi)|;
      Reads(pat, pos, Text(Interval(lo, hi))) <==>
        && Peek(pat, pos) == BACKSLASH && Peek(pat, pos + 1) == LBRACE && Reads(pat, pos + 2, lo)
        && (hi.Exact? || Peek(pat, mid) == COMMA)
        && (hi.UpTo? ==> Reads(pat, mid + 1, hi.digits))
        && Peek(pat, close) == BACKSLASH && Peek(pat, close + 1) == RBRACE
    ensures |Text(Interval(lo, hi))| == |lo| + |UpperText(hi)| + 4
  {
    hide Reads, UpperText, Text;
    TextOfInterval(lo, hi);
    var head, mid := [BACKSLASH, LBRACE], pos + 2 + |lo|;
    ReadsJoin(pat, pos, head + lo + UpperText(hi), [BACKSLASH, RBRACE]);
    ReadsJoin(pat, pos, head + lo, UpperText(hi));
    ReadsJoin(pat, pos, head, lo);
    ReadsTwo(pat, pos, BACKSLASH, LBRACE);
    ReadsTwo(pat, mid + |UpperText(hi)|, BACKSLASH, RBRACE);
    JoinUpper(pat, mid, hi);
  }

  lemma {:induction false} TextOfInterval(lo: seq<byte>, hi: Upper)
    ensures Text(Interval(lo, hi)) == [BACKSLASH, LBRACE] + lo + UpperText(hi) + [BACKSLASH, RBRACE]
  {
    hide UpperText;
  }

  lemma {:induction false} JoinUpper(pat: seq<byte>, mid: nat, hi: Upper)
    ensures Reads(pat, mid, UpperText(hi)) <==>
      (hi.Exact? || Peek(pat, mid) == COMMA) && (hi.UpTo? ==> Reads(pat, mid + 1, hi.digits))
  {
    ReadsOne(pat, mid, COMMA);
    if hi.UpTo? { ReadsJoin(pat, mid, [COMMA], hi.digits); }
  }

  lemma {:induction false} NumberAt(pat: seq<byte>, pos: nat)
    ensures match LexNumber(pat, pos, [])
      case Number(digits, end) =>
        Digits(digits) && Reads(pat, pos, digits) && end == pos + |digits| && AtDelimiter(pat, end)
      case NoNumber => true
  {
    NumberSound(pat, pos, []);
  }

  /** The interval reader, with its digits and bounds. */
  lemma {:induction false} IntervalSound(pat: seq<byte>, pos: nat)
    requires Peek(pat, pos) == BACKSLASH && Peek(pat, pos + 1) == LBRACE
    ensures var r := LexInterval(pat, pos + 2);
      r.Token? ==>
        && r.tok.Interval? && LegalInterval(r.tok.lo, r.tok.hi)
        && Reads(pat, pos, Text(r.tok)) && r.end == pos + |Text(r.tok)|
    ensures !LexInterval(pat, pos + 2).Stop?
  {
    hide Reads, LexNumber, Digits, Text, Value, ClosingBrace;
    NumberAt(pat, pos + 2);
    match LexNumber(pat, pos + 2, [])
    case NoNumber =>
    case Number(lo, mid) =>
      if Value(lo) < 255 {
        if Peek(pat, mid) == BACKSLASH {
          CloseSound(pat, pos, lo, Exact);
        } else if Peek(pat, mid + 1) == BACKSLASH {
          CloseSound(pat, pos, lo, Unbounded);
        } else {
          NumberAt(pat, mid + 1);
          match LexNumber(pat, mid + 1, [])
          case NoNumber =>
          case Number(hi, end) =>
            if Value(hi) < 255 && Peek(pat, end) != COMMA { CloseSound(pat, pos, lo, UpTo(hi)); }
        }
      }
  }

  lemma {:induction false} CloseSound(pat: seq<byte>, pos: nat, lo: seq<byte>, hi: Upper)
    requires Peek(pat, pos) == BACKSLASH && Peek(pat, pos + 1) == LBRACE && Reads(pat, pos + 2, lo)
    requires Digits(lo) && Value(lo) < 255 && (hi.UpTo? ==> Digits(hi.digits) && Value(hi.digits) < 255)
    requires hi.Exact? || Peek(pat, pos + 2 + |lo|) == COMMA
    requires hi.UpTo? ==> Reads(pat, pos + 2 + |lo| + 1, hi.digits)
    requires Peek(pat, pos + 2 + |lo| + |UpperText(hi)|) == BACKSLASH
    ensures var r := ClosingBrace(pat, pos + 2 + |lo| + |UpperText(hi)| + 1, lo, hi);
      r.Token? ==>
        && r.tok == Interval(lo, hi) && LegalInterval(lo, hi)
        && Reads(pat, pos, Text(r.tok)) && r.end == pos + |Text(r.tok)|
    ensures !ClosingBrace(pat, pos + 2 + |lo| + |UpperText(hi)| + 1, lo, hi).Stop?
  {
    hide Reads, Digits, Text, Value;
    JoinInterval(pat, pos, lo, hi);
  }

  lemma {:induction false} IntervalComplete(pat: seq<byte>, pos: nat, tok: Token)
    requires tok.Interval? && LegalInterval(tok.lo, tok.hi) && Reads(pat, pos, Text(tok))
    ensures LexInterval(pat, pos + 2) == Next.Token(tok, pos + |Text(tok)|)
  {
    var lo, hi := tok.lo, tok.hi;
    JoinInterval(pat, pos, lo, hi);
    var mid := pos + 2 + |lo|;
    NumberComplete(pat, pos + 2, lo, 0);
    if hi.UpTo? {
      ReadsFirst(pat, mid + 1, hi.digits);
      NumberComplete(pat, mid + 1, hi.digits, 0);
    }
  }

  lemma {:induction false} EscapeSound(pat: seq<byte>, eof: byte, pos: nat, before: seq<Token>)
    requires NulFree(pat) && Peek(pat, pos) == BACKSLASH != eof
    ensures var r := LexEscape(pat, pos + 1, before);
      r.Token? ==> IsToken(pat, eof, pos, before, r.tok) && r.end == pos + |Text(r.tok)|
    ensures !LexEscape(pat, pos + 1, before).Stop?
  {
    hide Reads, LexInterval, Items, Opens, Closes, Stack, LegalInterval;
    var c := Peek(pat, pos + 1);
    ReadsTwo(pat, pos, BACKSLASH, c);
    if c == LBRACE { IntervalSound(pat, pos); }
  }

  /** The token that is read is legal where it stands and spells the text up to the new position. */
  lemma {:induction false} TokenSound(pat: seq<byte>, eof: byte, sed: bool, pos: nat, before: seq<Token>)
    requires NulFree(pat)
    ensures var r := NextToken(pat, eof, sed, pos, before);
      r.Token? ==> IsToken(pat, eof, pos, before, r.tok) && r.end == pos + |Text(r.tok)|
    ensures NextToken(pat, eof, sed, pos, before).Stop? ==> Delimited(pat, eof, sed, pos)
  {
    hide Reads, LexBracket, LexEscape, Items, Opens, Closes, Stack, LegalBody, StarIsLiteral;
    var c := Peek(pat, pos);
    if c == eof {
    } else if c == LBRACKET {
      BracketSound(pat, pos);
    } else if c == BACKSLASH {
      EscapeSound(pat, eof, pos, before);
    } else {
      ReadsOne(pat, pos, c);
    }
  }

  lemma {:induction false} EscapeComplete(pat: seq<byte>, eof: byte, pos: nat, before: seq<Token>, tok: Token)
    requires IsToken(pat, eof, pos, before, tok)
    requires tok.Quoted? || tok.GroupOpen? || tok.GroupClose? || tok.BackRef? || tok.Interval?
    ensures Peek(pat, pos) == BACKSLASH != eof
    ensures LexEscape(pat, pos + 1, before) == Next.Token(tok, pos + |Text(tok)|)
  {
    hide Reads, LexInterval, Items, Opens, Closes, Stack, LegalInterval;
    if tok.Interval? {
      IntervalComplete(pat, pos, tok);
      JoinInterval(pat, pos, tok.lo, tok.hi);
    } else {
      assert Text(tok) == [BACKSLASH, Text(tok)[1]];
      ReadsTwo(pat, pos, BACKSLASH, Text(tok)[1]);
    }
  }

  /** A token that is legal where it stands is the one that is read. */
  lemma {:induction false} TokenComplete(pat: seq<byte>, eof: byte, sed: bool, pos: nat, before: seq<Token>, tok: Token)
    requires IsToken(pat, eof, pos, before, tok)
    ensures NextToken(pat, eof, sed, pos, before) == Next.Token(tok, pos + |Text(tok)|)
  {
    hide Reads, LexBracket, LexEscape, Items, Opens, Closes, Stack, LegalBody, StarIsLiteral;
    ReadsFirst(pat, pos, Text(tok));
    match tok
    case Bracket(_, _, _) => BracketComplete(pat, pos, tok);
    case Literal(_) =>
    case AnyChar =>
    case EndAnchor =>
    case Asterisk =>
    case _ => EscapeComplete(pat, eof, pos, before, tok);
  }

  // ----- patterns -----

  function TextOf(toks: seq<Token>): seq<byte> {
    if toks == [] then [] else TextOf(toks[..|toks| - 1]) + Text(toks[|toks| - 1])
  }

  /** From `start` on the pattern consists of these tokens. */
  ghost predicate Spells(pat: seq<byte>, eof: byte, start: nat, toks: seq<Token>) {
    toks == [] ||
    (var before := toks[..|toks| - 1];
     Spells(pat, eof, start, before) && IsToken(pat, eof, start + |TextOf(before)|, before, toks[|toks| - 1]))
  }

  /** The tokens are followed by the delimiter, or by a newline where that also ends a pattern. */
  ghost predicate Delimited(pat: seq<byte>, eof: byte, sed: bool, end: nat) {
    Peek(pat, end) == eof || (Peek(pat, end) == NEWLINE && !sed)
  }

  /** The pattern that starts at `start` is `toks`. */
  ghost predicate Denotes(pat: seq<byte>, eof: byte, sed: bool, start: nat, toks: seq<Token>) {
    Spells(pat, eof, start, toks) && Delimited(pat, eof, sed, start + |TextOf(toks)|) && Stack(toks) == []
  }

  lemma {:induction false} NoTokens(pat: seq<byte>, eof: byte, start: nat)
    ensures Spells(pat, eof, start, []) && TextOf([]) == []
  {
  }

  lemma {:induction false} SpellsMore(pat: seq<byte>, eof: byte, start: nat, toks: seq<Token>, tok: Token)
    requires Spells(pat, eof, start, toks) && IsToken(pat, eof, start + |TextOf(toks)|, toks, tok)
    ensures Spells(pat, eof, start, toks + [tok])
    ensures |TextOf(toks + [tok])| == |TextOf(toks)| + |Text(tok)|
  {
    hide IsToken, Text;
    assert (toks + [tok])[..|toks|] == toks;
  }

  lemma {:induction false} SpellsPrefix(pat: seq<byte>, eof: byte, start: nat, toks: seq<Token>, n: nat)
    requires Spells(pat, eof, start, toks) && n <= |toks|
    ensures Spells(pat, eof, start, toks[..n])
  {
    hide IsToken, TextOf;
    if n == |toks| {
      assert toks[..n] == toks;
    } else {
      SpellsPrefix(pat, eof, start, toks[..|toks| - 1], n);
      assert toks[..|toks| - 1][..n] == toks[..n];
    }
  }

  /** The pattern reads as the spelling of its tokens. */
  lemma {:induction false} SpellsReads(pat: seq<byte>, eof: byte, start: nat, toks: seq<Token>)
    requires Spells(pat, eof, start, toks)
    ensures Reads(pat, start, TextOf(toks))
  {
    hide Text, TextOf, Legal, Reads;
    NothingRead(pat, start);
    if toks != [] {
      var before, tok := toks[..|toks| - 1], toks[|toks| - 1];
      assert toks == before + [tok];
      SpellsReads(pat, eof, start, before);
      TextOfMore(before, tok);
      ReadsJoin(pat, start, TextOf(before), Text(tok));
    }
  }

  lemma {:induction false} NothingRead(pat: seq<byte>, start: nat)
    ensures Reads(pat, start, TextOf([]))
  {
  }

  /** A character in front of a pattern shifts its tokens by one. */
  lemma {:induction false} SpellsShift(c: byte, pat: seq<byte>, eof: byte, start: nat, toks: seq<Token>)
    ensures Spells([c] + pat, eof, start + 1, toks) <==> Spells(pat, eof, start, toks)
  {
    if toks != [] {
      hide Text, TextOf, Legal;
      var before, tok := toks[..|toks| - 1], toks[|toks| - 1];
      SpellsShift(c, pat, eof, start, before);
      var pos := start + |TextOf(before)|;
      forall n: nat ensures Peek([c] + pat, n + 1) == Peek(pat, n) { }
      assert Peek([c] + pat, pos + 1 + |Text(tok)|) == Peek(pat, pos + |Text(tok)|);
      ReadsShift(c, pat, pos, Text(tok));
    }
  }

  lemma {:induction false} ReadsShift(c: byte, pat: seq<byte>, pos: nat, text: seq<byte>)
    ensures Reads([c] + pat, pos + 1, text) <==> Reads(pat, pos, text)
  {
    forall n: nat ensures Peek([c] + pat, n + 1) == Peek(pat, n) { }
    forall x | 0 <= x < |text| ensures Peek([c] + pat, pos + 1 + x) == text[x] <==> Peek(pat, pos + x) == text[x] {
      assert pos + 1 + x == (pos + x) + 1;
    }
  }

  /** Behind a circumflex the same tokens are read as without it. */
  lemma {:induction false} DenotesShift(c: byte, pat: seq<byte>, eof: byte, sed: bool, start: nat, toks: seq<Token>)
    ensures Denotes([c] + pat, eof, sed, start + 1, toks) <==> Denotes(pat, eof, sed, start, toks)
  {
    hide Spells, TextOf, Stack;
    SpellsShift(c, pat, eof, start, toks);
    forall n: nat ensures Peek([c] + pat, n + 1) == Peek(pat, n) { }
    assert Peek([c] + pat, start + 1 + |TextOf(toks)|) == Peek(pat, start + |TextOf(toks)|);
  }

  lemma {:induction false} ParseSound(pat: seq<byte>, eof: byte, sed: bool, start: nat, toks: seq<Token>)
    requires NulFree(pat) && Spells(pat, eof, start, toks)
    ensures match Parse(pat, eof, sed, start + |TextOf(toks)|, toks)
      case Accept(all, end) => Denotes(pat, eof, sed, start, all) && end == start + |TextOf(all)|
      case Reject(_, sofar, at) => Spells(pat, eof, start, sofar) && at == start + |TextOf(sofar)|
    decreases Left(pat, start + |TextOf(toks)|)
  {
    hide IsToken, Text, NextToken, Spells, TextOf, Stack;
    var pos := start + |TextOf(toks)|;
    TokenSound(pat, eof, sed, pos, toks);
    TokenAdvance(pat, eof, sed, pos, toks);
    var r := NextToken(pat, eof, sed, pos, toks);
    if r.Token? {
      SpellsMore(pat, eof, start, toks, r.tok);
      ParseSound(pat, eof, sed, start, toks + [r.tok]);
    }
  }

  lemma {:induction false} DelimitedStops(pat: seq<byte>, eof: byte, sed: bool, pos: nat, toks: seq<Token>)
    requires Delimited(pat, eof, sed, pos)
    ensures NextToken(pat, eof, sed, pos, toks) == Stop
  {
    hide LexBracket, LexEscape, StarIsLiteral;
  }

  lemma {:induction false} TextOfMore(toks: seq<Token>, tok: Token)
    ensures TextOf(toks + [tok]) == TextOf(toks) + Text(tok)
  {
    hide Text;
    assert (toks + [tok])[..|toks|] == toks;
  }

  lemma {:induction false} ParseComplete(pat: seq<byte>, eof: byte, sed: bool, start: nat, toks: seq<Token>, n: nat)
    requires NulFree(pat) && Denotes(pat, eof, sed, start, toks) && n <= |toks|
    ensures Parse(pat, eof, sed, start + |TextOf(toks[..n])|, toks[..n]) == Accept(toks, start + |TextOf(toks)|)
    decreases |toks| - n
  {
    hide IsToken, Text, Stack, TextOf, NextToken;
    if n == |toks| {
      assert toks[..n] == toks;
      DelimitedStops(pat, eof, sed, start + |TextOf(toks)|, toks);
    } else {
      var before, tok := toks[..n], toks[n];
      SpellsPrefix(pat, eof, start, toks, n + 1);
      assert toks[..n + 1][..n] == before;
      TextOfMore(before, tok);
      TokenComplete(pat, eof, sed, start + |TextOf(before)|, before, tok);
      assert toks[..n + 1] == before + [tok];
      ParseComplete(pat, eof, sed, start, toks, n + 1);
    }
  }

  /** The reader accepts a pattern with exactly the token list that spells it; in particular there is at most one. */
  lemma {:induction false} ParseIff(pat: seq<byte>, eof: byte, sed: bool, start: nat, toks: seq<Token>)
    requires NulFree(pat)
    ensures Parse(pat, eof, sed, start, []) == Accept(toks, start + |TextOf(toks)|)
       <==> Denotes(pat, eof, sed, start, toks)
  {
    ParseSound(pat, eof, sed, start, []);
    if Denotes(pat, eof, sed, start, toks) {
      ParseComplete(pat, eof, sed, start, toks, 0);
      assert toks[..0] == [];
    }
  }

  /** So a pattern is accepted behind a circumflex exactly as it is without. */
  lemma {:induction false} ParseShift(c: byte, pat: seq<byte>, eof: byte, sed: bool, toks: seq<Token>)
    requires NulFree(pat) && c != 0
    ensures Parse([c] + pat, eof, sed, 1, []) == Accept(toks, 1 + |TextOf(toks)|)
       <==> Parse(pat, eof, sed, 0, []) == Accept(toks, |TextOf(toks)|)
  {
    hide Parse, Denotes, TextOf;
    DenotesShift(c, pat, eof, sed, 0, toks);
    ParseIff([c] + pat, eof, sed, 1, toks);
    ParseIff(pat, eof, sed, 0, toks);
  }
}
