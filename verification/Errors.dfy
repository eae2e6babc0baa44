/**
 The error codes of `compile`, each by the text that raises it.
 */
module Errors {
  import opened Bytes
  import opened Program
  import opened Pattern
  import opened Lexer
  import opened Grammar
  import opened Fragment
  import opened Assembly

  // ----- numbers -----

  /** The decimal digits of a number. */
  function Decimal(n: nat): seq<byte> {
    if n < 10 then [ZERO + n] else Decimal(n / 10) + [ZERO + n % 10]
  }

  /** Digits are read as the number they write, in base ten. */
  lemma {:induction false} DecimalValue(n: nat)
    ensures Digits(Decimal(n)) && Value(Decimal(n)) == n
  {
    if n >= 10 {
      DecimalValue(n / 10);
      var front := Decimal(n / 10);
      assert (front + [ZERO + n % 10])[..|front|] == front;
    } else {
      assert Value([ZERO + n][..0]) == 0;
    }
  }

  /** And back, up to leading zeros. */
  lemma {:induction false} ValueDecimal(ds: seq<byte>)
    requires Digits(ds) && (|ds| > 1 ==> ds[0] != ZERO)
    ensures Value(ds) >= 0 && Decimal(Value(ds)) == ds && (|ds| > 1 ==> Value(ds) >= 10)
  {
    var front, d := ds[..|ds| - 1], ds[|ds| - 1];
    if front == [] {
      assert Value(front) == 0 && ds == [d];
    } else {
      ValueDecimal(front);
      assert Value(front) >= 1 by { if |front| == 1 { assert Value(front[..0]) == 0; } }
      var n := Value(ds);
      assert n == 10 * Value(front) + (d - ZERO);
      assert n / 10 == Value(front) && n % 10 == d - ZERO;
      assert ds == front + [d];
    }
  }

  /** Digits up to a backslash or a comma. */
  ghost predicate Numeral(pat: seq<byte>, pos: nat, ds: seq<byte>) {
    Digits(ds) && Reads(pat, pos, ds) && AtDelimiter(pat, pos + |ds|)
  }

  /** No digit, or digits and then something else than a backslash or a comma. */
  ghost predicate NoNumeral(pat: seq<byte>, pos: nat) {
    exists ds ::
      && (ds == [] || (Digits(ds) && !AtDelimiter(pat, pos + |ds|)))
      && Reads(pat, pos, ds) && !IsDigit(Peek(pat, pos + |ds|))
  }

  lemma {:induction false} NoNumeralFrom(pat: seq<byte>, start: nat, acc: seq<byte>)
    requires (acc == [] || (Digits(acc) && !AtDelimiter(pat, start + |acc|))) && Reads(pat, start, acc)
    ensures LexNumber(pat, start + |acc|, acc) == NoNumber ==> NoNumeral(pat, start)
    decreases Left(pat, start + |acc|)
  {
    var c := Peek(pat, start + |acc|);
    if IsDigit(c) && !AtDelimiter(pat, start + |acc| + 1) {
      ReadsOne(pat, start + |acc|, c);
      ReadsJoin(pat, start, acc, [c]);
      NoNumeralFrom(pat, start, acc + [c]);
    }
  }

  lemma {:induction false} DigitInside(pat: seq<byte>, pos: nat, es: seq<byte>, n: nat)
    requires Digits(es) && Reads(pat, pos, es)
    ensures n < |es| ==> IsDigit(Peek(pat, pos + n))
  {
    if n < |es| { assert Peek(pat, pos + n) == es[n]; }
  }

  /** What is a number cannot fail to be one. */
  lemma {:induction false} NumeralOrNot(pat: seq<byte>, pos: nat, ds: seq<byte>)
    requires Numeral(pat, pos, ds)
    ensures !NoNumeral(pat, pos)
  {
    forall es | Reads(pat, pos, es) && (es == [] || (Digits(es) && !AtDelimiter(pat, pos + |es|)))
      ensures IsDigit(Peek(pat, pos + |es|))
    {
      if es != [] { DigitInside(pat, pos, es, |ds|); }
      DigitInside(pat, pos, ds, |es|);
    }
  }

  lemma {:induction false} NumberIs(pat: seq<byte>, pos: nat, ds: seq<byte>)
    ensures LexNumber(pat, pos, []) == Number(ds, pos + |ds|) <==> Numeral(pat, pos, ds)
    ensures LexNumber(pat, pos, []) == NoNumber <==> NoNumeral(pat, pos)
  {
    NumberAt(pat, pos);
    NoNumeralFrom(pat, pos, []);
    if Numeral(pat, pos, ds) { NumberComplete(pat, pos, ds, 0); }
    match LexNumber(pat, pos, [])
    case Number(es, _) => NumeralOrNot(pat, pos, es);
    case NoNumber =>
  }

  // ----- intervals -----

  /** The bounds of an interval, both below 255; the text behind them is at `BoundsEnd`. */
  ghost predicate Bounds(pat: seq<byte>, pos: nat, lo: seq<byte>, hi: Upper) {
    && Numeral(pat, pos, lo) && Value(lo) < 255
    && match hi
       case Exact => Peek(pat, pos + |lo|) == BACKSLASH
       case Unbounded => Peek(pat, pos + |lo|) == COMMA && Peek(pat, pos + |lo| + 1) == BACKSLASH
       case UpTo(ds) => Peek(pat, pos + |lo|) == COMMA && Numeral(pat, pos + |lo| + 1, ds) && Value(ds) < 255
  }

  function BoundsEnd(pos: nat, lo: seq<byte>, hi: Upper): nat {
    pos + |lo| + |UpperText(hi)|
  }

  /** A second bound begins behind the comma. */
  ghost predicate Second(pat: seq<byte>, pos: nat, lo: seq<byte>) {
    && Numeral(pat, pos, lo) && Value(lo) < 255
    && Peek(pat, pos + |lo|) == COMMA && Peek(pat, pos + |lo| + 1) != BACKSLASH
  }

  /** What is wrong with the interval whose text begins at `pos`, when `lo` is its first bound. */
  ghost predicate BoundsFault(pat: seq<byte>, pos: nat, lo: seq<byte>, code: nat) {
    match code
    case 16 => Second(pat, pos, lo) && NoNumeral(pat, pos + |lo| + 1)
    case 11 =>
      || (Numeral(pat, pos, lo) && Value(lo) >= 255)
      || (Second(pat, pos, lo) && exists ds :: Numeral(pat, pos + |lo| + 1, ds) && Value(ds) >= 255)
    case 44 => exists ds :: Bounds(pat, pos, lo, UpTo(ds)) && Peek(pat, BoundsEnd(pos, lo, UpTo(ds))) == COMMA
    case 45 =>
      exists hi ::
        && Bounds(pat, pos, lo, hi) && Peek(pat, BoundsEnd(pos, lo, hi)) == BACKSLASH
        && Peek(pat, BoundsEnd(pos, lo, hi) + 1) != RBRACE
    case 46 =>
      exists ds ::
        && Bounds(pat, pos, lo, UpTo(ds)) && Value(ds) < Value(lo)
        && Peek(pat, BoundsEnd(pos, lo, UpTo(ds))) == BACKSLASH
        && Peek(pat, BoundsEnd(pos, lo, UpTo(ds)) + 1) == RBRACE
    case _ => false
  }

  ghost predicate IntervalFault(pat: seq<byte>, pos: nat, code: nat) {
    (code == 16 && NoNumeral(pat, pos)) || exists lo :: BoundsFault(pat, pos, lo, code)
  }

  lemma {:induction false} OneNumeral(pat: seq<byte>, pos: nat, ds: seq<byte>)
    requires Numeral(pat, pos, ds)
    ensures forall es :: Numeral(pat, pos, es) <==> es == ds
    ensures !NoNumeral(pat, pos)
  {
    NumberIs(pat, pos, ds);
    NumeralOrNot(pat, pos, ds);
    forall es | Numeral(pat, pos, es) ensures es == ds { NumberIs(pat, pos, es); }
  }

  lemma {:induction false} NotNumeral(pat: seq<byte>, pos: nat)
    requires NoNumeral(pat, pos)
    ensures forall es :: !Numeral(pat, pos, es)
  {
    forall es ensures !Numeral(pat, pos, es) { NumberIs(pat, pos, es); }
  }

  /** A faulty interval has a first bound, unless that is what is missing. */
  lemma {:induction false} FaultHasNumeral(pat: seq<byte>, pos: nat, lo: seq<byte>, code: nat)
    requires BoundsFault(pat, pos, lo, code)
    ensures Numeral(pat, pos, lo)
  {
    hide Numeral, NoNumeral, Value;
  }

  lemma {:induction false} NumeralStart(pat: seq<byte>, pos: nat, ds: seq<byte>)
    requires Numeral(pat, pos, ds)
    ensures Peek(pat, pos) != BACKSLASH
  {
    ReadsFirst(pat, pos, ds);
  }

  /** With one bound, or two of which the second is open. */
  lemma {:induction false} OneBoundFault(pat: seq<byte>, pos: nat, lo: seq<byte>, code: nat)
    requires Numeral(pat, pos, lo) && (Value(lo) < 255 ==> !Second(pat, pos, lo))
    ensures LexInterval(pat, pos) == Wrong(code) <==> BoundsFault(pat, pos, lo, code)
  {
    hide LexNumber, Value, Numeral, NoNumeral;
    NumberIs(pat, pos, lo);
    var at := pos + |lo| + 1;
    forall ds ensures Numeral(pat, at, ds) ==> Peek(pat, at) != BACKSLASH {
      if Numeral(pat, at, ds) { NumeralStart(pat, at, ds); }
    }
    Delimiter(pat, pos, lo);
    if Value(lo) < 255 {
      var hi := if Peek(pat, pos + |lo|) == BACKSLASH then Exact else Unbounded;
      assert Bounds(pat, pos, lo, hi);
    }
  }

  lemma {:induction false} Delimiter(pat: seq<byte>, pos: nat, lo: seq<byte>)
    requires Numeral(pat, pos, lo)
    ensures Peek(pat, pos + |lo|) == BACKSLASH || Peek(pat, pos + |lo|) == COMMA
  {
  }

  lemma {:induction false} SecondFault(pat: seq<byte>, pos: nat, lo: seq<byte>, hi: seq<byte>, code: nat)
    requires Second(pat, pos, lo) && Numeral(pat, pos + |lo| + 1, hi)
    ensures LexInterval(pat, pos) == Wrong(code) <==> BoundsFault(pat, pos, lo, code)
  {
    hide LexNumber, Value, Numeral, NoNumeral;
    var at := pos + |lo| + 1;
    NumberIs(pat, pos, lo);
    NumberIs(pat, at, hi);
    OneNumeral(pat, at, hi);
    Delimiter(pat, at, hi);
    if Value(hi) < 255 { assert Bounds(pat, pos, lo, UpTo(hi)); }
  }

  /** With two. */
  lemma {:induction false} TwoBoundsFault(pat: seq<byte>, pos: nat, lo: seq<byte>, code: nat)
    requires Second(pat, pos, lo)
    ensures LexInterval(pat, pos) == Wrong(code) <==> BoundsFault(pat, pos, lo, code)
  {
    hide LexNumber, Value, Numeral, NoNumeral;
    var at := pos + |lo| + 1;
    NumberIs(pat, pos, lo);
    NumberIs(pat, at, []);
    if NoNumeral(pat, at) {
      NotNumeral(pat, at);
    } else {
      var hi := IsNumeral(pat, at);
      SecondFault(pat, pos, lo, hi, code);
    }
  }

  lemma {:induction false} IsNumeral(pat: seq<byte>, pos: nat) returns (ds: seq<byte>)
    requires !NoNumeral(pat, pos)
    ensures Numeral(pat, pos, ds)
  {
    NumberIs(pat, pos, []);
    NumberAt(pat, pos);
    ds := LexNumber(pat, pos, []).digits;
  }

  /** Each error of an interval is raised exactly for its text. */
  lemma {:induction false} IntervalFaultIff(pat: seq<byte>, pos: nat, code: nat)
    ensures LexInterval(pat, pos) == Wrong(code) <==> IntervalFault(pat, pos, code)
  {
    hide LexNumber, Value, Numeral, NoNumeral, BoundsFault, Second;
    NumberIs(pat, pos, []);
    forall lo | BoundsFault(pat, pos, lo, code) ensures Numeral(pat, pos, lo) { FaultHasNumeral(pat, pos, lo, code); }
    if NoNumeral(pat, pos) {
      NotNumeral(pat, pos);
    } else {
      var lo := IsNumeral(pat, pos);
      OneNumeral(pat, pos, lo);
      if Second(pat, pos, lo) { TwoBoundsFault(pat, pos, lo, code); } else { OneBoundFault(pat, pos, lo, code); }
    }
  }

  /** The second bound byte that is stored: the first bound again, once the interval is closed; 255; or the second
      bound, whatever follows it. */
  ghost predicate StoresSecond(pat: seq<byte>, pos: nat, lo: seq<byte>, hi: Upper, b: byte) {
    && Bounds(pat, pos, lo, hi)
    && match hi
       case Exact => Peek(pat, pos + |lo| + 1) == RBRACE && b == Value(lo)
       case Unbounded => b == 255
       case UpTo(ds) => b == Value(ds)
  }

  lemma {:induction false} SecondBoundIff(pat: seq<byte>, pos: nat, b: byte)
    ensures SecondBound(pat, pos) == Some(b) <==> exists lo, hi :: StoresSecond(pat, pos, lo, hi, b)
  {
    hide LexNumber, Value, NoNumeral, Digits, Reads;
    NumberIs(pat, pos, []);
    if NoNumeral(pat, pos) {
      NotNumeral(pat, pos);
    } else {
      var lo := IsNumeral(pat, pos);
      OneNumeral(pat, pos, lo);
      NumberIs(pat, pos, lo);
      SecondBoundOf(pat, pos, lo, b);
      if exists hi :: StoresSecond(pat, pos, lo, hi, b) {
        var hi :| StoresSecond(pat, pos, lo, hi, b);
      }
    }
  }

  lemma {:induction false} SecondBoundOf(pat: seq<byte>, pos: nat, lo: seq<byte>, b: byte)
    requires Numeral(pat, pos, lo)
    ensures SecondBound(pat, pos) == Some(b) <==> exists hi :: StoresSecond(pat, pos, lo, hi, b)
  {
    hide LexNumber, Value, NoNumeral, Numeral;
    NumeralValue(pat, pos, lo);
    var at := pos + |lo| + 1;
    NumberIs(pat, pos, lo);
    Delimiter(pat, pos, lo);
    forall ds ensures Numeral(pat, at, ds) ==> Peek(pat, at) != BACKSLASH {
      if Numeral(pat, at, ds) { NumeralStart(pat, at, ds); }
    }
    NumberIs(pat, at, []);
    if Value(lo) < 255 {
      if Peek(pat, pos + |lo|) == BACKSLASH {
        assert StoresSecond(pat, pos, lo, Exact, b) <==> SecondBound(pat, pos) == Some(b);
      } else if Peek(pat, at) == BACKSLASH {
        assert StoresSecond(pat, pos, lo, Unbounded, 255);
      } else if NoNumeral(pat, at) {
        NotNumeral(pat, at);
      } else {
        var hi := IsNumeral(pat, at);
        OneNumeral(pat, at, hi);
        NumberIs(pat, at, hi);
        NumeralValue(pat, at, hi);
        assert StoresSecond(pat, pos, lo, UpTo(hi), b) <==> SecondBound(pat, pos) == Some(b);
      }
    }
  }

  lemma {:induction false} NumeralValue(pat: seq<byte>, pos: nat, ds: seq<byte>)
    requires Numeral(pat, pos, ds)
    ensures Value(ds) >= 0
  {
    DigitsValue(ds);
  }

  // ----- all errors -----

  /** What is wrong at `pos`, behind the tokens `toks`. */
  ghost predicate Fault(pat: seq<byte>, eof: byte, sed: bool, pos: nat, toks: seq<Token>, code: nat) {
    var c, d := Peek(pat, pos), Peek(pat, pos + 1);
    var escape := c == BACKSLASH != eof;
    match code
    case 25 => escape && ONE <= d <= NINE && d - ZERO > Closes(toks)
    case 36 => (c == NEWLINE != eof && sed) || (escape && d == NEWLINE)
    case 42 =>
      || (Delimited(pat, eof, sed, pos) && Opens(toks) != Closes(toks))
      || (escape && d == RPAREN && Opens(toks) == Closes(toks))
    case 43 => escape && d == LPAREN && Opens(toks) >= 9
    case 49 =>
      c == LBRACKET != eof &&
      forall neg, body, dash :: LegalBody(neg, body) ==> !Reads(pat, pos, Text(Bracket(neg, body, dash)))
    case 50 => c == 0 != eof
    case _ => escape && d == LBRACE && toks != [] && IntervalFault(pat, pos + 2, code)
  }

  lemma {:induction false} SomeItem(toks: seq<Token>)
    requires Lawful(toks)
    ensures Items(toks) == [] <==> toks == []
  {
    if toks != [] {
      var before, tok := toks[..|toks| - 1], toks[|toks| - 1];
      assert toks == before + [tok];
      ItemsStep(before, tok);
    }
  }

  lemma {:induction false} NoneOpen(toks: seq<Token>)
    requires Lawful(toks)
    ensures Stack(toks) == [] <==> Opens(toks) == Closes(toks)
  {
    LawfulBrackets(toks);
  }

  lemma {:induction false} BracketFault(pat: seq<byte>, pos: nat)
    requires NulFree(pat) && Peek(pat, pos) == LBRACKET
    ensures LexBracket(pat, pos + 1) == Wrong(49) <==>
      forall neg, body, dash :: LegalBody(neg, body) ==> !Reads(pat, pos, Text(Bracket(neg, body, dash)))
    ensures LexBracket(pat, pos + 1).Wrong? ==> LexBracket(pat, pos + 1).code == 49
  {
    hide LexMembers, LegalBody, Reads, Text;
    BracketSound(pat, pos);
    forall neg, body, dash | LegalBody(neg, body) && Reads(pat, pos, Text(Bracket(neg, body, dash)))
      ensures LexBracket(pat, pos + 1).Token?
    {
      BracketComplete(pat, pos, Bracket(neg, body, dash));
    }
  }

  lemma {:induction false} IntervalCodes(pat: seq<byte>, pos: nat, code: nat)
    ensures IntervalFault(pat, pos, code) ==> code in {11, 16, 44, 45, 46}
  {
    hide Numeral, NoNumeral, Second, Bounds;
  }

  lemma {:induction false} EscapeFault(pat: seq<byte>, eof: byte, sed: bool, pos: nat, toks: seq<Token>, code: nat)
    requires Lawful(toks) && Peek(pat, pos) == BACKSLASH != eof
    ensures LexEscape(pat, pos + 1, toks) == Wrong(code) <==> Fault(pat, eof, sed, pos, toks, code)
  {
    hide LexInterval, Items, Opens, Closes, Stack, Lawful, IntervalFault, LegalBody, Reads, Text;
    SomeItem(toks);
    NoneOpen(toks);
    IntervalFaultIff(pat, pos + 2, code);
    IntervalCodes(pat, pos + 2, code);
  }

  /** One turn of the reader fails with a code exactly when that is the fault. */
  lemma {:induction false} FaultIff(pat: seq<byte>, eof: byte, sed: bool, pos: nat, toks: seq<Token>, code: nat)
    requires NulFree(pat) && Lawful(toks)
    ensures var next := NextToken(pat, eof, sed, pos, toks);
      next == Wrong(code) || (next == Stop && Stack(toks) != [] && code == 42) <==>
        Fault(pat, eof, sed, pos, toks, code)
  {
    hide LexEscape, LexBracket, Items, Opens, Closes, Stack, Lawful, IntervalFault, LegalBody, Reads, Text,
         StarIsLiteral;
    NoneOpen(toks);
    if Peek(pat, pos) == BACKSLASH != eof {
      EscapeFault(pat, eof, sed, pos, toks, code);
      EscapeGoesOn(pat, pos + 1, toks);
    } else if Peek(pat, pos) == LBRACKET != eof {
      BracketFault(pat, pos);
      BracketSound(pat, pos);
    }
  }

  lemma {:induction false} EscapeGoesOn(pat: seq<byte>, pos: nat, toks: seq<Token>)
    ensures !LexEscape(pat, pos, toks).Stop?
  {
    hide LexNumber, Items, Opens, Closes, Stack, Value;
  }

  // ----- the whole pattern -----

  lemma {:induction false} RejectedAt(pat: seq<byte>, eof: byte, sed: bool, pos: nat, toks: seq<Token>)
    ensures var r := Parse(pat, eof, sed, pos, toks);
      r.Reject? ==>
        var next := NextToken(pat, eof, sed, r.at, r.sofar);
        next == Wrong(r.code) || (next == Stop && Stack(r.sofar) != [] && r.code == 42)
    decreases Left(pat, pos)
  {
    hide NextToken, Stack;
    TokenAdvance(pat, eof, sed, pos, toks);
    var next := NextToken(pat, eof, sed, pos, toks);
    if next.Token? { RejectedAt(pat, eof, sed, next.end, toks + [next.tok]); }
  }

  lemma {:induction false} ParseAlong(pat: seq<byte>, eof: byte, sed: bool, start: nat, toks: seq<Token>)
    requires Spells(pat, eof, start, toks)
    ensures Parse(pat, eof, sed, start, []) == Parse(pat, eof, sed, start + |TextOf(toks)|, toks)
  {
    hide Parse, NextToken, IsToken, Text, TextOf, Stack;
    NoTokens(pat, eof, start);
    if toks != [] {
      var before, tok := toks[..|toks| - 1], toks[|toks| - 1];
      assert toks == before + [tok];
      ParseAlong(pat, eof, sed, start, before);
      ParseStep(pat, eof, sed, start + |TextOf(before)|, before);
      TokenComplete(pat, eof, sed, start + |TextOf(before)|, before, tok);
      TextOfMore(before, tok);
    }
  }

  /** A pattern is rejected with a code exactly when its tokens lead up to text that raises this code. */
  lemma {:induction false} RejectIff(pat: seq<byte>, eof: byte, sed: bool, start: nat, toks: seq<Token>, code: nat)
    requires NulFree(pat)
    ensures var at := start + |TextOf(toks)|;
      Parse(pat, eof, sed, start, []) == Reject(code, toks, at) <==>
        Spells(pat, eof, start, toks) && Fault(pat, eof, sed, at, toks, code)
  {
    hide Parse, NextToken, Spells, Fault, Lawful, Stack, TextOf;
    var at := start + |TextOf(toks)|;
    NoTokens(pat, eof, start);
    ParseSound(pat, eof, sed, start, []);
    RejectedAt(pat, eof, sed, start, []);
    if Spells(pat, eof, start, toks) {
      SpellsLawful(pat, eof, start, toks);
      FaultIff(pat, eof, sed, at, toks, code);
      ParseAlong(pat, eof, sed, start, toks);
      ParseStep(pat, eof, sed, at, toks);
    }
  }
}
