/**
 The parts of `compile` that write operands into the program buffer: character classes and
 interval bounds.
 */
module Emitter {
  import opened Bytes
  import opened Bitmaps
  import opened Program
  import opened Pattern
  import opened Lexer

  /** RETURN(ep) or ERROR(code). */
  datatype Compiled = Return(ep: nat) | Error(code: nat)

  /** Nothing outside `lo..hi` has changed. */
  twostate predicate OnlyWithin(buf: array<byte>, lo: nat, hi: nat)
    reads buf
  {
    forall x :: 0 <= x < buf.Length && !(lo <= x < hi) ==> buf[x] == old(buf[x])
  }

  /** Nothing outside `lo..hi` has changed, except that `spill`, if there is such a byte, is now at `hi`. */
  twostate predicate Bounded(buf: array<byte>, lo: nat, hi: nat, new spill: Option<byte>)
    reads buf
  {
    match spill
    case None => OnlyWithin(buf, lo, hi)
    case Some(b) => hi < buf.Length && buf[hi] == b && OnlyWithin(buf, lo, hi + 1)
  }

  // ----- bitmaps in the buffer -----

  /** The map of `w` bytes at `ep` holds `members`. */
  ghost predicate MapAt(b: seq<byte>, ep: nat, w: nat, members: set<byte>) {
    ep + w <= |b| && Holds(b[ep..ep + w], members)
  }

  /** PLACE(c) */
  method Place(buf: array<byte>, ep: nat, w: nat, c: byte, ghost members: set<byte>)
    requires MapAt(buf[..], ep, w, members) && c / 8 < w
    modifies buf
    ensures MapAt(buf[..], ep, w, members + {c})
    ensures OnlyWithin(buf, ep, ep + w)
  {
    ghost var b := buf[..];
    buf[ep + c / 8] := PlaceIn(buf[ep + c / 8], c);
    forall d: byte | d / 8 < w
      ensures Bit(buf[..][ep..ep + w][d / 8], d % 8) <==> d in members + {c}
    {
      assert Bit(b[ep..ep + w][d / 8], d % 8) <==> d in members;
      assert d / 8 == c / 8 && d % 8 == c % 8 ==> d == c;
    }
  }

  /** `while (lc < c) { PLACE(lc); lc++; }` */
  method PlaceSpan(buf: array<byte>, ep: nat, w: nat, lo: byte, hi: byte, ghost members: set<byte>)
    requires MapAt(buf[..], ep, w, members) && hi / 8 < w
    modifies buf
    ensures MapAt(buf[..], ep, w, members + set x: byte | InSpan(lo, x, hi))
    ensures OnlyWithin(buf, ep, ep + w)
  {
    var lc: int := lo;
    ghost var all: set<byte> := members;
    while lc < hi
      invariant lo <= lc && (lc <= hi || lc == lo)
      invariant MapAt(buf[..], ep, w, all)
      invariant all == members + set x: byte | InSpan(lo, x, hi) && x < lc
      invariant OnlyWithin(buf, ep, ep + w)
    {
      Place(buf, ep, w, lc, all);
      all := all + {lc};
      lc := lc + 1;
    }
    assert all == members + set x: byte | InSpan(lo, x, hi);
  }

  /** Zeroes the bytes from `from` up to `to`. */
  method Clear(buf: array<byte>, from: nat, to: nat)
    requires from <= to <= buf.Length
    modifies buf
    ensures forall x :: from <= x < to ==> buf[x] == 0
    ensures OnlyWithin(buf, from, to)
  {
    for i := from to to
      invariant forall x :: from <= x < i ==> buf[x] == 0
      invariant OnlyWithin(buf, from, to)
    {
      buf[i] := 0;
    }
  }

  /** From a 16-byte to a 32-byte map: what is in it stays in it. */
  method Widen(buf: array<byte>, ep: nat, ghost members: set<byte>)
    requires 0 < ep && ep + 32 <= buf.Length && MapAt(buf[..], ep, 16, members) && !Wide(members)
    modifies buf
    ensures MapAt(buf[..], ep, 32, members) && buf[ep - 1] == CXCL
    ensures OnlyWithin(buf, ep - 1, ep + 32)
  {
    ghost var b := buf[..];
    buf[ep - 1] := CXCL;
    Clear(buf, ep + 16, ep + 32);
    forall d: byte | d / 8 < 32
      ensures Bit(buf[..][ep..ep + 32][d / 8], d % 8) <==> d in members
    {
      if d / 8 < 16 {
        assert Bit(b[ep..ep + 16][d / 8], d % 8) <==> d in members;
      } else {
        ZeroHasNoBits(d % 8);
      }
    }
  }

  /** The map of [^...]: complemented without NUL when wide, NUL added when narrow. */
  method Negate(buf: array<byte>, ep: nat, w: nat, ghost members: set<byte>)
    requires 0 < ep && (w == 16 || w == 32) && MapAt(buf[..], ep, w, members) && 0 !in members
    modifies buf
    ensures w == 32 ==> MapAt(buf[..], ep, w, Complement(members)) && buf[ep - 1] == old(buf[ep - 1])
    ensures w == 16 ==> MapAt(buf[..], ep, w, members + {0}) && buf[ep - 1] == NCCL
    ensures OnlyWithin(buf, ep - 1, ep + w)
  {
    if w == 32 {
      Flip(buf, ep, w);
      ghost var b := buf[..];
      ClearNul(buf[ep]);
      buf[ep] := And(buf[ep], 0xFE);
      forall d: byte | d / 8 < w
        ensures Bit(buf[..][ep..ep + w][d / 8], d % 8) <==> d in Complement(members)
      {
        assert Bit(old(buf[..])[ep..ep + w][d / 8], d % 8) <==> d in members;
        assert Bit(b[ep + d / 8], d % 8) <==> !Bit(old(buf[ep + d / 8]), d % 8);
      }
    } else {
      buf[ep - 1] := NCCL;
      assert buf[..][ep..ep + w] == old(buf[..])[ep..ep + w];
      Place(buf, ep, w, 0, members);
    }
  }

  /** Every byte of the map is xored with 0377. */
  method Flip(buf: array<byte>, ep: nat, w: nat)
    requires ep + w <= buf.Length
    modifies buf
    ensures forall x, k :: ep <= x < ep + w && 0 <= k < 8 ==> (Bit(buf[x], k) <==> !Bit(old(buf[x]), k))
    ensures OnlyWithin(buf, ep, ep + w)
  {
    for i := ep to ep + w
      invariant forall x, k :: ep <= x < i && 0 <= k < 8 ==> (Bit(buf[x], k) <==> !Bit(old(buf[x]), k))
      invariant forall x :: i <= x < ep + w ==> buf[x] == old(buf[x])
      invariant OnlyWithin(buf, ep, ep + w)
    {
      FlipBits(buf[i]);
      buf[i] := Xor(buf[i], 0xFF);
    }
  }

  lemma {:induction false} FlipBits(b: byte)
    ensures Xor(b, 0xFF) < 256
    ensures forall k :: 0 <= k < 8 ==> (Bit(Xor(b, 0xFF), k) <==> !Bit(b, k))
  {
    Pow2Eight();
    OpsBound(b, 0xFF, 8);
    forall k | 0 <= k < 8 ensures Bit(Xor(b, 0xFF), k) <==> !Bit(b, k) {
      XorBits(b, 0xFF, k);
      AllOnes(8, k);
    }
  }

  lemma {:induction false} ClearNul(b: byte)
    ensures And(b, 0xFE) < 256
    ensures forall k :: 0 <= k < 8 ==> (Bit(And(b, 0xFE), k) <==> Bit(b, k) && k != 0)
  {
    Pow2Eight();
    OpsBound(b, 0xFE, 8);
    forall k | 0 <= k < 8 ensures Bit(And(b, 0xFE), k) <==> Bit(b, k) && k != 0 {
      AndBits(b, 0xFE, k);
      if k != 0 {
        assert 2 * Pow2(7) == Pow2(8);
        AllOnes(7, k - 1);
        assert Bit(0xFE, k) == Bit(0x7F, k - 1);
      }
    }
  }

  /** 2^n - 1 has its low n bits set. */
  lemma {:induction false} AllOnes(n: nat, k: nat)
    requires k < n
    ensures Bit(Pow2(n) - 1, k)
  {
    if k != 0 { AllOnes(n - 1, k - 1); }
  }

  // ----- bracket expressions -----

  /** The class at `ep - 1`: opcode, and a map of `w` bytes with `members` in it. */
  ghost predicate ClassAt(b: seq<byte>, ep: nat, w: nat, members: set<byte>) {
    && 0 < ep && (w == 16 || w == 32)
    && MapAt(b, ep, w, members)
    && b[ep - 1] == (if w == 32 then CXCL else CCL)
    && (w == 32 <==> Wide(members))
  }

  /** The characters that a range adds in front of its upper end. */
  ghost function Span(lc: byte, m: Member): set<byte> {
    if m.To? then set x: byte | InSpan(lc, x, m.c) else {}
  }

  lemma {:induction false} SpanOf(lc: byte, m: Member)
    ensures m.To? ==> Span(lc, m) == set x: byte | InSpan(lc, x, m.c)
  {
  }

  lemma {:induction false} MemberAdded(acc: seq<Member>, m: Member)
    ensures SetOf(acc + [m]) == SetOf(acc) + Span(LastChar(acc), m) + {m.c}
    ensures Wide(SetOf(acc + [m])) <==> Wide(SetOf(acc)) || m.c >= 128
  {
    assert (acc + [m])[..|acc|] == acc;
    assert m.c in SetOf(acc + [m]);
    if Wide(SetOf(acc)) {
      var c :| c in SetOf(acc) && c >= 128;
      assert c in SetOf(acc + [m]);
    }
  }

  /** Adds one member of the bracket expression; `ok` is false on ERROR(50). */
  method AddMember(buf: array<byte>, ep: nat, endbuf: nat, w: nat, m: Member, lc: byte, ghost acc: seq<Member>)
    returns (ok: bool, w': nat)
    requires ep + w < endbuf <= buf.Length && ClassAt(buf[..], ep, w, SetOf(acc)) && lc == LastChar(acc)
    modifies buf
    ensures OnlyWithin(buf, ep - 1, endbuf)
    ensures ok <==> (Wide(SetOf(acc + [m])) ==> ep + 32 < endbuf)
    ensures ok ==> ep + w' < endbuf && ClassAt(buf[..], ep, w', SetOf(acc + [m]))
  {
    hide SetOf, Wide, MapAt, InSpan;
    ghost var members, span := SetOf(acc), Span(lc, m);
    MemberAdded(acc, m);
    SignBit(m.c);
    w' := w;
    if And(m.c, 0x80) != 0 && w == 16 {
      if ep + 32 >= endbuf {
        return false, w;
      }
      Widen(buf, ep, members);
      w' := 32;
    }
    if m.To? {
      PlaceSpan(buf, ep, w', lc, m.c, members);
      SpanOf(lc, m);
    } else {
      assert members == members + span;
    }
    Place(buf, ep, w', m.c, members + span);
    ok := true;
  }

  /** What the reader has taken stays in the result. */
  lemma {:induction false} MembersKept(pat: seq<byte>, pos: nat, acc: seq<Member>)
    ensures SetOf(acc) <= SetOf(Taken(LexMembers(pat, pos, acc)))
    decreases Left(pat, pos)
  {
    var c := Peek(pat, pos);
    if c != 0 && c != NEWLINE {
      MembersKept(pat, pos + 1, acc + [Single(c)]);
      MembersKept(pat, pos + 2, acc + [To(Peek(pat, pos + 1))]);
      assert (acc + [Single(c)])[..|acc|] == acc;
      assert (acc + [To(Peek(pat, pos + 1))])[..|acc|] == acc;
    }
  }

  lemma {:induction false} WideKept(pat: seq<byte>, pos: nat, acc: seq<Member>)
    requires Wide(SetOf(acc))
    ensures Wide(SetOf(Taken(LexRest(pat, pos, acc))))
    ensures LexRest(pat, pos, acc).Body? ==> Wide(Denoted(LexRest(pat, pos, acc).body, LexRest(pat, pos, acc).dash))
  {
    MembersKept(pat, pos, acc);
    var c :| c in SetOf(acc) && c >= 128;
    assert c in SetOf(Taken(LexRest(pat, pos, acc)));
  }

  lemma {:induction false} NoMembers()
    ensures SetOf([]) == {}
  {
  }

  lemma {:induction false} MembersTurn(pat: seq<byte>, pos: nat, acc: seq<Member>)
    ensures var c := Peek(pat, pos);
      LexMembers(pat, pos, acc) ==
        if c == 0 || c == NEWLINE then NoBody(acc)
        else if c == DASH && acc != [] then
          if Peek(pat, pos + 1) == RBRACKET then Body(acc, true, pos + 2)
          else LexRest(pat, pos + 2, acc + [To(Peek(pat, pos + 1))])
        else LexRest(pat, pos + 1, acc + [Single(c)])
  {
    hide LexRest;
  }

  lemma {:induction false} RestTurn(pat: seq<byte>, pos: nat, acc: seq<Member>)
    ensures LexRest(pat, pos, acc) ==
      if Peek(pat, pos) == RBRACKET then Body(acc, false, pos + 1) else LexMembers(pat, pos, acc)
  {
    hide LexMembers;
  }

  /** The do-loop over the members. `err` is 0, 49 or 50. */
  method BracketBody(pat: seq<byte>, start: nat, buf: array<byte>, ep: nat, endbuf: nat)
    returns (err: nat, pos: nat, w: nat)
    requires ep + 16 < endbuf <= buf.Length && ClassAt(buf[..], ep, 16, {}) && NulFree(pat)
    modifies buf
    ensures OnlyWithin(buf, ep - 1, endbuf)
    ensures LexMembers(pat, start, []).NoBody? ==>
      err == if Wide(SetOf(LexMembers(pat, start, []).read)) && endbuf <= ep + 32 then 50 else 49
    ensures LexMembers(pat, start, []).Body? ==>
      var Body(body, dash, end) := LexMembers(pat, start, []);
      var members := Denoted(body, dash);
      if Wide(members) && endbuf <= ep + 32 then err == 50
      else err == 0 && pos == end && ep + w < endbuf && ClassAt(buf[..], ep, w, members)
  {
    hide LexMembers, LexRest, SetOf, MapAt, Wide;
    NoMembers();
    pos, w, err := start, 16, 0;
    var lc: byte := 0;
    ghost var acc: seq<Member> := [];
    while true
      invariant ep + w < endbuf && ClassAt(buf[..], ep, w, SetOf(acc))
      invariant lc == LastChar(acc) && (acc != [] && lc == 0 ==> pos >= |pat|)
      invariant LexMembers(pat, start, []) == LexMembers(pat, pos, acc)
      invariant OnlyWithin(buf, ep - 1, endbuf)
      decreases Left(pat, pos)
    {
      MembersTurn(pat, pos, acc);
      var c := Peek(pat, pos);
      if c == 0 || c == NEWLINE {
        err := 49;
        return;
      }
      var m := Single(c);
      pos := pos + 1;
      if c == DASH && lc != 0 {
        c := Peek(pat, pos);
        pos := pos + 1;
        if c == RBRACKET {
          Place(buf, ep, w, DASH, SetOf(acc));
          WideWithDash(SetOf(acc));
          return;
        }
        m := To(c);
      }
      var ok;
      ok, w := AddMember(buf, ep, endbuf, w, m, lc, acc);
      ghost var more := acc + [m];
      RestTurn(pat, pos, more);
      if !ok {
        WideKept(pat, pos, more);
        err := 50;
        return;
      }
      acc := more;
      lc := c;
      c := Peek(pat, pos);
      if c == RBRACKET {
        assert Denoted(acc, false) == SetOf(acc);
        pos := pos + 1;
        return;
      }
    }
  }

  lemma {:induction false} WideWithDash(members: set<byte>)
    ensures Wide(members + {DASH}) <==> Wide(members)
  {
    if Wide(members) {
      var c :| c in members && c >= 128;
      assert c in members + {DASH};
    }
  }

  /** The members of an accepted bracket expression do not include NUL. */
  lemma {:induction false} NoNulMember(pat: seq<byte>, pos: nat, acc: seq<Member>)
    requires NulFree(pat) && 0 !in SetOf(acc) && (acc != [] && LastChar(acc) == 0 ==> pos >= |pat|)
    ensures LexMembers(pat, pos, acc).Body? ==> 0 !in SetOf(LexMembers(pat, pos, acc).body)
    decreases Left(pat, pos)
  {
    var c := Peek(pat, pos);
    if c == 0 || c == NEWLINE || (c == DASH && acc != [] && Peek(pat, pos + 1) == RBRACKET) {
    } else {
      var m, end := Single(c), pos + 1;
      if c == DASH && acc != [] { m, end := To(Peek(pat, pos + 1)), pos + 2; }
      var more := acc + [m];
      assert more[..|acc|] == acc;
      assert LexMembers(pat, pos, acc) == LexRest(pat, end, more);
      if m.c == 0 {
        assert LexRest(pat, end, more) == LexMembers(pat, end, more) == NoBody(more);
      } else {
        NoNulMember(pat, end, more);
      }
    }
  }

  lemma {:induction false} NoNulDenoted(pat: seq<byte>, pos: nat)
    requires NulFree(pat)
    ensures var r := LexMembers(pat, pos, []); r.Body? ==> 0 !in Denoted(r.body, r.dash)
  {
    NoNulMember(pat, pos, []);
  }

  /** The item of a bracket expression. */
  ghost function ClassItem(tok: Token): Item
    requires tok.Bracket?
  {
    Item(One(Set(tok.neg, Denoted(tok.body, tok.dash))), false, [])
  }

  lemma {:induction false} ClassCode(b: seq<byte>, ep: nat, w: nat, neg: bool, members: set<byte>)
    requires 0 < ep && w == (if Wide(members) then 32 else 16)
    requires MapAt(b, ep, w, if !neg then members else if w == 32 then Complement(members) else members + {0})
    requires b[ep - 1] == if w == 32 then CXCL else if neg then NCCL else CCL
    ensures b[ep - 1..ep + w] == ItemCode(Item(One(Set(neg, members)), false, []))
  {
    hide Holds, Bitmap, Complement;
    var held := if !neg then members else if w == 32 then Complement(members) else members + {0};
    BitmapUnique(b[ep..ep + w], held);
    var x := Item(One(Set(neg, members)), false, []);
    assert Operand(x.base) == b[ep..ep + w];
    hide MapAt, Operand, Wide;
    assert RangeCode([]) == [];
    assert b[ep - 1..ep + w] == [b[ep - 1]] + b[ep..ep + w];
  }

  /** case '[': the class opcode and its map, written at `ep`. */
  method CompileBracket(pat: seq<byte>, start: nat, buf: array<byte>, ep: nat, endbuf: nat)
    returns (r: Compiled, pos: nat)
    requires ep < endbuf <= buf.Length && NulFree(pat)
    modifies buf
    ensures OnlyWithin(buf, ep, endbuf)
    ensures match LexBracket(pat, start)
      case Token(tok, end) =>
        && tok.Bracket?
        && var code := ItemCode(ClassItem(tok));
        if ep + |code| < endbuf
        then r == Return(ep + |code|) && pos == end && buf[ep..ep + |code|] == code
        else r == Error(50)
      case Stop => false
      case Wrong(code) => code == 49 && r == Error(if endbuf <= ep + ClassRoom(pat, start) then 50 else 49)
  {
    hide LexMembers, SetOf, MapAt, ClassAt, ItemCode, Wide;
    pos := start;
    ghost var lexed := LexBracket(pat, start);
    if lexed.Token? { ClassSize(lexed.tok); }
    if ep + 17 >= endbuf {
      return Error(50), pos;
    }
    StartClass(buf, ep + 1);
    var neg := Peek(pat, pos) == CARET;
    if neg {
      pos := pos + 1;
    }
    NoNulDenoted(pat, pos);
    var err, w;
    err, pos, w := BracketBody(pat, pos, buf, ep + 1, endbuf);
    if err != 0 {
      return Error(err), pos;
    }
    FinishClass(buf, ep + 1, w, neg, Denoted(lexed.tok.body, lexed.tok.dash));
    r := Return(ep + 1 + w);
  }

  lemma {:induction false} ClassSize(tok: Token)
    requires tok.Bracket?
    ensures |ItemCode(ClassItem(tok))| == if Wide(Denoted(tok.body, tok.dash)) then 33 else 17
  {
  }

  /** CCL with an empty map. */
  method StartClass(buf: array<byte>, ep: nat)
    requires 0 < ep && ep + 16 <= buf.Length
    modifies buf
    ensures ClassAt(buf[..], ep, 16, {})
    ensures OnlyWithin(buf, ep - 1, ep + 16)
  {
    buf[ep - 1] := CCL;
    Clear(buf, ep, ep + 16);
    EmptyMap(buf[..], ep);
  }

  /** The map is complete; `[^` turns it over. */
  method FinishClass(buf: array<byte>, ep: nat, w: nat, neg: bool, ghost members: set<byte>)
    requires ClassAt(buf[..], ep, w, members) && 0 !in members
    modifies buf
    ensures OnlyWithin(buf, ep - 1, ep + w)
    ensures var code := ItemCode(Item(One(Set(neg, members)), false, []));
      |code| == 1 + w && ep + w <= buf.Length && buf[ep - 1..ep + w] == code
  {
    if neg {
      Negate(buf, ep, w, members);
    }
    ClassCode(buf[..], ep, w, neg, members);
    assert buf[..][ep - 1..ep + w] == buf[ep - 1..ep + w];
  }

  lemma {:induction false} EmptyMap(b: seq<byte>, ep: nat)
    requires 0 < ep && ep + 16 <= |b| && b[ep - 1] == CCL && forall x :: ep <= x < ep + 16 ==> b[x] == 0
    ensures ClassAt(b, ep, 16, {})
  {
    forall c: byte | c / 8 < 16 ensures !Bit(b[ep..ep + 16][c / 8], c % 8) {
      ZeroHasNoBits(c % 8);
    }
  }

  // ----- intervals -----

  lemma {:induction false} ValueGrows(acc: seq<byte>, c: byte)
    ensures Value(acc + [c]) == 10 * Value(acc) + c - ZERO
  {
    assert (acc + [c])[..|acc|] == acc;
  }

  /** One bound of an interval, up to the backslash or comma behind it; `ok` is false on ERROR(16). */
  method ReadNumber(pat: seq<byte>, start: nat) returns (ok: bool, i: int, pos: nat)
    ensures ok <==> LexNumber(pat, start, []).Number?
    ensures ok ==> i == Value(LexNumber(pat, start, []).digits) >= 0 && pos == LexNumber(pat, start, []).end
  {
    i, pos := 0, start;
    ghost var acc: seq<byte> := [];
    while true
      invariant LexNumber(pat, start, []) == LexNumber(pat, pos, acc)
      invariant i == Value(acc) >= 0
      decreases Left(pat, pos)
    {
      var c := Peek(pat, pos);
      if ZERO <= c <= NINE {
        i := 10 * i + c - ZERO;
      } else {
        return false, i, pos;
      }
      ValueGrows(acc, c);
      acc := acc + [c];
      pos := pos + 1;
      c := Peek(pat, pos);
      if c == BACKSLASH || c == COMMA {
        return true, i, pos;
      }
    }
  }

  /** The two bound bytes of `\{...\}`, written at `ep`; `start` is behind the opening brace. */
  method CompileInterval(pat: seq<byte>, start: nat, buf: array<byte>, ep: nat) returns (r: Compiled, pos: nat)
    requires ep < buf.Length && (SecondBound(pat, start).Some? ==> ep + 1 < buf.Length)
    modifies buf
    ensures match SecondBound(pat, start)
      case None => OnlyWithin(buf, ep, ep + 1)
      case Some(b) => OnlyWithin(buf, ep, ep + 2) && buf[ep + 1] == b
    ensures match LexInterval(pat, start)
      case Token(tok, end) =>
        && tok.Interval?
        && r == Return(ep + 2) && pos == end
        && buf[ep] == RangeOf(tok.lo, tok.hi).lo && buf[ep + 1] == RangeOf(tok.lo, tok.hi).hi
      case Stop => false
      case Wrong(code) => r == Error(code)
  {
    hide LexNumber, Value;
    NumberAdvance(pat, start, []);
    var ok, i;
    ok, i, pos := ReadNumber(pat, start);
    if !ok {
      return Error(16), pos;
    }
    if i >= 255 {
      return Error(11), pos;
    }
    buf[ep] := i;
    var at, cflg := ep + 1, false;
    if Peek(pat, pos) == COMMA {
      cflg := true;
      pos := pos + 1;
      if Peek(pat, pos) == BACKSLASH {
        buf[at] := 255;
      } else {
        NumberAdvance(pat, pos, []);
        ok, i, pos := ReadNumber(pat, pos);
        if !ok {
          return Error(16), pos;
        }
        if i >= 255 {
          return Error(11), pos;
        }
        buf[at] := i;
        if Peek(pat, pos) == COMMA {
          return Error(44), pos;
        }
      }
      at := at + 1;
    }
    pos := pos + 1;
    if Peek(pat, pos) != RBRACE {
      return Error(45), pos;
    }
    pos := pos + 1;
    if !cflg {
      buf[at] := i;
    } else if buf[at - 1] < buf[at - 2] {
      return Error(46), pos;
    }
    r := Return(ep + 2);
  }
}
