/**
 What a pattern matches, said of its tokens and of positions in the text alone.

 A run gives the position in front of every unit. Each unit takes the text up to the next position.
 */
module Meaning {
  import opened Bytes
  import opened Pattern

  /** A token with the stars and intervals behind it. */
  datatype Unit = Unit(tok: Token, mods: seq<Token>)

  function Flatten(us: seq<Unit>): seq<Token> {
    if us == [] then [] else Flatten(us[..|us| - 1]) + [us[|us| - 1].tok] + us[|us| - 1].mods
  }

  /** `us` divides the tokens into units. */
  ghost predicate Divides(us: seq<Unit>, toks: seq<Token>) {
    && Flatten(us) == toks
    && (forall n :: 0 <= n < |us| ==> !IsModifier(us[n].tok))
    && (forall n, m :: 0 <= n < |us| && 0 <= m < |us[n].mods| ==> IsModifier(us[n].mods[m]))
  }

  // ----- characters -----

  /** `c` is listed between the brackets, or lies in a range, or is the dash at the end. */
  ghost predicate Listed(body: seq<Member>, dash: bool, c: byte) {
    || (exists n :: 0 <= n < |body| && body[n].c == c)
    || (exists n :: 0 < n < |body| && body[n].To? && body[n - 1].c <= c <= body[n].c)
    || (dash && c == DASH)
  }

  /** The token stands for one character; in a text there is no NUL. */
  predicate IsChar(tok: Token) {
    tok.Literal? || tok.Quoted? || tok.AnyChar? || tok.Bracket?
  }

  ghost predicate Matches(tok: Token, c: byte) {
    match tok
    case Literal(d) => c == d
    case Quoted(d) => c == if d == LETTER_N then NEWLINE else d
    case AnyChar => true
    case Bracket(neg, body, dash) => Listed(body, dash, c) != neg
    case _ => false
  }

  // ----- how often -----

  /** Without upper bound an interval stops 20000 above its lower bound. */
  predicate Within(lo: seq<byte>, hi: Upper, k: nat) {
    && Value(lo) <= k
    && match hi
       case Exact => k <= Value(lo)
       case Unbounded => k <= Value(lo) + 20000
       case UpTo(ds) => k <= Value(ds)
  }

  /** Once, if nothing else is said; as intervals say; otherwise any number of times. */
  ghost predicate Times(mods: seq<Token>, k: nat) {
    && (mods == [] ==> k == 1)
    && (forall m :: 0 <= m < |mods| && mods[m].Interval? ==> Within(mods[m].lo, mods[m].hi, k))
  }

  // ----- groups -----

  ghost function Opened(us: seq<Unit>, n: nat): nat
    requires n <= |us|
  {
    if n == 0 then 0 else Opened(us, n - 1) + if us[n - 1].tok.GroupOpen? then 1 else 0
  }

  ghost function Depth(us: seq<Unit>, n: nat): int
    requires n <= |us|
  {
    if n == 0 then 0
    else Depth(us, n - 1) +
         if us[n - 1].tok.GroupOpen? then 1 else if us[n - 1].tok.GroupClose? then -1 else 0
  }

  /** Group number `g`, counted by opening brackets, goes from unit `o` to the bracket `d` that matches it. */
  ghost predicate IsGroup(us: seq<Unit>, g: nat, o: nat, d: nat) {
    && o < d < |us| && us[o].tok.GroupOpen? && us[d].tok.GroupClose?
    && Opened(us, o) == g
    && Depth(us, d + 1) == Depth(us, o)
    && forall m :: o < m <= d ==> Depth(us, m) > Depth(us, o)
  }

  // ----- runs -----

  function CopiesOf(w: seq<byte>, k: nat): seq<byte> {
    if k == 0 then [] else w + CopiesOf(w, k - 1)
  }

  /** `v` is a copy of `w`, or any number of copies when there is a star. */
  ghost predicate IsCopy(w: seq<byte>, v: seq<byte>, star: bool) {
    if star then exists k: nat :: v == CopiesOf(w, k) else v == w
  }

  /** The text of the group from unit `o` to unit `d`. */
  ghost function GroupText(s: seq<byte>, at: seq<nat>, o: nat, d: nat): seq<byte> {
    if o < |at| && d < |at| && at[o] <= at[d] <= |s| then s[at[o]..at[d]] else []
  }

  /** Unit `n` takes the text from `at[n]` to `at[n + 1]`. */
  ghost predicate Takes(us: seq<Unit>, n: nat, s: seq<byte>, at: seq<nat>)
    requires n < |us| && n + 1 < |at|
  {
    var tok, mods, i, j := us[n].tok, us[n].mods, at[n], at[n + 1];
    && i <= j <= |s|
    && if IsChar(tok) then Times(mods, j - i) && forall x :: i <= x < j ==> Matches(tok, s[x])
       else if tok.BackRef? then
         exists o: nat, d: nat ::
           o < d < n && IsGroup(us, tok.g, o, d) && IsCopy(GroupText(s, at, o, d), s[i..j], Asterisk in mods)
       else if tok.EndAnchor? then i == j == |s|
       else i == j
  }

  /** The units in front of the last position have taken their text. */
  ghost predicate Run(us: seq<Unit>, s: seq<byte>, at: seq<nat>) {
    && 0 < |at| <= |us| + 1 && at[0] <= |s|
    && forall n :: 0 <= n < |at| - 1 ==> Takes(us, n, s, at)
  }

  /** The pattern matches, with these positions. */
  ghost predicate Match(us: seq<Unit>, s: seq<byte>, at: seq<nat>) {
    Run(us, s, at) && |at| == |us| + 1
  }

  /** Unit `n` is a starred back-reference to a group that took nothing. */
  ghost predicate Hollow(us: seq<Unit>, n: nat, s: seq<byte>, at: seq<nat>)
    requires n < |us|
  {
    && us[n].tok.BackRef? && Asterisk in us[n].mods
    && exists o: nat, d: nat :: o < d < n && IsGroup(us, us[n].tok.g, o, d) && GroupText(s, at, o, d) == []
  }

  /** The run leads to the first such unit. */
  ghost predicate Hangs(us: seq<Unit>, s: seq<byte>, at: seq<nat>) {
    && Run(us, s, at) && |at| <= |us|
    && Hollow(us, |at| - 1, s, at)
    && forall n :: 0 <= n < |at| - 1 ==> !Hollow(us, n, s, at)
  }

  /** As far as the runs agree, `bt` then goes at least as far as `at`. */
  ghost predicate Further(at: seq<nat>, bt: seq<nat>) {
    forall n :: 0 <= n < |at| && n < |bt| && at[..n] == bt[..n] ==> at[n] <= bt[n]
  }

  /** The captures are the positions of the group brackets. */
  ghost predicate CapturesAre(us: seq<Unit>, at: seq<nat>, starts: seq<int>, ends: seq<int>) {
    forall g: nat, o: nat, d: nat ::
      IsGroup(us, g, o, d) ==>
        && o < |at| && d < |at| && g < |starts| && g < |ends|
        && starts[g] == at[o] && ends[g] == at[d]
  }

  // ----- which run is found -----

  /** No run from `i` matches or hangs. */
  ghost predicate Silent(us: seq<Unit>, s: seq<byte>, i: nat) {
    forall at: seq<nat> :: at != [] && at[0] == i ==> !Match(us, s, at) && !Hangs(us, s, at)
  }

  /** `i` is the leftmost start at which a run matches or hangs; the only start allowed when the pattern is anchored. */
  ghost predicate Leftmost(us: seq<Unit>, s: seq<byte>, anchored: bool, i: int) {
    0 <= i <= |s| && (anchored ==> i == 0) && forall j :: 0 <= j < i ==> Silent(us, s, j)
  }

  /** Of all runs from its start that match, `at` takes most, unit by unit; and no run that hangs is tried before. */
  ghost predicate Best(us: seq<Unit>, s: seq<byte>, at: seq<nat>) {
    && Match(us, s, at)
    && (forall bt: seq<nat> :: bt != [] && Match(us, s, bt) && bt[0] == at[0] ==> Further(bt, at))
    && (forall bt: seq<nat> :: bt != [] && Hangs(us, s, bt) && bt[0] == at[0] ==> !Further(at, bt))
  }

  /** `at` hangs, and no run that matches is tried before. */
  ghost predicate Stalls(us: seq<Unit>, s: seq<byte>, at: seq<nat>) {
    && Hangs(us, s, at)
    && forall bt: seq<nat> :: bt != [] && Match(us, s, bt) && bt[0] == at[0] ==> Further(bt, at)
  }
}
