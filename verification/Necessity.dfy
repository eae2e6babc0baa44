/**
 Why the fragment ends where it does: outside it the code no longer shows the items, or a back-reference
 reads what an earlier run has left behind, or an item accepts the NUL that ends the text.
 */
module Necessity {
  import opened Bytes
  import opened Program
  import opened Semantics
  import opened Pattern
  import opened Decoder
  import opened Fragment
  import opened Divergence

  /** No item accepts the NUL that ends the text. */
  ghost predicate StopsAtNul(p: seq<Item>) {
    forall t :: 0 <= t < |p| && p[t].base.One? ==> !Accepts(p[t].base.atom, 0)
  }

  /** What a back-reference reads is determined by what the items before it have written. */
  ghost predicate Determined(p: seq<Item>) {
    forall s, t, c, d ::
      0 <= t < |p| && p[t].base.Back? && Similar(p, t, c, d) ==>
        Captured(s, c, p[t].base.g) == Captured(s, d, p[t].base.g)
  }

  // ----- the code shows the items -----

  ghost predicate Fine(x: Item) {
    Decodable(x) && (x.base.One? ==> !Accepts(x.base.atom, 0))
  }

  ghost predicate FineAll(p: seq<Item>) {
    forall t :: 0 <= t < |p| ==> Fine(p[t])
  }

  lemma {:induction false} NewItemFine(before: seq<Token>, tok: Token)
    requires LawfulNext(before, tok) && !IsModifier(tok)
    ensures Fine(Item(BaseOf(before, tok), false, [])) <==> (tok.Quoted? ==> tok.c != 0)
  {
    hide Items, Opens, Closes, Stack, StarIsLiteral, LegalBody, Denoted;
  }

  lemma {:induction false} ModifiedFine(x: Item, tok: Token)
    requires IsModifier(tok) && !x.base.Dol?
    requires tok.Asterisk? ==> !((x.base.Open? || x.base.Close?) && !x.star && x.ranges == [])
    ensures Fine(Modified(x, tok)) <==> Fine(x) && (tok.Interval? ==> x.base.One? && x.ranges == [])
  {
    hide Accepts, RangeOf;
  }

  lemma {:induction false} FineLast(p: seq<Item>)
    requires p != []
    ensures FineAll(p) <==> Fine(p[|p| - 1]) && forall t :: 0 <= t < |p| - 1 ==> Fine(p[t])
  {
    hide Fine;
  }

  lemma {:induction false} FineStep(before: seq<Token>, tok: Token)
    requires Lawful(before) && LawfulNext(before, tok)
    ensures FineAll(Items(before + [tok])) <==>
      && FineAll(Items(before))
      && (tok.Quoted? ==> tok.c != 0)
      && (tok.Interval? ==> var xs := Items(before); xs != [] && xs[|xs| - 1].base.One? && xs[|xs| - 1].ranges == [])
  {
    hide Fine, Items, LegalInterval, LegalBody, Modified, BaseOf, Stack, Opens, Closes;
    LawfulDolLast(before);
    var xs, ys := Items(before), Items(before + [tok]);
    ItemsStep(before, tok);
    FineLast(ys);
    if IsModifier(tok) {
      ModifiedFine(xs[|xs| - 1], tok);
      hide Lawful;
      FineLast(xs);
    } else {
      NewItemFine(before, tok);
      hide Lawful;
      assert forall t :: 0 <= t < |xs| ==> ys[t] == xs[t];
    }
  }

  lemma {:induction false} FineIff(toks: seq<Token>)
    requires Lawful(toks)
    ensures FineAll(Items(toks)) <==> ShapedAll(Items(toks))
  {
    if toks != [] {
      hide Items, LawfulNext, FineAll, ShapedAll;
      var before, tok := toks[..|toks| - 1], toks[|toks| - 1];
      assert toks == before + [tok];
      FineIff(before);
      FineStep(before, tok);
      ShapedStep(before, tok);
    }
  }

  // ----- a back-reference reads its own run -----

  /** The end of a group that is not closed yet is whatever it was. */
  lemma {:induction false} StaleEnd(p: seq<Item>, t: nat, g: byte) returns (c: Caps, d: Caps)
    requires g < NBRA && !ClosedBefore(p, t, g)
    ensures Similar(p, t, c, d) && Captured([1], c, g) != Captured([1], d, g)
  {
    c := NoCaps();
    d := c.(ends := c.ends[g := 1]);
    assert Captured([1], c, g) == [] && Captured([1], d, g) == [1];
  }

  lemma {:induction false} BacksDetermined(p: seq<Item>, st: seq<byte>, n: nat, m: nat)
    requires Brackets(p, st, n, m) && ShapedAll(p)
    ensures Determined(p) <==> BacksOk(p)
  {
    if BacksOk(p) {
      GroupedIsBacksOk(p, st, n, m);
      forall s, t, c, d | 0 <= t < |p| && p[t].base.Back? && Similar(p, t, c, d)
        ensures Captured(s, c, p[t].base.g) == Captured(s, d, p[t].base.g)
      {
        assert Shaped(p[t]);
        BackIsSettled(p, t, p[t].base.g);
      }
    }
    if Determined(p) {
      forall t | 0 <= t < |p| && p[t].base.Back? ensures ClosedBefore(p, t, p[t].base.g) {
        assert Shaped(p[t]);
        if !ClosedBefore(p, t, p[t].base.g) {
          var c, d := StaleEnd(p, t, p[t].base.g);
          assert false;
        }
      }
    }
  }

  /** An accepted pattern is in the fragment exactly when its code reads back to its items, no item runs over the end
      of the text, and no back-reference depends on an earlier run. */
  lemma {:induction false} FragmentExact(toks: seq<Token>)
    requires Lawful(toks)
    ensures var p := Items(toks);
      InFragment(toks) <==> Decode(Code(p)) == Some(NormalAll(p, 0)) && StopsAtNul(p) && Determined(p)
  {
    hide InFragment, Lawful, Items, Decode, Code, NormalAll, Determined, Brackets, Opens, Closes, Stack, BacksOk,
         Grouped;
    var p := Items(toks);
    RunnableIff(toks);
    LawfulBrackets(toks);
    GroupedIsBacksOk(p, Stack(toks), Opens(toks), Closes(toks));
    DecodeIff(p);
    FineIff(toks);
    if ShapedAll(p) { BacksDetermined(p, Stack(toks), Opens(toks), Closes(toks)); }
  }
}
