/** The other half: where a value can complete a token, some values make the
    passes and the simultaneous substitution differ. The passes then replace
    more, and what they give is shorter. */
module TemplatesExact {
  import opened Text
  import opened CaseReplace
  import opened Templates

  // ----- What a pass does to any segments ---------------------------------

  lemma FlatTail(segs: seq<Segment>)
    requires segs != [] && segs[0].Ch?
    ensures Flat(segs) == [segs[0].c] + Flat(segs[1..]) && Flat(segs)[1..] == Flat(segs[1..])
    ensures Lower(Flat(segs))[0] == LowerChar(segs[0].c) && Lower(Flat(segs))[1..] == Lower(Flat(segs[1..]))
  {
  }

  lemma PrefixTail(x: string, y: string)
    requires x != [] && x <= y
    ensures x[1..] <= y[1..] && x[0] == y[0]
  {
    assert x[1..] == y[1..][..|x| - 1];
  }

  lemma StartsWithChar(segs: seq<Segment>, x: string)
    requires AllProper(segs) && x != [] && x <= Lower(Flat(segs)) && x[0] != '{'
    ensures segs != [] && segs[0].Ch?
  {
    assert x[0] == LowerChar(Flat(segs)[0]);
    if segs[0].Tok? {
      SpellingBraces(segs[0].token, segs[0].spelling);
    }
  }

  /** Text in front with no opening brace past its start is spelled by
      characters, unless a token starts there. */
  lemma {:induction false} PrefixIsChars(segs: seq<Segment>, x: string)
    requires AllProper(segs) && x <= Lower(Flat(segs))
    requires x != [] ==> '{' !in x[1..] && (x[0] == '{' ==> segs[0].Ch?)
    ensures |x| <= |segs| && |x| <= |Flat(segs)| && Flat(segs[|x|..]) == Flat(segs)[|x|..]
    ensures forall i :: 0 <= i < |x| ==> segs[i].Ch? && LowerChar(segs[i].c) == x[i]
  {
    if x == [] {
      assert segs[0..] == segs;
    } else {
      if x[0] != '{' {
        StartsWithChar(segs, x);
      }
      FlatTail(segs);
      PrefixTail(x, Lower(Flat(segs)));
      PrefixIsChars(segs[1..], x[1..]);
      assert segs[1..][|x| - 1..] == segs[|x|..];
      assert forall i :: 1 <= i < |x| ==> segs[i] == segs[1..][i - 1] && x[i] == x[1..][i - 1];
    }
  }

  lemma {:induction false} MatchIsChars(segs: seq<Segment>, t: Token)
    requires AllProper(segs) && segs != [] && segs[0].Ch? && t <= Lower(Flat(segs))
    ensures |t| <= |segs| && |t| <= |Flat(segs)| && Flat(segs[|t|..]) == Flat(segs)[|t|..]
    ensures forall i :: 0 <= i < |t| ==> segs[i].Ch? && LowerChar(segs[i].c) == t[i]
  {
    PrefixIsChars(segs, t);
  }

  /** The segments after a pass, which also finds the token where characters
      happen to spell it. */
  function Replaced(segs: seq<Segment>, t: Token, value: string): seq<Segment>
    decreases |segs|
  {
    if segs == [] then []
    else if segs[0].Tok? then
      (if segs[0].token == t then Chars(value) else [segs[0]]) + Replaced(segs[1..], t, value)
    else if t <= Lower(Flat(segs)) && |t| <= |segs| then Chars(value) + Replaced(segs[|t|..], t, value)
    else [segs[0]] + Replaced(segs[1..], t, value)
  }

  lemma ProperConcat(a: seq<Segment>, b: seq<Segment>)
    ensures AllProper(a + b) <==> AllProper(a) && AllProper(b)
  {
    assert forall i :: 0 <= i < |a| ==> (a + b)[i] == a[i];
    assert forall i :: 0 <= i < |b| ==> (a + b)[|a| + i] == b[i];
  }

  /** What a pass puts in place of the first segments. */
  function HeadOf(segs: seq<Segment>, t: Token, value: string): seq<Segment>
    requires segs != []
  {
    if (segs[0].Tok? && segs[0].token == t) || (segs[0].Ch? && t <= Lower(Flat(segs))) then Chars(value) else [segs[0]]
  }

  /** How many segments that is. */
  function TakenBy(segs: seq<Segment>, t: Token): (n: nat)
    requires segs != []
    ensures n >= 1
  {
    if segs[0].Ch? && t <= Lower(Flat(segs)) then |t| else 1
  }

  lemma ReplacedOnce(segs: seq<Segment>, t: Token, value: string)
    requires segs != [] && TakenBy(segs, t) <= |segs|
    ensures Replaced(segs, t, value) == HeadOf(segs, t, value) + Replaced(segs[TakenBy(segs, t)..], t, value)
  {
  }

  lemma ReplacedOnceAs(
    segs: seq<Segment>, t: Token, value: string, head: seq<Segment>, n: nat, rest: seq<Segment>)
    requires segs != [] && n == TakenBy(segs, t) <= |segs| && head == HeadOf(segs, t, value) && segs[n..] == rest
    ensures Replaced(segs, t, value) == head + Replaced(rest, t, value)
  {
    ReplacedOnce(segs, t, value);
  }

  lemma FlatOne(s: Segment)
    ensures Flat([s]) == Spell(s)
  {
    assert [s][1..] == [] && Spell(s) + [] == Spell(s);
  }

  lemma HeadOfTok(u: Token, spelling: string, rest: string, t: Token, value: string)
    requires Lower(spelling) == u
    ensures ReplaceCi(spelling + rest, t, value) == (if u == t then value else spelling) + ReplaceCi(rest, t, value)
  {
    if u == t {
      FoundHere(t, spelling, rest, value);
    } else {
      NotFoundHere(t, u, spelling, rest, value);
    }
  }

  lemma {:induction false} HeadOfCh(segs: seq<Segment>, t: Token, value: string)
    requires AllProper(segs) && segs != [] && segs[0].Ch?
    ensures TakenBy(segs, t) <= |segs|
    ensures ReplaceCi(Flat(segs), t, value) ==
            (if t <= Lower(Flat(segs)) then value else [segs[0].c]) +
            ReplaceCi(Flat(segs[TakenBy(segs, t)..]), t, value)
  {
    if t <= Lower(Flat(segs)) {
      MatchIsChars(segs, t);
    } else {
      FlatTail(segs);
      SkipUnmatched(Flat(segs), t, value);
    }
  }

  lemma HeadFlat(segs: seq<Segment>, t: Token, value: string)
    requires AllProper(segs) && segs != []
    ensures TakenBy(segs, t) <= |segs| && AllProper(HeadOf(segs, t, value))
    ensures ReplaceCi(Flat(segs), t, value) ==
            Flat(HeadOf(segs, t, value)) + ReplaceCi(Flat(segs[TakenBy(segs, t)..]), t, value)
  {
    CharsSpell(value, _ => "");
    FlatOne(segs[0]);
    if segs[0].Tok? {
      HeadOfTok(segs[0].token, segs[0].spelling, Flat(segs[1..]), t, value);
    } else {
      HeadOfCh(segs, t, value);
    }
  }

  lemma {:induction false} ReplacedFlat(segs: seq<Segment>, t: Token, value: string)
    requires AllProper(segs)
    ensures Flat(Replaced(segs, t, value)) == ReplaceCi(Flat(segs), t, value)
    ensures AllProper(Replaced(segs, t, value))
    decreases |segs|
  {
    if segs == [] {
    } else {
      HeadFlat(segs, t, value);
      var rest := segs[TakenBy(segs, t)..];
      ReplacedOnce(segs, t, value);
      ReplacedFlat(rest, t, value);
      FlatConcat(HeadOf(segs, t, value), Replaced(rest, t, value));
      ProperConcat(HeadOf(segs, t, value), Replaced(rest, t, value));
    }
  }

  predicate OnlyTokens(segs: seq<Segment>, order: seq<Token>) {
    forall i :: 0 <= i < |segs| && segs[i].Tok? ==> segs[i].token in order
  }

  lemma OnlyTokensConcat(a: seq<Segment>, b: seq<Segment>, order: seq<Token>)
    ensures OnlyTokens(a + b, order) <==> OnlyTokens(a, order) && OnlyTokens(b, order)
  {
    assert forall i :: 0 <= i < |a| ==> (a + b)[i] == a[i];
    assert forall i :: 0 <= i < |b| ==> (a + b)[|a| + i] == b[i];
  }

  lemma {:induction false} ReplacedTokens(segs: seq<Segment>, order: seq<Token>, value: string)
    requires order != [] && OnlyTokens(segs, order)
    ensures OnlyTokens(Replaced(segs, order[0], value), order[1..])
    decreases |segs|
  {
    var t := order[0];
    if segs == [] {
    } else if segs[0].Tok? {
      ReplacedTokens(segs[1..], order, value);
      OnlyTokensConcat(if segs[0].token == t then Chars(value) else [segs[0]],
                       Replaced(segs[1..], t, value), order[1..]);
    } else if t <= Lower(Flat(segs)) && |t| <= |segs| {
      ReplacedTokens(segs[|t|..], order, value);
      OnlyTokensConcat(Chars(value), Replaced(segs[|t|..], t, value), order[1..]);
    } else {
      ReplacedTokens(segs[1..], order, value);
      OnlyTokensConcat([segs[0]], Replaced(segs[1..], t, value), order[1..]);
    }
  }

  // ----- The length that is left ------------------------------------------

  function Weight(segs: seq<Segment>, values: Token -> string): nat { |FillAll(segs, values)| }

  lemma WeightConcat(a: seq<Segment>, b: seq<Segment>, values: Token -> string)
    ensures Weight(a + b, values) == Weight(a, values) + Weight(b, values)
  {
    FillAllConcat(a, b, values);
  }

  lemma WeightSplit(segs: seq<Segment>, n: nat, values: Token -> string)
    requires n <= |segs|
    ensures Weight(segs, values) == Weight(segs[..n], values) + Weight(segs[n..], values)
  {
    assert segs == segs[..n] + segs[n..];
    WeightConcat(segs[..n], segs[n..], values);
  }

  lemma WeightChars(s: string, values: Token -> string)
    ensures Weight(Chars(s), values) == |s|
  {
    CharsSpell(s, values);
  }

  lemma {:induction false} WeightOfChars(segs: seq<Segment>, values: Token -> string)
    requires forall i :: 0 <= i < |segs| ==> segs[i].Ch?
    ensures Weight(segs, values) == |segs| && Flat(segs) == FillAll(segs, values)
  {
    if segs == [] {
    } else {
      WeightOfChars(segs[1..], values);
    }
  }

  lemma HeadWeight(segs: seq<Segment>, t: Token, values: Token -> string)
    requires AllProper(segs) && segs != [] && |values(t)| <= |t|
    ensures TakenBy(segs, t) <= |segs|
    ensures Weight(HeadOf(segs, t, values(t)), values) <= Weight(segs[..TakenBy(segs, t)], values)
  {
    WeightChars(values(t), values);
    if segs[0].Ch? && t <= Lower(Flat(segs)) {
      MatchIsChars(segs, t);
      WeightOfChars(segs[..|t|], values);
    } else {
      assert segs[..1] == [segs[0]] && [segs[0]][1..] == [];
    }
  }

  /** A pass whose value is no longer than its token never leaves more. */
  lemma {:induction false} ReplacedWeight(segs: seq<Segment>, t: Token, values: Token -> string)
    requires AllProper(segs) && |values(t)| <= |t|
    ensures Weight(Replaced(segs, t, values(t)), values) <= Weight(segs, values)
    decreases |segs|
  {
    if segs == [] {
    } else {
      var n := TakenBy(segs, t);
      HeadWeight(segs, t, values);
      var head, rest := HeadOf(segs, t, values(t)), Replaced(segs[n..], t, values(t));
      ReplacedOnceAs(segs, t, values(t), head, n, segs[n..]);
      ReplacedWeight(segs[n..], t, values);
      WeightConcat(head, rest, values);
      WeightSplit(segs, n, values);
    }
  }

  predicate Short(order: seq<Token>, values: Token -> string) {
    forall i :: 0 <= i < |order| ==> |values(order[i])| < |order[i]|
  }

  lemma {:induction false} PassesShrink(segs: seq<Segment>, order: seq<Token>, values: Token -> string)
    requires AllProper(segs) && OnlyTokens(segs, order) && Short(order, values)
    ensures |Passes(Flat(segs), order, values)| <= Weight(segs, values)
    decreases |order|
  {
    if order == [] {
      WeightOfChars(segs, values);
    } else {
      var t := order[0];
      ReplacedFlat(segs, t, values(t));
      ReplacedTokens(segs, order, values(t));
      ReplacedWeight(segs, t, values);
      PassesShrink(Replaced(segs, t, values(t)), order[1..], values);
    }
  }

  // ----- What a pass leaves in place --------------------------------------

  predicate StartsWithBrace(segs: seq<Segment>) { segs != [] && Spell(segs[0]) != [] && Spell(segs[0])[0] == '{' }

  lemma {:induction false} FlatAtLeast(segs: seq<Segment>)
    requires AllProper(segs)
    ensures |Flat(segs)| >= |segs|
  {
    if segs == [] {
    } else {
      if segs[0].Tok? {
        SpellingBraces(segs[0].token, segs[0].spelling);
      }
      FlatAtLeast(segs[1..]);
    }
  }

  lemma ReplacedCh(c: char, b: seq<Segment>, t: Token, value: string)
    requires !(t <= Lower([c] + Flat(b)))
    ensures Replaced([Ch(c)] + b, t, value) == [Ch(c)] + Replaced(b, t, value)
  {
    FlatCons(Ch(c), b);
    assert ([Ch(c)] + b)[1..] == b;
  }

  lemma ReplacedTok(s: Segment, b: seq<Segment>, t: Token, value: string)
    requires s.Tok?
    ensures Replaced([s] + b, t, value) == (if s.token == t then Chars(value) else [s]) + Replaced(b, t, value)
  {
    assert ([s] + b)[1..] == b;
  }

  /** A token never reaches across an opening brace. */
  lemma {:induction false} MatchStaysBefore(a: seq<Segment>, b: seq<Segment>, t: Token)
    requires AllProper(a + b) && StartsWithBrace(b) && a != [] && a[0].Ch? && t <= Lower(Flat(a + b))
    ensures |t| <= |a|
  {
    MatchIsChars(a + b, t);
    assert (a + b)[|a|] == b[0];
  }

  lemma {:induction false} MatchExactly(a: seq<Segment>, b: seq<Segment>, t: Token)
    requires AllProper(a + b) && StartsWithBrace(b) && a != [] && a[0].Ch?
    ensures t <= Lower(Flat(a + b)) <==> t <= Lower(Flat(a))
    ensures t <= Lower(Flat(a)) ==> |t| <= |a|
  {
    ProperConcat(a, b);
    FlatConcat(a, b);
    FlatAtLeast(a);
    PrefixAcross(t, Flat(a), Flat(b));
    if t <= Lower(Flat(a + b)) {
      MatchStaysBefore(a, b, t);
    }
  }

  lemma PrefixAcross(t: string, a: string, b: string)
    ensures t <= Lower(a) ==> t <= Lower(a + b)
    ensures t <= Lower(a + b) && |t| <= |a| ==> t <= Lower(a)
  {
    assert Lower(a + b)[..|a|] == Lower(a);
    PrefixOfPrefix(t, Lower(a + b), |a|);
  }

  lemma SameHead(a: seq<Segment>, b: seq<Segment>, t: Token, value: string)
    requires AllProper(a + b) && StartsWithBrace(b) && a != []
    ensures HeadOf(a + b, t, value) == HeadOf(a, t, value)
    ensures TakenBy(a + b, t) == TakenBy(a, t) <= |a|
  {
    assert (a + b)[0] == a[0];
    if a[0].Ch? {
      MatchExactly(a, b, t);
    }
  }

  lemma ReplacedOnceConcat(a: seq<Segment>, b: seq<Segment>, t: Token, value: string)
    requires AllProper(a + b) && StartsWithBrace(b) && a != []
    ensures TakenBy(a, t) <= |a|
    ensures Replaced(a + b, t, value) == HeadOf(a, t, value) + Replaced(a[TakenBy(a, t)..] + b, t, value)
  {
    SameHead(a, b, t, value);
    var n := TakenBy(a, t);
    ReplacedOnceAs(a + b, t, value, HeadOf(a, t, value), n, a[n..] + b);
  }

  lemma {:induction false} ReplacedConcat(a: seq<Segment>, b: seq<Segment>, t: Token, value: string)
    requires AllProper(a) && AllProper(b) && StartsWithBrace(b)
    ensures Replaced(a + b, t, value) == Replaced(a, t, value) + Replaced(b, t, value)
    decreases |a|
  {
    if a == [] {
      assert a + b == b;
      assert Replaced(a, t, value) + Replaced(b, t, value) == Replaced(b, t, value);
    } else {
      ProperConcat(a, b);
      ReplacedOnceConcat(a, b, t, value);
      ReplacedOnce(a, t, value);
      ReplacedConcat(a[TakenBy(a, t)..], b, t, value);
      Reassociate(HeadOf(a, t, value), Replaced(a[TakenBy(a, t)..], t, value), Replaced(b, t, value));
    }
  }

  lemma CharsCons(w: string, b: seq<Segment>)
    requires w != []
    ensures Chars(w) + b == [Ch(w[0])] + (Chars(w[1..]) + b)
  {
  }

  lemma {:induction false} ReplacedPlain(x: string, b: seq<Segment>, t: Token, value: string)
    requires '{' !in x
    ensures Replaced(Chars(x) + b, t, value) == Chars(x) + Replaced(b, t, value)
  {
    if x == [] {
      assert Chars(x) + b == b && Chars(x) + Replaced(b, t, value) == Replaced(b, t, value);
    } else {
      var more := Chars(x[1..]) + b;
      ReplacedPlain(x[1..], b, t, value);
      assert Lower([x[0]] + Flat(more))[0] == LowerChar(x[0]) != t[0];
      ReplacedCh(x[0], more, t, value);
      CharsCons(x, b);
      CharsCons(x, Replaced(b, t, value));
    }
  }

  lemma FlatChars(w: string, b: seq<Segment>)
    ensures Flat(Chars(w) + b) == w + Flat(b)
  {
    FlatConcat(Chars(w), b);
    CharsSpell(w, _ => "");
  }

  /** A run with one opening brace, where the pass does not find its token. */
  lemma ReplacedRun(w: string, b: seq<Segment>, t: Token, value: string)
    requires w != [] && '{' !in w[1..] && !(t <= Lower(w + Flat(b)))
    ensures Replaced(Chars(w) + b, t, value) == Chars(w) + Replaced(b, t, value)
  {
    var more := Chars(w[1..]) + b;
    CharsCons(w, b);
    FlatChars(w, b);
    FlatCons(Ch(w[0]), more);
    ReplacedCh(w[0], more, t, value);
    ReplacedPlain(w[1..], b, t, value);
    CharsCons(w, Replaced(b, t, value));
  }

  lemma ReplacedSpelled(spelling: string, b: seq<Segment>, t: Token, value: string)
    requires Lower(spelling) == t
    ensures Replaced(Chars(spelling) + b, t, value) == Chars(value) + Replaced(b, t, value)
  {
    var all := Chars(spelling) + b;
    FlatConcat(Chars(spelling), b);
    CharsSpell(spelling, _ => "");
    assert Lower(Flat(all))[..|t|] == t;
    assert all[0] == Ch(spelling[0]) && all[|t|..] == b;
  }

  // ----- A token spelled by characters is replaced too --------------------

  lemma WeightAround(
    a: seq<Segment>, m: seq<Segment>, b: seq<Segment>, values: Token -> string)
    ensures Weight(a + (m + b), values) == Weight(a, values) + Weight(m, values) + Weight(b, values)
  {
    WeightConcat(a, m + b, values);
    WeightConcat(m, b, values);
  }

  lemma SpelledStartsWithBrace(spelling: string, t: Token, b: seq<Segment>)
    requires Lower(spelling) == t
    ensures StartsWithBrace(Chars(spelling) + b)
  {
    SpellingBraces(t, spelling);
    assert (Chars(spelling) + b)[0] == Ch(spelling[0]);
  }

  /** The pass for `x` over segments around a spelled token `t`. */
  lemma ReplacedAroundSpelled(
    a: seq<Segment>, spelling: string, t: Token, b: seq<Segment>, x: Token, value: string)
    requires AllProper(a + (Chars(spelling) + b)) && Lower(spelling) == t
    ensures Replaced(a + (Chars(spelling) + b), x, value) ==
            Replaced(a, x, value) + (Chars(if x == t then value else spelling) + Replaced(b, x, value))
  {
    SpelledStartsWithBrace(spelling, t, b);
    ProperConcat(a, Chars(spelling) + b);
    ReplacedConcat(a, Chars(spelling) + b, x, value);
    if x == t {
      ReplacedSpelled(spelling, b, t, value);
    } else {
      SpellingBraces(t, spelling);
      NotFoundHere(x, t, spelling, Flat(b), value);
      ReplacedRun(spelling, b, x, value);
    }
  }

  /** Passes with short values, one of them for a token that characters spell,
      leave strictly less than filling the tokens does. */
  lemma {:induction false} SpelledTokenShrinks(
    a: seq<Segment>, spelling: string, t: Token, b: seq<Segment>, order: seq<Token>, values: Token -> string)
    requires Lower(spelling) == t && t in order && Short(order, values)
    requires var segs := a + (Chars(spelling) + b); AllProper(segs) && OnlyTokens(segs, order)
    ensures var segs := a + (Chars(spelling) + b);
            |Passes(Flat(segs), order, values)| < Weight(segs, values)
    decreases |order|
  {
    var segs, x := a + (Chars(spelling) + b), order[0];
    var value := values(x);
    ReplacedFlat(segs, x, value);
    ReplacedTokens(segs, order, value);
    ReplacedAroundSpelled(a, spelling, t, b, x, value);
    var ra, rb := Replaced(a, x, value), Replaced(b, x, value);
    if x == t {
      PassesShrink(ra + (Chars(value) + rb), order[1..], values);
      ProperConcat(a, Chars(spelling) + b);
      ProperConcat(Chars(spelling), b);
      SpelledWeighsMore(a, spelling, b, x, values);
    } else {
      ReplacedWeight(segs, x, values);
      SpelledTokenShrinks(ra, spelling, t, rb, order[1..], values);
    }
  }

  lemma SpelledWeighsMore(
    a: seq<Segment>, spelling: string, b: seq<Segment>, x: Token, values: Token -> string)
    requires AllProper(a) && AllProper(b) && Lower(spelling) == x && |values(x)| < |x|
    ensures Weight(Replaced(a, x, values(x)) + (Chars(values(x)) + Replaced(b, x, values(x))), values) <
            Weight(a + (Chars(spelling) + b), values)
  {
    WeightAround(a, Chars(spelling), b, values);
    WeightAround(Replaced(a, x, values(x)), Chars(values(x)), Replaced(b, x, values(x)), values);
    WeightChars(spelling, values);
    WeightChars(values(x), values);
    ReplacedWeight(a, x, values);
    ReplacedWeight(b, x, values);
  }

  // ----- A run that a value completes -------------------------------------

  /** Segments with the run `w` directly before a token `u`. */
  function Around(a: seq<Segment>, w: string, u: Token, spelling: string, b: seq<Segment>): seq<Segment> {
    a + (Chars(w) + ([Tok(u, spelling)] + b))
  }

  /** `w` begins the token `t`, and `rest` is what it lacks. */
  predicate Lacks(w: string, rest: string, t: Token) { w != [] && rest != [] && Lower(w) + rest == t }

  lemma RunShape(w: string, rest: string, t: Token)
    requires Lacks(w, rest, t)
    ensures Begins(w, [t]) && w[0] == '{' && '{' !in w[1..]
  {
    assert Lower(w) <= [t][0] && |w| < |[t][0]|;
    BeginningHasNoToken(w, [t], t);
  }

  lemma RunCompleted(w: string, rest: string, t: Token)
    requires Lacks(w, rest, t)
    ensures Lower(w + rest) == t
  {
    var s := w + rest;
    assert |s| == |t|;
    assert forall i :: 0 <= i < |w| ==> Lower(s)[i] == LowerChar(w[i]) == Lower(w)[i] == t[i];
    assert forall i :: |w| <= i < |t| ==> Lower(s)[i] == LowerChar(rest[i - |w|]) == LowerChar(t[i]) == Lower(t)[i];
  }

  lemma NoTokenFromRun(w: string, rest: string, t: Token, x: Token, more: string)
    requires Lacks(w, rest, t) && more != [] && more[0] == '{'
    ensures !(x <= Lower(w + more))
  {
    RunShape(w, rest, t);
    BeginningHasNoToken(w, [t], x);
    assert w + more == w + [more[0]] + more[1..];
    TokenGoesOn(w, more[0], more[1..], x);
  }

  lemma CharsConcat(w: string, v: string, b: seq<Segment>)
    ensures Chars(w) + (Chars(v) + b) == Chars(w + v) + b
  {
  }

  /** The pass for `x` over a run directly before a token `u`. */
  lemma ReplacedFromRun(
    w: string, u: Token, spelling: string, b: seq<Segment>, rest: string, t: Token, x: Token, value: string)
    requires Lacks(w, rest, t) && Lower(spelling) == u
    ensures Replaced(Chars(w) + ([Tok(u, spelling)] + b), x, value) ==
            if x == u then Chars(w + value) + Replaced(b, x, value)
            else Chars(w) + ([Tok(u, spelling)] + Replaced(b, x, value))
  {
    var tail := [Tok(u, spelling)] + b;
    SpellingBraces(u, spelling);
    FlatCons(Tok(u, spelling), b);
    RunShape(w, rest, t);
    NoTokenFromRun(w, rest, t, x, Flat(tail));
    ReplacedRun(w, tail, x, value);
    ReplacedTok(Tok(u, spelling), b, x, value);
    CharsConcat(w, value, Replaced(b, x, value));
  }

  lemma ReplacedAroundRun(
    a: seq<Segment>, w: string, u: Token, spelling: string, b: seq<Segment>, rest: string, t: Token,
    x: Token, value: string)
    requires AllProper(Around(a, w, u, spelling, b)) && Lacks(w, rest, t) && Lower(spelling) == u
    ensures Replaced(Around(a, w, u, spelling, b), x, value) ==
            if x == u then Replaced(a, x, value) + (Chars(w + value) + Replaced(b, x, value))
            else Around(Replaced(a, x, value), w, u, spelling, Replaced(b, x, value))
  {
    var tail := Chars(w) + ([Tok(u, spelling)] + b);
    RunShape(w, rest, t);
    assert tail[0] == Ch('{');
    ProperConcat(a, tail);
    ReplacedConcat(a, tail, x, value);
    ReplacedFromRun(w, u, spelling, b, rest, t, x, value);
  }

  // Segments `mid` that the values turn into what a run lacks.

  predicate HasTok(segs: seq<Segment>) { exists i :: 0 <= i < |segs| && segs[i].Tok? }

  predicate NoBraceCh(segs: seq<Segment>) { forall i :: 0 <= i < |segs| && segs[i].Ch? ==> segs[i].c != '{' }

  /** Filled, `w` and `mid` spell `t`, and the last of `mid` has a part in it. */
  predicate Completes(w: string, mid: seq<Segment>, t: Token, values: Token -> string) {
    && w != [] && mid != [] && NoBraceCh(mid) && Lower(w + FillAll(mid, values)) == t
    && FillAll([mid[|mid| - 1]], values) != []
  }

  lemma {:induction false} ReplacedMid(mid: seq<Segment>, b: seq<Segment>, t: Token, value: string)
    requires NoBraceCh(mid)
    ensures Replaced(mid + b, t, value) == Fill(mid, t, value) + Replaced(b, t, value)
  {
    if mid == [] {
      assert mid + b == b && Fill(mid, t, value) + Replaced(b, t, value) == Replaced(b, t, value);
    } else {
      var rest := mid[1..] + b;
      assert mid + b == [mid[0]] + rest;
      ReplacedMid(mid[1..], b, t, value);
      var head := if mid[0].Tok? && mid[0].token == t then Chars(value) else [mid[0]];
      if mid[0].Tok? {
        ReplacedTok(mid[0], rest, t, value);
      } else {
        assert Lower([mid[0].c] + Flat(rest))[0] == LowerChar(mid[0].c) != t[0];
        ReplacedCh(mid[0].c, rest, t, value);
      }
      Reassociate(head, Fill(mid[1..], t, value), Replaced(b, t, value));
    }
  }

  lemma FirstTok(segs: seq<Segment>) returns (k: nat)
    requires HasTok(segs)
    ensures k < |segs| && segs[k].Tok? && forall i :: 0 <= i < k ==> segs[i].Ch?
  {
    k := 0;
    while !segs[k].Tok?
      invariant k < |segs| && (forall i :: 0 <= i < k ==> segs[i].Ch?) && exists i :: k <= i < |segs| && segs[i].Tok?
      decreases |segs| - k
    {
      k := k + 1;
    }
  }

  /** Up to its first token, `mid` leaves the run short of `t`. */
  lemma MidLacks(w: string, mid: seq<Segment>, t: Token, values: Token -> string, k: nat)
    requires Completes(w, mid, t, values) && k < |mid| && mid[k].Tok? && forall i :: 0 <= i < k ==> mid[i].Ch?
    ensures var w', n := w + Flat(mid[..k]), |w + Flat(mid[..k])|; n <= |t| && Lacks(w', t[n..], t)
  {
    var before := mid[..k];
    var rest := MidRest(mid, values, k);
    WeightOfChars(before, values);
    Reassociate(w, Flat(before), rest);
    SplitLacks(w + Flat(before), rest, t);
  }

  lemma MidRest(mid: seq<Segment>, values: Token -> string, k: nat) returns (rest: string)
    requires k < |mid| && FillAll([mid[|mid| - 1]], values) != []
    ensures FillAll(mid, values) == FillAll(mid[..k], values) + rest && rest != []
  {
    var after, last := mid[k..], mid[|mid| - 1];
    assert mid == mid[..k] + after && after == mid[k..|mid| - 1] + [last];
    FillAllConcat(mid[..k], after, values);
    FillAllConcat(mid[k..|mid| - 1], [last], values);
    rest := FillAll(after, values);
  }

  lemma SplitLacks(w: string, rest: string, t: Token)
    requires w != [] && rest != [] && Lower(w + rest) == t
    ensures |w| <= |t| && Lacks(w, t[|w|..], t)
  {
    assert Lower(w + rest)[..|w|] == Lower(w);
    assert Lower(w) + t[|w|..] == t;
  }

  lemma TokStartsWithBrace(s: Segment, rest: seq<Segment>)
    requires s.Tok? && Proper(s)
    ensures Flat([s] + rest) != [] && Flat([s] + rest)[0] == '{'
  {
    SpellingBraces(s.token, s.spelling);
    FlatCons(s, rest);
  }

  lemma CutAtTok(w: string, mid: seq<Segment>, b: seq<Segment>, k: nat)
    requires k < |mid|
    ensures w + Flat(mid + b) == (w + Flat(mid[..k])) + Flat([mid[k]] + (mid[k + 1..] + b))
  {
    assert mid + b == mid[..k] + ([mid[k]] + (mid[k + 1..] + b));
    FlatConcat(mid[..k], [mid[k]] + (mid[k + 1..] + b));
    Reassociate(w, Flat(mid[..k]), Flat([mid[k]] + (mid[k + 1..] + b)));
  }

  lemma RunStarts(w: string, more: string, rest: string, t: Token)
    requires w != [] && Lacks(w + more, rest, t)
    ensures w[0] == '{' && '{' !in w[1..]
  {
    RunShape(w + more, rest, t);
    assert (w + more)[0] == w[0] && forall i :: 1 <= i < |w| ==> (w + more)[1..][i - 1] == w[i];
  }

  lemma NoTokenFromMid(
    w: string, mid: seq<Segment>, b: seq<Segment>, t: Token, values: Token -> string, x: Token)
    requires Completes(w, mid, t, values) && HasTok(mid) && AllProper(mid)
    ensures w[0] == '{' && '{' !in w[1..] && !(x <= Lower(w + Flat(mid + b)))
  {
    var k := FirstTok(mid);
    var w' := w + Flat(mid[..k]);
    MidLacks(w, mid, t, values, k);
    RunStarts(w, Flat(mid[..k]), t[|w'|..], t);
    CutAtTok(w, mid, b, k);
    TokStartsWithBrace(mid[k], mid[k + 1..] + b);
    NoTokenFromRun(w', t[|w'|..], t, x, Flat([mid[k]] + (mid[k + 1..] + b)));
  }

  lemma ReplacedAroundMid(
    a: seq<Segment>, w: string, mid: seq<Segment>, b: seq<Segment>, t: Token, values: Token -> string, x: Token)
    requires AllProper(a + (Chars(w) + (mid + b))) && Completes(w, mid, t, values) && HasTok(mid) && AllProper(mid)
    ensures Replaced(a + (Chars(w) + (mid + b)), x, values(x)) ==
            Replaced(a, x, values(x)) + (Chars(w) + (Fill(mid, x, values(x)) + Replaced(b, x, values(x))))
  {
    NoTokenFromMid(w, mid, b, t, values, x);
    assert (Chars(w) + (mid + b))[0] == Ch('{');
    ProperConcat(a, Chars(w) + (mid + b));
    ReplacedConcat(a, Chars(w) + (mid + b), x, values(x));
    ReplacedRun(w, mid + b, x, values(x));
    ReplacedMid(mid, b, x, values(x));
  }

  lemma FillOne(s: Segment, x: Token, value: string)
    ensures Fill([s], x, value) == if s.Tok? && s.token == x then Chars(value) else [s]
  {
    assert [s][1..] == [];
    assert Fill([s], x, value) == (if s.Tok? && s.token == x then Chars(value) else [s]) + [];
  }

  lemma {:induction false} FillConcat(a: seq<Segment>, b: seq<Segment>, x: Token, value: string)
    ensures Fill(a + b, x, value) == Fill(a, x, value) + Fill(b, x, value)
  {
    if a == [] {
      assert a + b == b && Fill(a, x, value) + Fill(b, x, value) == Fill(b, x, value);
    } else {
      assert (a + b)[1..] == a[1..] + b;
      FillConcat(a[1..], b, x, value);
      Reassociate(if a[0].Tok? && a[0].token == x then Chars(value) else [a[0]],
                  Fill(a[1..], x, value), Fill(b, x, value));
    }
  }

  lemma {:induction false} FillMembers(segs: seq<Segment>, x: Token, value: string)
    ensures forall s :: s in Fill(segs, x, value) ==>
              (s in segs && !(s.Tok? && s.token == x)) || (s.Ch? && s.c in value)
  {
    if segs == [] {
    } else {
      FillMembers(segs[1..], x, value);
    }
  }

  lemma FillAllOne(s: Segment, values: Token -> string)
    ensures FillAll([s], values) == if s.Tok? then values(s.token) else [s.c]
  {
    assert [s][1..] == [];
    assert FillAll([s], values) == (if s.Tok? then values(s.token) else [s.c]) + [];
  }

  lemma {:induction false} FillHasNoBrace(mid: seq<Segment>, x: Token, value: string)
    requires NoBraceCh(mid) && '{' !in value
    ensures NoBraceCh(Fill(mid, x, value))
  {
    var filled := Fill(mid, x, value);
    FillMembers(mid, x, value);
    forall i | 0 <= i < |filled| && filled[i].Ch? ensures filled[i].c != '{' {
      assert filled[i] in filled;
    }
  }

  lemma {:induction false} FillEndsWell(mid: seq<Segment>, x: Token, values: Token -> string)
    requires mid != [] && FillAll([mid[|mid| - 1]], values) != []
    ensures var filled := Fill(mid, x, values(x));
            filled != [] && FillAll([filled[|filled| - 1]], values) != []
  {
    var n := |mid| - 1;
    var last := Fill([mid[n]], x, values(x));
    assert mid == mid[..n] + [mid[n]];
    FillConcat(mid[..n], [mid[n]], x, values(x));
    FillOne(mid[n], x, values(x));
    FillAllOne(mid[n], values);
    FillAllOne(last[|last| - 1], values);
  }

  /** Filling one token leaves what the values complete. */
  lemma FillCompletes(w: string, mid: seq<Segment>, t: Token, values: Token -> string, x: Token)
    requires Completes(w, mid, t, values) && '{' !in values(x)
    ensures Completes(w, Fill(mid, x, values(x)), t, values)
  {
    FillKeepsMeaning(mid, x, values);
    FillHasNoBrace(mid, x, values(x));
    FillEndsWell(mid, x, values);
  }

  /** Every token of `mid` has its pass before the one for `t`. */
  predicate AllBefore(mid: seq<Segment>, order: seq<Token>, t: Token) {
    forall i :: 0 <= i < |mid| && mid[i].Tok? ==> t in Later(order, mid[i].token)
  }

  lemma {:induction false} LaterIsIn(order: seq<Token>, u: Token, t: Token)
    requires t in Later(order, u)
    ensures t in order
  {
    if order[0] != u {
      LaterIsIn(order[1..], u, t);
    }
  }

  lemma FillStaysBefore(mid: seq<Segment>, order: seq<Token>, t: Token, value: string)
    requires HasTok(mid) && AllBefore(mid, order, t)
    ensures order != [] && AllBefore(Fill(mid, order[0], value), order[1..], t) && t in order[1..]
  {
    var k := FirstTok(mid);
    var filled := Fill(mid, order[0], value);
    FillMembers(mid, order[0], value);
    forall i | 0 <= i < |filled| && filled[i].Tok? ensures t in Later(order[1..], filled[i].token) {
      assert filled[i] in filled;
      var j :| 0 <= j < |mid| && mid[j] == filled[i];
    }
    if mid[k].token != order[0] {
      LaterIsIn(order[1..], mid[k].token, t);
    }
  }

  lemma MidOfChars(w: string, mid: seq<Segment>, b: seq<Segment>, values: Token -> string)
    requires !HasTok(mid)
    ensures Chars(w) + (mid + b) == Chars(w + FillAll(mid, values)) + b
  {
    WeightOfChars(mid, values);
    CharsOfFlat(mid);
    CharsConcat(w, Flat(mid), b);
  }

  lemma {:induction false} CharsOfFlat(segs: seq<Segment>)
    requires forall i :: 0 <= i < |segs| ==> segs[i].Ch?
    ensures Chars(Flat(segs)) == segs
  {
    if segs == [] {
    } else {
      CharsOfFlat(segs[1..]);
      FlatTail(segs);
      CharsCons(Flat(segs), []);
      assert Chars(Flat(segs)) + [] == Chars(Flat(segs)) && Chars(Flat(segs[1..])) + [] == segs[1..];
    }
  }

  /** Once the tokens after a run are filled with what the run lacks, the pass
      for the token they complete replaces all of it. */
  lemma {:induction false} CompletedMidShrinks(
    a: seq<Segment>, w: string, mid: seq<Segment>, b: seq<Segment>, t: Token,
    order: seq<Token>, values: Token -> string)
    requires Completes(w, mid, t, values) && t in order && AllBefore(mid, order, t)
    requires Short(order, values) && BraceFree(values) && AllProper(mid)
    requires var segs := a + (Chars(w) + (mid + b)); AllProper(segs) && OnlyTokens(segs, order)
    ensures var segs := a + (Chars(w) + (mid + b));
            |Passes(Flat(segs), order, values)| < Weight(segs, values)
    decreases |order|
  {
    var segs, x := a + (Chars(w) + (mid + b)), order[0];
    if !HasTok(mid) {
      MidOfChars(w, mid, b, values);
      SpelledTokenShrinks(a, w + FillAll(mid, values), t, b, order, values);
    } else {
      ReplacedFlat(segs, x, values(x));
      ReplacedTokens(segs, order, values(x));
      ReplacedWeight(segs, x, values);
      ReplacedAroundMid(a, w, mid, b, t, values, x);
      FillCompletes(w, mid, t, values, x);
      FillStaysBefore(mid, order, t, values(x));
      FillMembers(mid, x, values(x));
      var filled := Fill(mid, x, values(x));
      assert AllProper(filled) by {
        assert forall i :: 0 <= i < |filled| ==> filled[i] in filled;
      }
      CompletedMidShrinks(Replaced(a, x, values(x)), w, filled, Replaced(b, x, values(x)), t, order[1..], values);
    }
  }

  /** In particular where one token is filled with what the run before it lacks. */
  lemma {:induction false} CompletedRunShrinks(
    a: seq<Segment>, w: string, u: Token, spelling: string, b: seq<Segment>, t: Token,
    order: seq<Token>, values: Token -> string)
    requires Lacks(w, values(u), t) && u in order && t in Later(order, u) && Short(order, values) && BraceFree(values)
    requires var segs := Around(a, w, u, spelling, b); AllProper(segs) && OnlyTokens(segs, order)
    requires Lower(spelling) == u
    ensures var segs := Around(a, w, u, spelling, b);
            |Passes(Flat(segs), order, values)| < Weight(segs, values)
  {
    var mid := [Tok(u, spelling)];
    assert mid[1..] == [] && FillAll(mid, values) == values(u) + [] == values(u);
    RunCompleted(w, values(u), t);
    LaterIsIn(order, u, t);
    CompletedMidShrinks(a, w, mid, b, t, order, values);
  }

  // ----- Finding the run --------------------------------------------------

  lemma AroundBefore(
    before: seq<Segment>, a: seq<Segment>, w: string, u: Token, spelling: string, b: seq<Segment>)
    ensures before + Around(a, w, u, spelling, b) == Around(before + a, w, u, spelling, b)
  {
    Reassociate(before, a, Chars(w) + ([Tok(u, spelling)] + b));
  }

  /** The text before one more character, cut where the run now starts. */
  lemma ExtendCuts(run: string, c: char, rest: seq<Segment>, tokens: seq<Token>)
    returns (before: seq<Segment>)
    ensures Chars(run) + ([Ch(c)] + rest) == before + (Chars(Extend(run, c, tokens)) + rest)
  {
    var next := Extend(run, c, tokens);
    if next == [] {
      before := Chars(run) + [Ch(c)];
    } else if c == '{' {
      before := Chars(run);
      assert Chars("{") == [Ch(c)];
    } else {
      before := [];
      assert Chars(run + [c]) == Chars(run) + [Ch(c)];
    }
  }

  lemma BeginsLacks(run: string, tokens: seq<Token>) returns (t: Token)
    requires Begins(run, tokens)
    ensures t in tokens && |run| <= |t| && Lacks(run, t[|run|..], t)
  {
    var k :| 0 <= k < |tokens| && Lower(run) <= tokens[k] && |run| < |tokens[k]|;
    t := tokens[k];
    assert Lower(run) + t[|run|..] == t;
  }

  lemma {:induction false} FindRun(segs: seq<Segment>, run: string, tokens: seq<Token>, rivals: Token -> seq<Token>)
    returns (a: seq<Segment>, w: string, u: Token, spelling: string, b: seq<Segment>, t: Token)
    requires Completable(segs, run, tokens, rivals)
    ensures Chars(run) + segs == Around(a, w, u, spelling, b)
    ensures t in rivals(u) && |w| <= |t| && Lacks(w, t[|w|..], t)
  {
    var rest := segs[1..];
    assert segs == [segs[0]] + rest;
    if segs[0].Ch? {
      var before := ExtendCuts(run, segs[0].c, rest, tokens);
      a, w, u, spelling, b, t := FindRun(rest, Extend(run, segs[0].c, tokens), tokens, rivals);
      AroundBefore(before, a, w, u, spelling, b);
      a := before + a;
    } else if Begins(run, rivals(segs[0].token)) {
      a, w, u, spelling, b := [], run, segs[0].token, segs[0].spelling, rest;
      t := BeginsLacks(run, rivals(u));
    } else {
      a, w, u, spelling, b, t := FindRun(rest, "", tokens, rivals);
      assert Chars("") + rest == rest;
      var before := Chars(run) + [segs[0]];
      AroundBefore(before, a, w, u, spelling, b);
      Reassociate(Chars(run), [segs[0]], rest);
      a := before + a;
    }
  }

  // ----- Exactly the patterns that no value completes ---------------------

  lemma {:induction false} SegmentsTokens(p: string, tokens: seq<Token>)
    ensures OnlyTokens(Segments(p, tokens), tokens)
    decreases |p|
  {
    if p == [] {
    } else {
      var n := if TokenAt(p, tokens).Some? then |TokenAt(p, tokens).value| else 1;
      SegmentsTokens(p[n..], tokens);
      OnlyTokensConcat([Segments(p, tokens)[0]], Segments(p[n..], tokens), tokens);
    }
  }

  lemma AroundIsProper(
    a: seq<Segment>, w: string, u: Token, spelling: string, b: seq<Segment>, order: seq<Token>)
    requires var segs := Around(a, w, u, spelling, b); AllProper(segs) && OnlyTokens(segs, order)
    ensures Lower(spelling) == u && u in order
  {
    assert Around(a, w, u, spelling, b)[|a| + |w|] == Tok(u, spelling);
  }

  /** What the run lacks for `u`, and nothing for every other token. */
  function Completing(u: Token, rest: string): Token -> string {
    (x: Token) => if x == u then rest else ""
  }

  lemma CompletingIsBraceFree(u: Token, w: string, t: Token)
    requires |w| <= |t| && Lacks(w, t[|w|..], t)
    ensures BraceFree(Completing(u, t[|w|..])) && |t[|w|..]| < |t|
  {
    assert forall i :: |w| <= i < |t| ==> t[i] != '{';
  }

  /** A longer token is looked for before a shorter one. */
  predicate LongestFirst(order: seq<Token>) { forall i, j :: 0 <= i < j < |order| ==> |order[i]| >= |order[j]| }

  lemma {:induction false} LaterIsShorter(order: seq<Token>, u: Token, t: Token)
    requires LongestFirst(order) && t in Later(order, u)
    ensures |t| <= |u|
  {
    if order[0] == u {
      var k :| 0 <= k < |order[1..]| && order[1..][k] == t;
      assert order[k + 1] == t;
    } else {
      LaterIsShorter(order[1..], u, t);
    }
  }

  /** Where in a completable pattern the run stands. */
  lemma FindRunIn(p: string, tokens: seq<Token>, rivals: Token -> seq<Token>)
    returns (a: seq<Segment>, w: string, u: Token, spelling: string, b: seq<Segment>, t: Token)
    requires Completable(Segments(p, tokens), "", tokens, rivals)
    ensures Segments(p, tokens) == Around(a, w, u, spelling, b) && Lower(spelling) == u && u in tokens
    ensures t in rivals(u) && |w| <= |t| && Lacks(w, t[|w|..], t)
  {
    var segs := Segments(p, tokens);
    a, w, u, spelling, b, t := FindRun(segs, "", tokens, rivals);
    assert Chars("") + segs == segs;
    FlatSegments(p, tokens);
    SegmentsTokens(p, tokens);
    AroundIsProper(a, w, u, spelling, b, tokens);
  }

  lemma CompletingIsShort(order: seq<Token>, u: Token, w: string, t: Token)
    requires |w| <= |t| <= |u| && Lacks(w, t[|w|..], t)
    ensures Short(order, Completing(u, t[|w|..]))
  {
  }

  lemma CompletableDiffers(p: string, order: seq<Token>) returns (values: Token -> string)
    requires CompletableIn(p, order) && LongestFirst(order)
    ensures BraceFree(values) && Passes(p, order, values) != Simultaneous(p, order, values)
  {
    var a, w, u, spelling, b, t := FindRunIn(p, order, u => Later(order, u));
    FlatSegments(p, order);
    SegmentsTokens(p, order);
    values := Completing(u, t[|w|..]);
    CompletingIsBraceFree(u, w, t);
    LaterIsShorter(order, u, t);
    CompletingIsShort(order, u, w, t);
    CompletedRunShrinks(a, w, u, spelling, b, t, order, values);
    FillSegments(p, order, values);
  }

  /** For an order that looks for longer tokens first, the passes are one
      simultaneous substitution for all values exactly when no value can
      complete a token of a later pass. */
  lemma LongestFirstExactly(p: string, order: seq<Token>)
    requires LongestFirst(order)
    ensures (forall values :: BraceFree(values) ==> Passes(p, order, values) == Simultaneous(p, order, values)) <==>
            !CompletableIn(p, order)
  {
    if CompletableIn(p, order) {
      var values := CompletableDiffers(p, order);
    } else {
      forall values | BraceFree(values) ensures Passes(p, order, values) == Simultaneous(p, order, values) {
        PassesAreSimultaneous(p, order, values);
      }
    }
  }

  /** A pattern of tokens and text without opening braces is never completable. */
  lemma {:induction false} NoStrayBraceIsSafe(segs: seq<Segment>, tokens: seq<Token>, rivals: Token -> seq<Token>)
    requires NoBraceCh(segs)
    ensures !Completable(segs, "", tokens, rivals)
  {
    if segs == [] {
    } else {
      if segs[0].Ch? {
        PlainCharIsSettled(segs[0].c, tokens);
      }
      NoStrayBraceIsSafe(segs[1..], tokens, rivals);
    }
  }

  // ----- Whatever the order -----------------------------------------------

  predicate Distinct(tokens: seq<Token>) { forall i, j :: 0 <= i < j < |tokens| ==> tokens[i] != tokens[j] }

  function Others(tokens: seq<Token>, u: Token): (r: seq<Token>)
    ensures forall t :: t in r <==> t in tokens && t != u
  {
    if tokens == [] then [] else (if tokens[0] == u then [] else [tokens[0]]) + Others(tokens[1..], u)
  }

  /** Some value could complete some other token. */
  predicate CompletableInAnyOrder(p: string, tokens: seq<Token>) {
    Completable(Segments(p, tokens), "", tokens, u => Others(tokens, u))
  }

  ghost predicate SameTokens(order: seq<Token>, tokens: seq<Token>) { forall t :: t in order <==> t in tokens }

  lemma SameTokensFind(p: string, order: seq<Token>, tokens: seq<Token>)
    requires SameTokens(order, tokens)
    ensures TokenAt(p, order) == TokenAt(p, tokens)
  {
    if TokenAt(p, order).Some? {
      TokenAtIs(p, tokens, TokenAt(p, order).value);
    } else if TokenAt(p, tokens).Some? {
      TokenAtIs(p, order, TokenAt(p, tokens).value);
    }
  }

  lemma {:induction false} SameTokensCut(p: string, order: seq<Token>, tokens: seq<Token>, values: Token -> string)
    requires SameTokens(order, tokens)
    ensures Segments(p, order) == Segments(p, tokens)
    ensures Simultaneous(p, order, values) == Simultaneous(p, tokens, values)
    decreases |p|
  {
    if p == [] {
    } else {
      SameTokensFind(p, order, tokens);
      var n := if TokenAt(p, order).Some? then |TokenAt(p, order).value| else 1;
      SameTokensCut(p[n..], order, tokens, values);
    }
  }

  lemma BeginsAmong(run: string, few: seq<Token>, many: seq<Token>)
    requires Begins(run, few) && forall t :: t in few ==> t in many
    ensures Begins(run, many)
  {
    var t := BeginsLacks(run, few);
    var k :| 0 <= k < |many| && many[k] == t;
    assert Lower(run) <= many[k] && |run| < |many[k]|;
  }

  lemma SameTokensExtend(run: string, c: char, order: seq<Token>, tokens: seq<Token>)
    requires SameTokens(order, tokens)
    ensures Extend(run, c, order) == Extend(run, c, tokens)
  {
    var next := if c == '{' then "{" else run + [c];
    if Begins(next, order) {
      BeginsAmong(next, order, tokens);
    }
    if Begins(next, tokens) {
      BeginsAmong(next, tokens, order);
    }
  }

  lemma {:induction false} FewerRivals(
    segs: seq<Segment>, run: string, order: seq<Token>, few: Token -> seq<Token>,
    tokens: seq<Token>, many: Token -> seq<Token>)
    requires SameTokens(order, tokens) && forall u: Token, t: Token :: t in few(u) ==> t in many(u)
    requires Completable(segs, run, order, few)
    ensures Completable(segs, run, tokens, many)
  {
    if segs[0].Ch? {
      SameTokensExtend(run, segs[0].c, order, tokens);
      FewerRivals(segs[1..], Extend(run, segs[0].c, order), order, few, tokens, many);
    } else if Begins(run, few(segs[0].token)) {
      BeginsAmong(run, few(segs[0].token), many(segs[0].token));
    } else {
      FewerRivals(segs[1..], "", order, few, tokens, many);
    }
  }

  lemma {:induction false} LaterAreOthers(order: seq<Token>, u: Token, t: Token)
    requires Distinct(order) && t in Later(order, u)
    ensures t in order && t != u
  {
    if order[0] == u {
      var k :| 0 <= k < |order[1..]| && order[1..][k] == t;
      assert order[k + 1] == t;
    } else {
      LaterAreOthers(order[1..], u, t);
    }
  }

  /** An arrangement of the tokens: each of them once. */
  ghost predicate IsOrderOf(order: seq<Token>, tokens: seq<Token>) { Distinct(order) && SameTokens(order, tokens) }

  lemma AnyOrderIsSafe(p: string, tokens: seq<Token>, order: seq<Token>, values: Token -> string)
    requires IsOrderOf(order, tokens) && BraceFree(values) && !CompletableInAnyOrder(p, tokens)
    ensures Passes(p, order, values) == Simultaneous(p, tokens, values)
  {
    SameTokensCut(p, order, tokens, values);
    if CompletableIn(p, order) {
      forall u: Token, t: Token | t in Later(order, u) ensures t in Others(tokens, u) {
        LaterAreOthers(order, u, t);
      }
      FewerRivals(Segments(p, order), "", order, u => Later(order, u), tokens, u => Others(tokens, u));
    }
    PassesAreSimultaneous(p, order, values);
  }

  lemma {:induction false} SegmentsReplaced(p: string, tokens: seq<Token>, t: Token, value: string)
    requires t in tokens
    ensures Replaced(Segments(p, tokens), t, value) == Fill(Segments(p, tokens), t, value)
    decreases |p|
  {
    if p == [] {
    } else {
      var segs := Segments(p, tokens);
      var n := if TokenAt(p, tokens).Some? then |TokenAt(p, tokens).value| else 1;
      SegmentsReplaced(p[n..], tokens, t, value);
      FlatSegments(p, tokens);
      assert segs[1..] == Segments(p[n..], tokens);
      if TokenAt(p, tokens).None? {
        var k :| 0 <= k < |tokens| && tokens[k] == t;
        assert !(t <= Lower(Flat(segs)));
      }
    }
  }

  lemma FirstAndOthers(tokens: seq<Token>, u: Token)
    requires Distinct(tokens) && u in tokens
    ensures IsOrderOf([u] + Others(tokens, u), tokens)
  {
    OthersDistinct(tokens, u);
  }

  lemma {:induction false} OthersDistinct(tokens: seq<Token>, u: Token)
    requires Distinct(tokens)
    ensures Distinct(Others(tokens, u))
  {
    if tokens == [] {
    } else {
      var rest := Others(tokens[1..], u);
      OthersDistinct(tokens[1..], u);
      assert forall k :: 0 <= k < |tokens[1..]| ==> tokens[1..][k] == tokens[k + 1] != tokens[0];
      assert [] + rest == rest;
      DistinctCons(tokens[0], rest);
    }
  }

  lemma DistinctCons(t: Token, rest: seq<Token>)
    requires Distinct(rest) && t !in rest
    ensures Distinct([t] + rest)
  {
    assert forall k :: 0 < k < |rest| + 1 ==> ([t] + rest)[k] == rest[k - 1];
  }

  /** Looking for the token that completes another first, and for the completed
      one next, replaces both. */
  lemma SomeOrderDiffers(p: string, tokens: seq<Token>)
    returns (order: seq<Token>, values: Token -> string)
    requires CompletableInAnyOrder(p, tokens) && Distinct(tokens)
    ensures IsOrderOf(order, tokens) && BraceFree(values)
    ensures Passes(p, order, values) != Simultaneous(p, tokens, values)
  {
    var a, w, u, spelling, b, t := FindRunIn(p, tokens, u => Others(tokens, u));
    values := Completing(u, t[|w|..]);
    CompletingIsBraceFree(u, w, t);
    order := [u] + Others(tokens, u);
    FirstAndOthers(tokens, u);
    FirstPassCompletes(p, tokens, a, w, u, spelling, b, t);
    FillSegments(p, tokens, values);
  }

  lemma FirstPassCompletes(
    p: string, tokens: seq<Token>, a: seq<Segment>, w: string, u: Token, spelling: string, b: seq<Segment>, t: Token)
    requires Segments(p, tokens) == Around(a, w, u, spelling, b) && Lower(spelling) == u && u in tokens
    requires t in Others(tokens, u) && |w| <= |t| && Lacks(w, t[|w|..], t)
    ensures var values := Completing(u, t[|w|..]);
            |Passes(p, [u] + Others(tokens, u), values)| < Weight(Segments(p, tokens), values)
  {
    var segs, value, later := Segments(p, tokens), t[|w|..], Others(tokens, u);
    var values, order := Completing(u, value), [u] + Others(tokens, u);
    FlatSegments(p, tokens);
    FirstPassIsExact(p, tokens, u, values);
    ReplacedAroundRun(a, w, u, spelling, b, value, t, u, value);
    RunCompleted(w, value, t);
    assert order[0] == u && order[1..] == later;
    OthersAreShort(tokens, u, value);
    SpelledTokenShrinks(Replaced(a, u, value), w + value, t, Replaced(b, u, value), later, values);
  }

  lemma {:induction false} OthersAreShort(tokens: seq<Token>, u: Token, value: string)
    ensures Short(Others(tokens, u), Completing(u, value))
  {
    var others := Others(tokens, u);
    assert forall i :: 0 <= i < |others| ==> others[i] in others;
  }

  /** The first pass over a pattern fills its token and finds nothing else. */
  lemma FirstPassIsExact(p: string, tokens: seq<Token>, u: Token, values: Token -> string)
    requires u in tokens
    ensures var after := Replaced(Segments(p, tokens), u, values(u));
            && Flat(after) == ReplaceCi(p, u, values(u)) && AllProper(after)
            && OnlyTokens(after, Others(tokens, u))
            && Weight(after, values) == Weight(Segments(p, tokens), values)
  {
    var segs, order := Segments(p, tokens), [u] + Others(tokens, u);
    FlatSegments(p, tokens);
    SegmentsTokens(p, tokens);
    assert OnlyTokens(segs, order) && order[1..] == Others(tokens, u);
    ReplacedFlat(segs, u, values(u));
    ReplacedTokens(segs, order, values(u));
    SegmentsReplaced(p, tokens, u, values(u));
    FillKeepsMeaning(segs, u, values);
  }

  /** The passes are one simultaneous substitution in every order and for all
      values exactly when no value can complete another token. */
  lemma EveryOrderExactly(p: string, tokens: seq<Token>)
    requires Distinct(tokens)
    ensures (forall order, values :: IsOrderOf(order, tokens) && BraceFree(values) ==>
                                       Passes(p, order, values) == Simultaneous(p, tokens, values)) <==>
            !CompletableInAnyOrder(p, tokens)
  {
    if CompletableInAnyOrder(p, tokens) {
      var order, values := SomeOrderDiffers(p, tokens);
    } else {
      forall order, values | IsOrderOf(order, tokens) && BraceFree(values)
        ensures Passes(p, order, values) == Simultaneous(p, tokens, values)
      {
        AnyOrderIsSafe(p, tokens, order, values);
      }
    }
  }
}
