/** Text with tokens in braces, filled by one case-insensitive replacement pass
    per token: when that is one simultaneous substitution. */
module Templates {
  import opened Text
  import opened CaseReplace

  // ----- Tokens -----------------------------------------------------------

  /** A brace at each end and none inside, in lower-case ASCII. */
  predicate IsToken(s: string) {
    && |s| >= 2 && s[0] == '{' && s[|s| - 1] == '}'
    && (forall i :: 1 <= i < |s| ==> s[i] != '{')
    && (forall i :: 0 <= i < |s| - 1 ==> s[i] != '}')
    && AllAscii(s) && Lower(s) == s
  }

  type Token = s: string | IsToken(s) witness "{}"

  lemma TokensArePrefixFree(t: Token, u: Token)
    requires t <= u
    ensures t == u
  {
    assert t[|t| - 1] == u[|t| - 1];
  }

  /** The token in front, in any letter case. */
  function TokenAt(p: string, tokens: seq<Token>): (r: Option<Token>)
    ensures r.Some? ==> r.value in tokens && r.value <= Lower(p)
    ensures r.None? ==> forall i :: 0 <= i < |tokens| ==> !(tokens[i] <= Lower(p))
  {
    if tokens == [] then None
    else if tokens[0] <= Lower(p) then Some(tokens[0])
    else TokenAt(p, tokens[1..])
  }

  lemma TokenAtIs(p: string, tokens: seq<Token>, t: Token)
    requires t in tokens && t <= Lower(p)
    ensures TokenAt(p, tokens) == Some(t)
  {
    var u := TokenAt(p, tokens).value;
    if |t| <= |u| {
      TokensArePrefixFree(t, u);
    } else {
      TokensArePrefixFree(u, t);
    }
  }

  /** All tokens substituted at once, in one left-to-right pass. */
  function Simultaneous(p: string, tokens: seq<Token>, values: Token -> string): string
    decreases |p|
  {
    if p == [] then [] else
      match TokenAt(p, tokens)
      case Some(t) => values(t) + Simultaneous(p[|t|..], tokens, values)
      case None => [p[0]] + Simultaneous(p[1..], tokens, values)
  }

  /** One replacement pass per token, in the order given. */
  function Passes(p: string, order: seq<Token>, values: Token -> string): string
    decreases |order|
  {
    if order == [] then p else Passes(ReplaceCi(p, order[0], values(order[0])), order[1..], values)
  }

  /** No value brings an opening brace of its own. */
  ghost predicate BraceFree(values: Token -> string) { forall t: Token :: '{' !in values(t) }

  // ----- Segments ---------------------------------------------------------

  datatype Segment = Ch(c: char) | Tok(token: Token, spelling: string)

  function Spell(s: Segment): string { if s.Ch? then [s.c] else s.spelling }

  predicate Proper(s: Segment) { s.Tok? ==> Lower(s.spelling) == s.token }

  predicate AllProper(segs: seq<Segment>) { forall i :: 0 <= i < |segs| ==> Proper(segs[i]) }

  function Flat(segs: seq<Segment>): string {
    if segs == [] then [] else Spell(segs[0]) + Flat(segs[1..])
  }

  function Chars(s: string): (r: seq<Segment>)
    ensures |r| == |s| && forall i :: 0 <= i < |s| ==> r[i] == Ch(s[i])
  {
    seq(|s|, i requires 0 <= i < |s| => Ch(s[i]))
  }

  /** The segments with one token's occurrences filled in. */
  function Fill(segs: seq<Segment>, t: Token, value: string): seq<Segment> {
    if segs == [] then [] else
      (if segs[0].Tok? && segs[0].token == t then Chars(value) else [segs[0]]) + Fill(segs[1..], t, value)
  }

  function FillAll(segs: seq<Segment>, values: Token -> string): string {
    if segs == [] then [] else
      (if segs[0].Tok? then values(segs[0].token) else [segs[0].c]) + FillAll(segs[1..], values)
  }

  lemma {:induction false} FlatConcat(a: seq<Segment>, b: seq<Segment>)
    ensures Flat(a + b) == Flat(a) + Flat(b)
  {
    if a == [] {
      assert a + b == b;
    } else {
      assert (a + b)[1..] == a[1..] + b;
      FlatConcat(a[1..], b);
      Reassociate(Spell(a[0]), Flat(a[1..]), Flat(b));
    }
  }

  lemma FlatCons(s: Segment, rest: seq<Segment>)
    ensures Flat([s] + rest) == Spell(s) + Flat(rest)
  {
    assert ([s] + rest)[1..] == rest;
  }

  lemma {:induction false} FillAllConcat(a: seq<Segment>, b: seq<Segment>, values: Token -> string)
    ensures FillAll(a + b, values) == FillAll(a, values) + FillAll(b, values)
  {
    if a == [] {
      assert a + b == b;
    } else {
      assert (a + b)[1..] == a[1..] + b;
      FillAllConcat(a[1..], b, values);
      Reassociate(if a[0].Tok? then values(a[0].token) else [a[0].c], FillAll(a[1..], values), FillAll(b, values));
    }
  }

  lemma {:induction false} CharsSpell(s: string, values: Token -> string)
    ensures Flat(Chars(s)) == s && FillAll(Chars(s), values) == s
  {
    if s == [] {
    } else {
      assert Chars(s)[1..] == Chars(s[1..]);
      CharsSpell(s[1..], values);
      assert s == [s[0]] + s[1..];
    }
  }

  /** The pattern cut into tokens and other characters. */
  function Segments(p: string, tokens: seq<Token>): seq<Segment>
    decreases |p|
  {
    if p == [] then [] else
      match TokenAt(p, tokens)
      case Some(t) => [Tok(t, p[..|t|])] + Segments(p[|t|..], tokens)
      case None => [Ch(p[0])] + Segments(p[1..], tokens)
  }

  lemma TokenHead(p: string, t: Token)
    requires t <= Lower(p)
    ensures |t| <= |p| && p == p[..|t|] + p[|t|..] && Lower(p[..|t|]) == t
  {
    assert Lower(p[..|t|]) == Lower(p)[..|t|];
  }

  lemma {:induction false} FlatSegments(p: string, tokens: seq<Token>)
    ensures Flat(Segments(p, tokens)) == p && AllProper(Segments(p, tokens))
    decreases |p|
  {
    if p == [] {
    } else {
      match TokenAt(p, tokens) {
        case Some(t) =>
          TokenHead(p, t);
          FlatSegments(p[|t|..], tokens);
          FlatCons(Tok(t, p[..|t|]), Segments(p[|t|..], tokens));
        case None =>
          FlatSegments(p[1..], tokens);
          FlatCons(Ch(p[0]), Segments(p[1..], tokens));
          assert p == [p[0]] + p[1..];
      }
    }
  }

  lemma {:induction false} FillSegments(p: string, tokens: seq<Token>, values: Token -> string)
    ensures FillAll(Segments(p, tokens), values) == Simultaneous(p, tokens, values)
    decreases |p|
  {
    if p == [] {
    } else {
      var n := if TokenAt(p, tokens).Some? then |TokenAt(p, tokens).value| else 1;
      FillSegments(p[n..], tokens, values);
      assert Segments(p, tokens)[1..] == Segments(p[n..], tokens);
    }
  }

  // ----- A pass over the text in front ------------------------------------

  lemma SkipUnmatched(s: string, needle: string, value: string)
    requires s != [] && needle != [] && !(Lower(needle) <= Lower(s))
    ensures ReplaceCi(s, needle, value) == [s[0]] + ReplaceCi(s[1..], needle, value)
  {
  }

  /** A token is not found inside text without an opening brace. */
  lemma {:induction false} SkipBraceFree(a: string, rest: string, t: Token, value: string)
    requires '{' !in a
    ensures ReplaceCi(a + rest, t, value) == a + ReplaceCi(rest, t, value)
  {
    if a == [] {
      assert a + rest == rest;
    } else {
      assert (a + rest)[0] == a[0] && (a + rest)[1..] == a[1..] + rest;
      assert Lower(a + rest)[0] == LowerChar(a[0]) != '{';
      SkipUnmatched(a + rest, t, value);
      SkipBraceFree(a[1..], rest, t, value);
      Reassociate([a[0]], a[1..], ReplaceCi(rest, t, value));
      assert [a[0]] + a[1..] == a;
    }
  }

  lemma SpellingBraces(u: Token, spelling: string)
    requires Lower(spelling) == u
    ensures spelling != [] && spelling[0] == '{' && '{' !in spelling[1..]
  {
    assert forall i :: 0 <= i < |spelling| ==> LowerChar(spelling[i]) == u[i];
  }

  lemma FoundHere(t: Token, spelling: string, rest: string, value: string)
    requires Lower(spelling) == t
    ensures ReplaceCi(spelling + rest, t, value) == value + ReplaceCi(rest, t, value)
  {
    var s := spelling + rest;
    assert Lower(s)[..|spelling|] == t;
    assert s[|t|..] == rest;
  }

  /** No token starts where another one is spelled. */
  lemma NotFoundHere(t: Token, u: Token, spelling: string, rest: string, value: string)
    requires t != u && Lower(spelling) == u
    ensures !(t <= Lower(spelling + rest))
    ensures ReplaceCi(spelling + rest, t, value) == spelling + ReplaceCi(rest, t, value)
  {
    SpellingBraces(u, spelling);
    assert Lower(spelling + rest)[..|u|] == u;
    OnlyOneStarts(t, u, Lower(spelling + rest));
    assert (spelling + rest)[0] == spelling[0] && (spelling + rest)[1..] == spelling[1..] + rest;
    SkipUnmatched(spelling + rest, t, value);
    SkipBraceFree(spelling[1..], rest, t, value);
    Reassociate([spelling[0]], spelling[1..], ReplaceCi(rest, t, value));
    assert [spelling[0]] + spelling[1..] == spelling;
  }

  lemma OnlyOneStarts(t: Token, u: Token, s: string)
    requires t != u && u <= s
    ensures !(t <= s)
  {
    if t <= s {
      if |t| <= |u| {
        TokensArePrefixFree(t, u);
      } else {
        TokensArePrefixFree(u, t);
      }
    }
  }

  // ----- Stray braces -----------------------------------------------------

  /** A beginning, short of the whole, of a token of `order`. */
  predicate Begins(run: string, order: seq<Token>) {
    run != [] && exists i :: 0 <= i < |order| && Lower(run) <= order[i] && |run| < |order[i]|
  }

  lemma BeginsToken(run: string, order: seq<Token>, t: Token)
    requires t in order && run != []
    ensures Lower(run) <= t && |run| < |t| ==> Begins(run, order)
    ensures Lower(run) <= t && |run| == |t| ==> Spells(run, order)
  {
    var i :| 0 <= i < |order| && order[i] == t;
    assert Lower(run) <= t && |run| == |t| ==> Lower(run) == t;
  }

  predicate Spells(run: string, order: seq<Token>) { Lower(run) in order }

  /** The text since the last stray brace, one character on, for as long as it
      begins a token; empty otherwise. */
  function Extend(run: string, c: char, order: seq<Token>): string {
    var next := if c == '{' then "{" else run + [c];
    if Begins(next, order) then next else ""
  }

  /** The passes after that for `u`. */
  function Later(order: seq<Token>, u: Token): seq<Token> {
    if order == [] then [] else if order[0] == u then order[1..] else Later(order[1..], u)
  }

  /** Nothing in the segments can become a token that a pass of `order` has not
      looked for yet: no such token is spelled out, and no token stands where
      its value could complete one of a later pass. `run` is the text before. */
  predicate Settled(segs: seq<Segment>, run: string, order: seq<Token>) {
    segs == [] ||
    match segs[0]
    case Ch(c) => !Spells(run + [c], order) && Settled(segs[1..], Extend(run, c, order), order)
    case Tok(u, _) =>
      Proper(segs[0]) && u in order && !Begins(run, Later(order, u)) && Settled(segs[1..], "", order)
  }

  lemma PrefixOfPrefix(a: string, s: string, n: nat)
    requires n <= |s|
    ensures a <= s && |a| <= n ==> a <= s[..n]
    ensures a <= s && |a| >= n ==> s[..n] <= a
  {
  }

  lemma BeginningHasNoToken(run: string, order: seq<Token>, t: Token)
    requires Begins(run, order)
    ensures !(t <= Lower(run)) && run[0] == '{' && '{' !in run[1..] && '}' !in run
  {
    var k :| 0 <= k < |order| && Lower(run) <= order[k] && |run| < |order[k]|;
    var u := order[k];
    assert forall i :: 0 <= i < |run| ==> LowerChar(run[i]) == u[i];
    if t <= Lower(run) {
      TokensArePrefixFree(t, u);
    }
  }

  /** A token at the start of `run + [c] + rest` that is not within `run` goes on
      with `c`. */
  lemma TokenGoesOn(run: string, c: char, rest: string, t: Token)
    requires !(t <= Lower(run))
    ensures t <= Lower(run + [c] + rest) ==>
              |run| < |t| && t[|run|] == LowerChar(c) && Lower(run + [c]) <= t
  {
    var all := run + [c] + rest;
    assert Lower(all)[..|run|] == Lower(run);
    assert Lower(all)[..|run| + 1] == Lower(run + [c]);
    PrefixOfPrefix(t, Lower(all), |run|);
    PrefixOfPrefix(t, Lower(all), |run| + 1);
  }

  lemma TokenStops(run: string, c: char, rest: string, order: seq<Token>, t: Token)
    requires Begins(run, order) && t in order
    requires c == '{' || (!Begins(run + [c], order) && !Spells(run + [c], order))
    ensures !(t <= Lower(run + [c] + rest))
  {
    BeginningHasNoToken(run, order, t);
    TokenGoesOn(run, c, rest, t);
    BeginsToken(run + [c], order, t);
  }

  lemma NoTokenAcross(
    u: Token, spelling: string, rest: string, run: string, order: seq<Token>, t: Token)
    requires Lower(spelling) == u && Begins(run, order) && t in order
    ensures !(t <= Lower(run + (spelling + rest)))
  {
    SpellingBraces(u, spelling);
    assert run + (spelling + rest) == run + [spelling[0]] + (spelling[1..] + rest);
    TokenStops(run, spelling[0], spelling[1..] + rest, order, t);
  }

  lemma NoTokenThrough(c: char, rest: string, run: string, order: seq<Token>, t: Token)
    requires Begins(run, order) && t in order && !Spells(run + [c], order)
    requires c != '{' && Begins(run + [c], order) ==> !(t <= Lower(run + [c] + rest))
    ensures !(t <= Lower(run + ([c] + rest)))
  {
    assert run + ([c] + rest) == run + [c] + rest;
    if c == '{' || !Begins(run + [c], order) {
      TokenStops(run, c, rest, order, t);
    }
  }

  /** A run and what follows it never start with a token: a beginning is not one,
      and the character after it either does not go on with one or leads to a
      longer beginning. */
  lemma {:induction false} NoTokenAhead(segs: seq<Segment>, run: string, order: seq<Token>, t: Token)
    requires Begins(run, order) && Settled(segs, run, order) && t in order
    ensures !(t <= Lower(run + Flat(segs)))
  {
    if segs == [] {
      BeginningHasNoToken(run, order, t);
      assert run + [] == run;
    } else if segs[0].Tok? {
      NoTokenAcross(segs[0].token, segs[0].spelling, Flat(segs[1..]), run, order, t);
    } else {
      var c := segs[0].c;
      if c != '{' && Begins(run + [c], order) {
        NoTokenAhead(segs[1..], run + [c], order, t);
      }
      NoTokenThrough(c, Flat(segs[1..]), run, order, t);
    }
  }

  // ----- A pass fills one token -------------------------------------------

  /** The run as the passes still to come see it. */
  function Keep(run: string, order: seq<Token>): string { if Begins(run, order) then run else "" }

  lemma BeginsShorter(run: string, c: char, order: seq<Token>)
    requires Begins(run + [c], order)
    ensures run == [] ==> c == '{'
    ensures run != [] ==> Begins(run, order)
  {
    var k :| 0 <= k < |order| && Lower(run + [c]) <= order[k] && |run + [c]| < |order[k]|;
    assert Lower(run + [c])[..|run|] == Lower(run);
    assert LowerChar((run + [c])[0]) == order[k][0];
  }

  lemma BeginsLater(run: string, order: seq<Token>)
    requires order != [] && Begins(run, order[1..])
    ensures Begins(run, order)
  {
    var k :| 0 <= k < |order[1..]| && Lower(run) <= order[1..][k] && |run| < |order[1..][k]|;
    assert order[k + 1] == order[1..][k];
  }

  lemma BraceBegins(order: seq<Token>)
    requires order != []
    ensures Begins("{", order)
  {
    assert Lower("{") == "{" && Lower("{") <= order[0];
  }

  lemma ExtendKeep(run: string, c: char, order: seq<Token>)
    requires order != []
    ensures Keep(Extend(run, c, order), order[1..]) == Extend(Keep(run, order[1..]), c, order[1..])
  {
    var next, later := run + [c], order[1..];
    if c == '{' {
      BraceBegins(order);
    } else {
      if Begins(next, later) {
        BeginsLater(next, order);
        BeginsShorter(run, c, later);
      }
      assert [] + [c] == [c];
      if Begins([c], later) {
        BeginsShorter([], c, later);
      }
    }
  }

  lemma SettledCh(c: char, rest: seq<Segment>, run: string, order: seq<Token>)
    ensures Settled([Ch(c)] + rest, run, order) <==>
            !Spells(run + [c], order) && Settled(rest, Extend(run, c, order), order)
  {
    assert ([Ch(c)] + rest)[1..] == rest;
  }

  lemma SettledTok(u: Token, spelling: string, rest: seq<Segment>, run: string, order: seq<Token>)
    ensures Settled([Tok(u, spelling)] + rest, run, order) <==>
            Lower(spelling) == u && u in order && !Begins(run, Later(order, u)) && Settled(rest, "", order)
  {
    assert ([Tok(u, spelling)] + rest)[1..] == rest;
  }

  lemma PlainCharIsSettled(c: char, order: seq<Token>)
    requires c != '{'
    ensures !Spells("" + [c], order) && Extend("", c, order) == ""
  {
    assert "" + [c] == [c] && |Lower([c])| == 1;
    if Begins([c], order) {
      BeginsShorter([], c, order);
    }
  }

  lemma {:induction false} SettledChars(value: string, segs: seq<Segment>, order: seq<Token>)
    requires '{' !in value && Settled(segs, "", order)
    ensures Settled(Chars(value) + segs, "", order)
  {
    if value == [] {
      assert Chars(value) + segs == segs;
    } else {
      SettledChars(value[1..], segs, order);
      assert Chars(value) + segs == [Ch(value[0])] + (Chars(value[1..]) + segs);
      PlainCharIsSettled(value[0], order);
      SettledCh(value[0], Chars(value[1..]) + segs, "", order);
    }
  }

  /** A pass over settled text fills exactly its token, and what it leaves is
      settled for the passes after it. */
  lemma {:induction false} PassFills(segs: seq<Segment>, run: string, order: seq<Token>, value: string)
    requires order != [] && Settled(segs, run, order) && '{' !in value
    ensures ReplaceCi(Flat(segs), order[0], value) == Flat(Fill(segs, order[0], value))
    ensures Settled(Fill(segs, order[0], value), Keep(run, order[1..]), order[1..])
  {
    var t := order[0];
    if segs == [] {
    } else {
      var rest := segs[1..];
      assert segs == [segs[0]] + rest;
      match segs[0] {
        case Ch(c) =>
          PassFills(rest, Extend(run, c, order), order, value);
          SkipCh(c, rest, run, order, value);
          SettledStays(c, Fill(rest, t, value), run, order);
          FlatCons(Ch(c), Fill(rest, t, value));
        case Tok(u, spelling) =>
          PassFills(rest, "", order, value);
          PassOverTok(u, spelling, Flat(rest), Fill(rest, t, value), run, order, value);
      }
    }
  }

  lemma {:induction false} PassOverTok(
    u: Token, spelling: string, rest: string, filled: seq<Segment>, run: string, order: seq<Token>, value: string)
    requires order != [] && '{' !in value && Lower(spelling) == u && u in order && !Begins(run, Later(order, u))
    requires ReplaceCi(rest, order[0], value) == Flat(filled) && Settled(filled, "", order[1..])
    ensures var head := if u == order[0] then Chars(value) else [Tok(u, spelling)];
            && ReplaceCi(spelling + rest, order[0], value) == Flat(head + filled)
            && Settled(head + filled, Keep(run, order[1..]), order[1..])
  {
    if u == order[0] {
      FoundHere(u, spelling, rest, value);
      FlatConcat(Chars(value), filled);
      CharsSpell(value, _ => "");
      SettledChars(value, filled, order[1..]);
    } else {
      NotFoundHere(order[0], u, spelling, rest, value);
      FlatCons(Tok(u, spelling), filled);
      SettledTok(u, spelling, filled, Keep(run, order[1..]), order[1..]);
    }
  }

  lemma {:induction false} SkipCh(c: char, rest: seq<Segment>, run: string, order: seq<Token>, value: string)
    requires order != [] && Settled(rest, Extend(run, c, order), order)
    ensures ReplaceCi([c] + Flat(rest), order[0], value) == [c] + ReplaceCi(Flat(rest), order[0], value)
  {
    if c == '{' {
      BraceBegins(order);
      NoTokenAhead(rest, "{", order, order[0]);
      SkipUnmatched([c] + Flat(rest), order[0], value);
      assert ([c] + Flat(rest))[1..] == Flat(rest);
    } else {
      SkipBraceFree([c], Flat(rest), order[0], value);
    }
  }

  lemma SettledStays(c: char, filled: seq<Segment>, run: string, order: seq<Token>)
    requires order != [] && !Spells(run + [c], order)
    requires Settled(filled, Keep(Extend(run, c, order), order[1..]), order[1..])
    ensures Settled([Ch(c)] + filled, Keep(run, order[1..]), order[1..])
  {
    ExtendKeep(run, c, order);
    SettledCh(c, filled, Keep(run, order[1..]), order[1..]);
    assert "" + [c] == [c] && |Lower([c])| == 1;
    assert forall t :: t in order[1..] ==> t in order;
  }

  lemma {:induction false} FillKeepsMeaning(segs: seq<Segment>, t: Token, values: Token -> string)
    ensures FillAll(Fill(segs, t, values(t)), values) == FillAll(segs, values)
  {
    if segs == [] {
    } else {
      var head := if segs[0].Tok? && segs[0].token == t then Chars(values(t)) else [segs[0]];
      FillKeepsMeaning(segs[1..], t, values);
      FillAllConcat(head, Fill(segs[1..], t, values(t)), values);
      CharsSpell(values(t), values);
      assert [segs[0]][1..] == [];
    }
  }

  lemma {:induction false} NothingLeft(segs: seq<Segment>, run: string, values: Token -> string)
    requires Settled(segs, run, [])
    ensures Flat(segs) == FillAll(segs, values)
  {
    if segs == [] {
    } else {
      NothingLeft(segs[1..], Extend(run, segs[0].c, []), values);
    }
  }

  /** Passes over settled text fill every token, whatever the values. */
  lemma {:induction false} PassesFillAll(segs: seq<Segment>, order: seq<Token>, values: Token -> string)
    requires Settled(segs, "", order) && BraceFree(values)
    ensures Passes(Flat(segs), order, values) == FillAll(segs, values)
    decreases |order|
  {
    if order == [] {
      NothingLeft(segs, "", values);
    } else {
      PassFills(segs, "", order, values(order[0]));
      FillKeepsMeaning(segs, order[0], values);
      PassesFillAll(Fill(segs, order[0], values(order[0])), order[1..], values);
    }
  }

  // ----- Patterns that no value completes ---------------------------------

  /** A token follows a stray brace closely enough for its value to complete the
      text in between to another token, one of `rivals` of it. `run` is the
      text since the last stray brace. */
  predicate Completable(segs: seq<Segment>, run: string, tokens: seq<Token>, rivals: Token -> seq<Token>) {
    segs != [] &&
    match segs[0]
    case Ch(c) => Completable(segs[1..], Extend(run, c, tokens), tokens, rivals)
    case Tok(u, _) => Begins(run, rivals(u)) || Completable(segs[1..], "", tokens, rivals)
  }

  /** Some value could complete a token of a later pass. */
  predicate CompletableIn(p: string, order: seq<Token>) {
    Completable(Segments(p, order), "", order, u => Later(order, u))
  }

  lemma {:induction false} SegmentsSettled(p: string, run: string, order: seq<Token>)
    requires run == [] || (Begins(run, order) && TokenAt(run + p, order) == None)
    requires !Completable(Segments(p, order), run, order, u => Later(order, u))
    ensures Settled(Segments(p, order), run, order)
    decreases |p|
  {
    if p == [] {
    } else {
      match TokenAt(p, order) {
        case Some(t) =>
          TokenHead(p, t);
          assert Segments(p, order)[1..] == Segments(p[|t|..], order);
          SegmentsSettled(p[|t|..], "", order);
        case None =>
          var c := p[0];
          assert Segments(p, order)[1..] == Segments(p[1..], order);
          RunGoesOn(p, run, order);
          SegmentsSettled(p[1..], Extend(run, c, order), order);
      }
    }
  }

  /** No token starts at the stray brace a run goes back to. */
  lemma RunGoesOn(p: string, run: string, order: seq<Token>)
    requires p != [] && TokenAt(p, order) == None
    requires run == [] || (Begins(run, order) && TokenAt(run + p, order) == None)
    ensures !Spells(run + [p[0]], order)
    ensures var next := Extend(run, p[0], order);
            next == [] || (Begins(next, order) && TokenAt(next + p[1..], order) == None)
  {
    var c, next := p[0], run + [p[0]];
    assert next + p[1..] == run + p;
    assert "{" + p[1..] == (if c == '{' then p else "{" + p[1..]);
    SpelledIsFound(next, p[1..], order);
  }

  lemma SpelledIsFound(s: string, rest: string, order: seq<Token>)
    ensures Spells(s, order) ==> TokenAt(s + rest, order).Some? && |s| >= 2
  {
    if Spells(s, order) {
      assert Lower(s + rest)[..|s|] == Lower(s);
      var k :| 0 <= k < |order| && order[k] == Lower(s);
      assert order[k] <= Lower(s + rest);
    }
  }

  /** If no value can complete a token of a later pass, the passes are one
      simultaneous substitution, whatever the values. */
  lemma PassesAreSimultaneous(p: string, order: seq<Token>, values: Token -> string)
    requires !CompletableIn(p, order) && BraceFree(values)
    ensures Passes(p, order, values) == Simultaneous(p, order, values)
  {
    SegmentsSettled(p, "", order);
    FlatSegments(p, order);
    FillSegments(p, order, values);
    PassesFillAll(Segments(p, order), order, values);
  }
}
