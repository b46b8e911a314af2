/** Expanding a name pattern: the four tokens of the agent, and the passes that
    replace them by a person's names and initials. */
module Naming {
  import opened Text
  import opened CaseReplace
  import opened Templates
  import opened TemplatesExact

  const FIRST: Token := "{first}"
  const LAST: Token := "{last}"
  const FIRST_INITIAL: Token := "{f}"
  const LAST_INITIAL: Token := "{l}"

  const ORDER: seq<Token> := [FIRST, LAST, FIRST_INITIAL, LAST_INITIAL]

  lemma OrderShape()
    ensures Distinct(ORDER) && LongestFirst(ORDER)
  {
    assert |FIRST| == 7 && |LAST| == 6 && |FIRST_INITIAL| == 3 && |LAST_INITIAL| == 3;
    assert FIRST_INITIAL[1] == 'f' && LAST_INITIAL[1] == 'l';
  }

  function Initial(s: string): string { if s == [] then [] else [s[0]] }

  /** What each token stands for; names are trimmed first. */
  function ValueOf(first: string, last: string): Token -> string {
    (t: Token) =>
      if t == FIRST then Trim(first)
      else if t == LAST then Trim(last)
      else if t == FIRST_INITIAL then Initial(Trim(first))
      else if t == LAST_INITIAL then Initial(Trim(last))
      else ""
  }

  // ----- The expansion ----------------------------------------------------

  function ExpandText(lower: string -> string, p: string, order: seq<Token>, values: Token -> string): Option<string>
    decreases |order|
  {
    if order == [] then Some(p) else
      match ReplaceText(lower, p, order[0], values(order[0]))
      case None => None
      case Some(text) => ExpandText(lower, text, order[1..], values)
  }

  /** `expand_name_pattern`, `None` where a replacement panics. */
  method ExpandNamePattern(lower: string -> string, pattern: string, first: string, last: string)
    returns (out: Option<string>)
    ensures out == ExpandText(lower, pattern, ORDER, ValueOf(first, last))
  {
    var values := ValueOf(first, last);
    out := ExpandInOrder(lower, pattern, ORDER, values);
  }

  method ExpandInOrder(lower: string -> string, pattern: string, order: seq<Token>, values: Token -> string)
    returns (out: Option<string>)
    ensures out == ExpandText(lower, pattern, order, values)
  {
    var text := pattern;
    for i := 0 to |order|
      invariant ExpandText(lower, text, order[i..], values) == ExpandText(lower, pattern, order, values)
    {
      assert order[i..][0] == order[i] && order[i..][1..] == order[i + 1..];
      var replaced := ComputeReplaceCi(lower, text, order[i], values(order[i]));
      if replaced.None? {
        return None;
      }
      text := replaced.value;
    }
    out := Some(text);
  }

  // ----- Passes that stay in step -----------------------------------------

  /** No pass meets a token or an offset that lowercasing has moved. */
  predicate PassesInStep(lower: string -> string, p: string, order: seq<Token>, values: Token -> string)
    decreases |order|
  {
    order == [] ||
    (InStep(p, lower(p), order[0], 0)
     && PassesInStep(lower, ReplaceCi(p, order[0], values(order[0])), order[1..], values))
  }

  /** Lowercasing leaves the tokens themselves alone. */
  predicate KeepsTokens(lower: string -> string, order: seq<Token>) {
    forall i :: 0 <= i < |order| ==> lower(order[i]) == order[i]
  }

  lemma {:induction false} ExpandsInStep(
    lower: string -> string, p: string, order: seq<Token>, values: Token -> string)
    requires KeepsTokens(lower, order) && PassesInStep(lower, p, order, values)
    ensures ExpandText(lower, p, order, values) == Some(Passes(p, order, values))
    decreases |order|
  {
    if order == [] {
    } else {
      var t := order[0];
      ReplacesExactlyInStep(lower, p, t);
      assert ReplaceText(lower, p, t, values(t)) == Some(ReplaceCi(p, t, values(t)));
      ExpandsInStep(lower, ReplaceCi(p, t, values(t)), order[1..], values);
    }
  }

  // ----- Where lowercasing keeps offsets ----------------------------------

  predicate AllSteady(s: string, steady: char -> bool) { forall i :: 0 <= i < |s| ==> steady(s[i]) }

  /** Any text of these characters, ASCII among them, keeps its offsets. */
  ghost predicate Steady(lower: string -> string, steady: char -> bool) {
    && (forall c: char :: IsAscii(c) ==> steady(c))
    && forall s: string :: AllSteady(s, steady) ==> KeepsOffsets(lower, s)
  }

  lemma {:induction false} ReplaceSteady(h: string, needle: string, value: string, steady: char -> bool)
    requires needle != [] && AllSteady(h, steady) && AllSteady(value, steady)
    ensures AllSteady(ReplaceCi(h, needle, value), steady)
    decreases |h|
  {
    if h == [] {
    } else if Lower(needle) <= Lower(h) {
      ReplaceSteady(h[|needle|..], needle, value, steady);
    } else {
      ReplaceSteady(h[1..], needle, value, steady);
    }
  }

  /** Patterns and values of such characters stay in step in every pass. */
  lemma {:induction false} SteadyPasses(
    lower: string -> string, p: string, order: seq<Token>, values: Token -> string, steady: char -> bool)
    requires Steady(lower, steady) && AllSteady(p, steady) && forall t: Token :: AllSteady(values(t), steady)
    ensures PassesInStep(lower, p, order, values)
    decreases |order|
  {
    if order == [] {
    } else {
      var t := order[0];
      SteadyStaysInStep(lower, p, t, 0);
      ReplaceSteady(p, t, values(t), steady);
      SteadyPasses(lower, ReplaceCi(p, t, values(t)), order[1..], values, steady);
    }
  }

  lemma TrimMembers(s: string)
    ensures forall i :: 0 <= i < |Trim(s)| ==> Trim(s)[i] in s
  {
    var a, b := TrimParts(s);
    assert forall i :: 0 <= i < |Trim(s)| ==> Trim(s)[i] == s[|a| + i];
  }

  lemma ValuesSteady(first: string, last: string, steady: char -> bool, t: Token)
    requires AllSteady(first, steady) && AllSteady(last, steady)
    ensures AllSteady(ValueOf(first, last)(t), steady)
  {
    TrimMembers(first);
    TrimMembers(last);
  }

  lemma ValuesBraceFree(first: string, last: string)
    requires '{' !in first && '{' !in last
    ensures BraceFree(ValueOf(first, last))
  {
    TrimContent(first, '{');
    TrimContent(last, '{');
  }

  // ----- The passes against one substitution ------------------------------

  /** In the agent's own order, the passes are one simultaneous substitution for
      all values exactly when no value can complete a token of a later pass. */
  lemma ExpansionExactly(pattern: string)
    ensures (forall values ::
               BraceFree(values) ==> Passes(pattern, ORDER, values) == Simultaneous(pattern, ORDER, values)) <==>
            !CompletableIn(pattern, ORDER)
  {
    OrderShape();
    LongestFirstExactly(pattern, ORDER);
  }

  /** The order of the passes makes no difference, for any values, exactly when
      no value can complete another token. */
  lemma PassOrderExactly(pattern: string)
    ensures (forall order, values :: IsOrderOf(order, ORDER) && BraceFree(values) ==>
                                       Passes(pattern, order, values) == Simultaneous(pattern, ORDER, values)) <==>
            !CompletableInAnyOrder(pattern, ORDER)
  {
    OrderShape();
    EveryOrderExactly(pattern, ORDER);
  }

  // ----- A pattern that a name completes ----------------------------------

  lemma PassesOfFour(p: string, a: Token, b: Token, c: Token, d: Token, values: Token -> string)
    ensures Passes(p, [a, b, c, d], values) ==
            ReplaceCi(ReplaceCi(ReplaceCi(ReplaceCi(p, a, values(a)), b, values(b)), c, values(c)), d, values(d))
  {
    var q := ReplaceCi(ReplaceCi(p, a, values(a)), b, values(b));
    var r := ReplaceCi(q, c, values(c));
    assert [a, b, c, d][1..] == [b, c, d] && [b, c, d][1..] == [c, d] && [c, d][1..] == [d] && [d][1..] == [];
    assert Passes(r, [d], values) == ReplaceCi(r, d, values(d));
    assert Passes(q, [c, d], values) == Passes(r, [d], values);
    assert Passes(ReplaceCi(p, a, values(a)), [b, c, d], values) == Passes(q, [c, d], values);
  }

  /** A pass over a token in braces of its own. */
  lemma {:induction false} PassInBraces(t: Token, value: string)
    ensures ReplaceCi("{" + (t + "}"), t, value) == "{" + (value + "}")
  {
    var p := "{" + (t + "}");
    assert p[0] == '{' && p[1] == '{' && p[1..] == t + "}";
    assert Lower(p)[1] == '{' && t[1] != '{';
    SkipUnmatched(p, t, value);
    FoundHere(t, t, "}", value);
    SkipBraceFree("}", "", t, value);
    assert "}" + "" == "}";
  }

  lemma OnceInBraces(t: Token, tokens: seq<Token>, values: Token -> string)
    requires t in tokens
    ensures Simultaneous("{" + (t + "}"), tokens, values) == "{" + (values(t) + "}")
  {
    var p := "{" + (t + "}");
    assert p[0] == '{' && p[1] == '{' && p[1..] == t + "}" && (t + "}")[|t|..] == "}";
    assert Lower(p)[1] == '{';
    assert TokenAt(p, tokens) == None;
    assert Lower(t + "}")[..|t|] == t;
    TokenAtIs(t + "}", tokens, t);
    assert Lower("}")[0] == '}' && TokenAt("}", tokens) == None;
    assert Simultaneous("}", tokens, values) == ['}'] + [];
  }

  /** A stray brace can form a token with a substituted name, and a later pass
      then replaces it: the passes give `f`, the one pass gives `{f}`. */
  lemma StrayBraceIsReexpanded()
    ensures var p := "{" + (FIRST + "}");
            && Passes(p, ORDER, ValueOf("f", "")) == "f"
            && Simultaneous(p, ORDER, ValueOf("f", "")) == "{" + ("f" + "}")
  {
    var values := ValueOf("f", "");
    TrimFixed("f");
    var spelled := "{" + ("f" + "}");
    assert Lower(spelled) == FIRST_INITIAL && spelled + "" == spelled && "f" + "" == "f";
    OrderShape();
    PassesOfFour("{" + (FIRST + "}"), FIRST, LAST, FIRST_INITIAL, LAST_INITIAL, values);
    PassInBraces(FIRST, "f");
    NotFoundHere(LAST, FIRST_INITIAL, spelled, "", values(LAST));
    FoundHere(FIRST_INITIAL, spelled, "", "f");
    SkipBraceFree("f", "", LAST_INITIAL, values(LAST_INITIAL));
    OnceInBraces(FIRST, ORDER, values);
  }
}
