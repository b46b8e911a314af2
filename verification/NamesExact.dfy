/** The exact condition for the values a person's names give: two names and
    their initials, not four values at will. */
module NamesExact {
  import opened Text
  import opened CaseReplace
  import opened Templates
  import opened TemplatesExact
  import opened Naming

  const FIRST_THREE: seq<Token> := [FIRST, LAST, FIRST_INITIAL]

  // ----- Tokens by name ---------------------------------------------------

  lemma TokensDiffer()
    ensures FIRST != LAST && FIRST != FIRST_INITIAL && FIRST != LAST_INITIAL
    ensures LAST != FIRST_INITIAL && LAST != LAST_INITIAL && FIRST_INITIAL != LAST_INITIAL
    ensures |FIRST| == 7 && |LAST| == 6 && |FIRST_INITIAL| == 3 && |LAST_INITIAL| == 3
  {
    assert FIRST_INITIAL[1] == 'f' && LAST_INITIAL[1] == 'l';
  }

  lemma LaterByName()
    ensures Later(ORDER, FIRST) == [LAST, FIRST_INITIAL, LAST_INITIAL]
    ensures Later(ORDER, LAST) == [FIRST_INITIAL, LAST_INITIAL]
    ensures Later(ORDER, FIRST_INITIAL) == [LAST_INITIAL]
    ensures Later(ORDER, LAST_INITIAL) == []
  {
    TokensDiffer();
    assert ORDER[1..] == [LAST, FIRST_INITIAL, LAST_INITIAL];
    assert ORDER[1..][1..] == [FIRST_INITIAL, LAST_INITIAL];
    assert ORDER[1..][1..][1..] == [LAST_INITIAL];
    assert ORDER[1..][1..][1..][1..] == [];
    assert Later(ORDER, FIRST_INITIAL) == Later(ORDER[1..][1..], FIRST_INITIAL);
    assert Later(ORDER, LAST_INITIAL) == Later(ORDER[1..][1..], LAST_INITIAL);
    assert Later(ORDER[1..][1..], LAST_INITIAL) == Later(ORDER[1..][1..][1..], LAST_INITIAL);
  }

  lemma InOrder(u: Token)
    ensures u in ORDER <==> u == FIRST || u == LAST || u == FIRST_INITIAL || u == LAST_INITIAL
    ensures u in FIRST_THREE <==> u == FIRST || u == LAST || u == FIRST_INITIAL
  {
  }

  lemma ValuesByName(first: string, last: string)
    ensures ValueOf(first, last)(FIRST) == Trim(first) && ValueOf(first, last)(LAST) == Trim(last)
    ensures ValueOf(first, last)(FIRST_INITIAL) == Initial(Trim(first))
    ensures ValueOf(first, last)(LAST_INITIAL) == Initial(Trim(last))
  {
    TokensDiffer();
  }

  // ----- The condition ----------------------------------------------------

  /** A closing brace comes next, or a last name that can start with one. */
  predicate Closes(segs: seq<Segment>) {
    segs != [] && (segs[0] == Ch('}') || (segs[0].Tok? && segs[0].token == LAST))
  }

  /** With no first name at all, the segments can go on with `need`. */
  predicate Reaches(segs: seq<Segment>, need: string) {
    need == [] ||
    (segs != [] &&
     match segs[0]
     case Ch(c) => LowerChar(c) == need[0] && Reaches(segs[1..], need[1..])
     case Tok(u, _) => u == LAST || ((u == FIRST || u == FIRST_INITIAL) && Reaches(segs[1..], need)))
  }

  /** A name in place of `u` can complete the run before it to the token of a
      later pass. An initial is one character at most, so right after a stray
      brace it needs a closing brace next to it, or leaves the rest to what
      follows. */
  predicate NameCompletes(u: Token, run: string, rest: seq<Segment>) {
    && Begins(run, Later(ORDER, u))
    && (u == FIRST_INITIAL && |run| == 1 ==> Closes(rest) || Reaches(rest, "l}"))
  }

  predicate NameCompletable(segs: seq<Segment>, run: string) {
    segs != [] &&
    match segs[0]
    case Ch(c) => NameCompletable(segs[1..], Extend(run, c, ORDER))
    case Tok(u, _) => NameCompletes(u, run, segs[1..]) || NameCompletable(segs[1..], "")
  }

  /** A pattern of tokens and text without opening braces is never completable. */
  lemma {:induction false} NoStrayBraceForNames(segs: seq<Segment>)
    requires NoBraceCh(segs)
    ensures !NameCompletable(segs, "")
  {
    if segs == [] {
    } else {
      if segs[0].Ch? {
        PlainCharIsSettled(segs[0].c, ORDER);
      }
      NoStrayBraceForNames(segs[1..]);
    }
  }

  // ----- Completable by names: some names differ --------------------------

  lemma {:induction false} FindNameRun(segs: seq<Segment>, run: string)
    returns (a: seq<Segment>, w: string, u: Token, spelling: string, b: seq<Segment>)
    requires NameCompletable(segs, run)
    ensures Chars(run) + segs == Around(a, w, u, spelling, b) && NameCompletes(u, w, b)
  {
    var rest := segs[1..];
    assert segs == [segs[0]] + rest;
    if segs[0].Ch? {
      var before := ExtendCuts(run, segs[0].c, rest, ORDER);
      a, w, u, spelling, b := FindNameRun(rest, Extend(run, segs[0].c, ORDER));
      AroundBefore(before, a, w, u, spelling, b);
      a := before + a;
    } else if NameCompletes(segs[0].token, run, rest) {
      a, w, u, spelling, b := [], run, segs[0].token, segs[0].spelling, rest;
    } else {
      a, w, u, spelling, b := FindNameRun(rest, "");
      assert Chars("") + rest == rest;
      var before := Chars(run) + [segs[0]];
      AroundBefore(before, a, w, u, spelling, b);
      Reassociate(Chars(run), [segs[0]], rest);
      a := before + a;
    }
  }

  lemma NoBlankInTokens(t: Token)
    requires t in ORDER
    ensures forall i :: 0 <= i < |t| ==> !IsWhitespace(t[i])
  {
    InOrder(t);
    assert forall i :: 0 <= i < |FIRST| ==> !IsWhitespace(FIRST[i]);
    assert forall i :: 0 <= i < |LAST| ==> !IsWhitespace(LAST[i]);
  }

  lemma SuffixIsTrimmed(t: Token, k: nat)
    requires t in ORDER && 1 <= k <= |t|
    ensures Trim(t[k..]) == t[k..] && '{' !in t[k..]
  {
    NoBlankInTokens(t);
    TrimFixed(t[k..]);
    assert forall i :: k <= i < |t| ==> t[i] != '{';
  }

  lemma NamesAreShort(first: string, last: string)
    requires |Trim(first)| < 7 && |Trim(last)| < 6
    ensures Short(ORDER, ValueOf(first, last))
  {
    TokensDiffer();
    ValuesByName(first, last);
  }

  lemma TrimOfNothing()
    ensures Trim("") == ""
  {
    TrimFixed("");
  }

  /** Names in ASCII without an opening brace. */
  predicate Usable(first: string, last: string) {
    AllAscii(first) && AllAscii(last) && '{' !in first && '{' !in last
  }

  lemma SuffixIsShort(u: Token, t: Token, k: nat)
    requires u in ORDER && t in Later(ORDER, u) && 1 <= k < |t|
    ensures u != LAST_INITIAL && |t[k..]| < 6
  {
    InOrder(u);
    LaterByName();
    TokensDiffer();
  }

  lemma OnlyFirst(s: string)
    requires Trim(s) == s && |s| < 6
    ensures ValueOf(s, "")(FIRST) == s && (|s| == 1 ==> ValueOf(s, "")(FIRST_INITIAL) == s)
    ensures Short(ORDER, ValueOf(s, ""))
  {
    TrimOfNothing();
    ValuesByName(s, "");
    NamesAreShort(s, "");
  }

  lemma OnlyLast(s: string)
    requires Trim(s) == s && |s| < 6
    ensures ValueOf("", s)(LAST) == s && Short(ORDER, ValueOf("", s))
  {
    TrimOfNothing();
    ValuesByName("", s);
    NamesAreShort("", s);
  }

  /** Names that put what `t` has from `k` on in place of `u`. */
  lemma NamesFor(u: Token, t: Token, k: nat) returns (first: string, last: string)
    requires u in ORDER && t in Later(ORDER, u) && 1 <= k < |t| && (u == FIRST_INITIAL ==> k == 2)
    ensures Usable(first, last) && Short(ORDER, ValueOf(first, last))
    ensures ValueOf(first, last)(u) == t[k..]
  {
    InOrder(u);
    SuffixIsShort(u, t, k);
    LaterIsIn(ORDER, u, t);
    SuffixIsTrimmed(t, k);
    if u == LAST {
      first, last := "", t[k..];
      OnlyLast(last);
    } else {
      first, last := t[k..], "";
      OnlyFirst(first);
      if u == FIRST_INITIAL {
        LaterByName();
        TokensDiffer();
      }
    }
  }

  lemma ShortestRun(w: string, tokens: seq<Token>)
    requires Begins(w, tokens) && |w| == 1
    ensures w == "{"
  {
    if tokens == [] {
    } else {
      BeginningHasNoToken(w, tokens, tokens[0]);
    }
  }

  /** Where one name is enough. */
  lemma OneNameDiffers(
    p: string, a: seq<Segment>, w: string, u: Token, spelling: string, b: seq<Segment>)
    returns (first: string, last: string)
    requires Segments(p, ORDER) == Around(a, w, u, spelling, b) && Begins(w, Later(ORDER, u))
    requires u == FIRST_INITIAL ==> |w| != 1
    ensures Usable(first, last) && Differ(p, first, last)
  {
    var t := BeginsLacks(w, Later(ORDER, u));
    FlatSegments(p, ORDER);
    SegmentsTokens(p, ORDER);
    AroundIsProper(a, w, u, spelling, b, ORDER);
    LaterByName();
    TokensDiffer();
    first, last := NamesFor(u, t, |w|);
    ValuesBraceFree(first, last);
    CompletedRunShrinks(a, w, u, spelling, b, t, ORDER, ValueOf(first, last));
    FillSegments(p, ORDER, ValueOf(first, last));
  }

  ghost predicate Differ(p: string, first: string, last: string) {
    Passes(p, ORDER, ValueOf(first, last)) != Simultaneous(p, ORDER, ValueOf(first, last))
  }

  lemma MidDiffers(
    p: string, a: seq<Segment>, mid: seq<Segment>, rest: seq<Segment>, first: string, last: string)
    requires Segments(p, ORDER) == a + (Chars("{") + (mid + rest))
    requires '{' !in first && '{' !in last && |Trim(first)| < 7 && |Trim(last)| < 6
    requires Completes("{", mid, LAST_INITIAL, ValueOf(first, last)) && NoLastInitial(mid)
    ensures Differ(p, first, last)
  {
    var values := ValueOf(first, last);
    FlatSegments(p, ORDER);
    SegmentsTokens(p, ORDER);
    MidIsProper(a, mid, rest);
    BeforeLastInitial(mid);
    ValuesBraceFree(first, last);
    NamesAreShort(first, last);
    InOrder(LAST_INITIAL);
    CompletedMidShrinks(a, "{", mid, rest, LAST_INITIAL, ORDER, values);
    FillSegments(p, ORDER, values);
  }

  predicate NoLastInitial(segs: seq<Segment>) {
    forall i :: 0 <= i < |segs| && segs[i].Tok? ==> segs[i].token != LAST_INITIAL
  }

  lemma StillNoLastInitial(spelling: string, more: seq<Segment>)
    requires NoLastInitial(more)
    ensures NoLastInitial([Tok(FIRST_INITIAL, spelling)] + more)
  {
    TokensDiffer();
  }

  /** Where an initial after the brace and what follows it are. */
  lemma {:induction false} InitialDiffers(
    p: string, a: seq<Segment>, spelling: string, more: seq<Segment>, rest: seq<Segment>, first: string, last: string)
    requires Segments(p, ORDER) == Around(a, "{", FIRST_INITIAL, spelling, more + rest)
    requires '{' !in first && '{' !in last && |Trim(first)| < 7 && |Trim(last)| < 6
    requires more != [] && NoBraceCh(more) && FillAll([more[|more| - 1]], ValueOf(first, last)) != []
    requires NoLastInitial(more)
    requires Lower(Initial(Trim(first)) + FillAll(more, ValueOf(first, last))) == "l}"
    ensures Differ(p, first, last)
  {
    var mid := [Tok(FIRST_INITIAL, spelling)] + more;
    Reassociate([Tok(FIRST_INITIAL, spelling)], more, rest);
    InitialCompletes(spelling, more, first, last);
    StillNoLastInitial(spelling, more);
    MidDiffers(p, a, mid, rest, first, last);
  }

  lemma MidIsProper(a: seq<Segment>, mid: seq<Segment>, rest: seq<Segment>)
    requires var segs := a + (Chars("{") + (mid + rest)); AllProper(segs) && OnlyTokens(segs, ORDER)
    ensures AllProper(mid) && OnlyTokens(mid, ORDER)
  {
    ProperConcat(a, Chars("{") + (mid + rest));
    ProperConcat(Chars("{"), mid + rest);
    ProperConcat(mid, rest);
    OnlyTokensConcat(a, Chars("{") + (mid + rest), ORDER);
    OnlyTokensConcat(Chars("{"), mid + rest, ORDER);
    OnlyTokensConcat(mid, rest, ORDER);
  }

  lemma {:induction false} InitialCompletes(spelling: string, more: seq<Segment>, first: string, last: string)
    requires more != [] && NoBraceCh(more) && FillAll([more[|more| - 1]], ValueOf(first, last)) != []
    requires Lower(Initial(Trim(first)) + FillAll(more, ValueOf(first, last))) == "l}"
    ensures Completes("{", [Tok(FIRST_INITIAL, spelling)] + more, LAST_INITIAL, ValueOf(first, last))
  {
    var values, mid := ValueOf(first, last), [Tok(FIRST_INITIAL, spelling)] + more;
    ValuesByName(first, last);
    FillAllConcat([Tok(FIRST_INITIAL, spelling)], more, values);
    FillAllOne(Tok(FIRST_INITIAL, spelling), values);
    var s := Initial(Trim(first)) + FillAll(more, values);
    assert Lower("{" + s) == "{" + Lower(s);
    assert mid[|mid| - 1] == more[|more| - 1];
    assert forall i :: 0 < i < |mid| ==> mid[i] == more[i - 1];
  }

  lemma BeforeLastInitial(mid: seq<Segment>)
    requires OnlyTokens(mid, ORDER) && NoLastInitial(mid)
    ensures AllBefore(mid, ORDER, LAST_INITIAL)
  {
    LaterByName();
    forall i | 0 <= i < |mid| && mid[i].Tok? ensures LAST_INITIAL in Later(ORDER, mid[i].token) {
      InOrder(mid[i].token);
    }
  }

  /** Lower-case text with nothing to trim and no brace to open. */
  predicate Plain(s: string) {
    '{' !in s && AllAscii(s) && Lower(s) == s && forall i :: 0 <= i < |s| ==> !IsWhitespace(s[i])
  }

  lemma PlainIsTrimmed(s: string)
    requires Plain(s)
    ensures Trim(s) == s && (s != [] ==> Plain(s[1..]))
  {
    TrimFixed(s);
    if s == [] {
    } else {
      assert Lower(s)[1..] == Lower(s[1..]);
    }
  }

  /** What `ReachingSegments` finds. */
  predicate Reaching(more: seq<Segment>, need: string, last: string) {
    && more != [] && NoBraceCh(more) && NoLastInitial(more) && Usable("", last) && |Trim(last)| <= |need|
    && Lower(FillAll(more, ValueOf("", last))) == need
    && FillAll([more[|more| - 1]], ValueOf("", last)) != []
  }

  lemma ReachingOne(head: Segment, need: string) returns (last: string)
    requires Plain(need) && need != []
    requires if head.Tok? then head.token == LAST else [LowerChar(head.c)] == need
    ensures Reaching([head], need, last)
  {
    TokensDiffer();
    TrimOfNothing();
    PlainIsTrimmed(need);
    last := if head.Tok? then need else "";
    ValuesByName("", last);
    FillAllOne(head, ValueOf("", last));
    assert head.Ch? ==> Lower([head.c]) == [LowerChar(head.c)];
  }

  /** The segments that go on with `need`, and the last name that makes them. */
  lemma {:induction false} ReachingSegments(segs: seq<Segment>, need: string)
    returns (more: seq<Segment>, rest: seq<Segment>, last: string)
    requires Reaches(segs, need) && need != [] && Plain(need)
    ensures segs == more + rest && Reaching(more, need, last)
  {
    var head := segs[0];
    assert segs == [head] + segs[1..];
    PlainIsTrimmed(need);
    if (head.Tok? && head.token == LAST) || (head.Ch? && |need| == 1) {
      last := ReachingOne(head, need);
      more, rest := [head], segs[1..];
    } else {
      var tail := if head.Ch? then need[1..] else need;
      more, rest, last := ReachingSegments(segs[1..], tail);
      ReachingMore(head, more, need, last);
      Reassociate([head], more, rest);
      more := [head] + more;
    }
  }

  lemma ReachingMore(head: Segment, more: seq<Segment>, need: string, last: string)
    requires need != [] && '{' !in need
    requires head.Ch? ==> LowerChar(head.c) == need[0] && Reaching(more, need[1..], last)
    requires head.Tok? ==> head.token in [FIRST, FIRST_INITIAL] && Reaching(more, need, last)
    ensures Reaching([head] + more, need, last)
  {
    TokensDiffer();
    ReachingMoreText(head, more, need, last);
    var all := [head] + more;
    assert all[|all| - 1] == more[|more| - 1];
    assert forall i :: 0 < i < |all| ==> all[i] == more[i - 1];
  }

  lemma ReachingMoreText(head: Segment, more: seq<Segment>, need: string, last: string)
    requires need != [] && (head.Tok? ==> head.token in [FIRST, FIRST_INITIAL])
    requires head.Ch? ==> LowerChar(head.c) == need[0]
    requires Lower(FillAll(more, ValueOf("", last))) == if head.Ch? then need[1..] else need
    ensures Lower(FillAll([head] + more, ValueOf("", last))) == need
  {
    var values, s := ValueOf("", last), FillAll(more, ValueOf("", last));
    FillAllConcat([head], more, values);
    FillAllOne(head, values);
    if head.Ch? {
      assert Lower([head.c] + s) == [LowerChar(head.c)] + Lower(s) == need;
    } else {
      ValuesByName("", last);
      TrimOfNothing();
      assert [] + s == s;
    }
  }

  /** Where names can complete a token, some names make the passes differ from
      the simultaneous substitution. */
  lemma SomeNamesDiffer(p: string) returns (first: string, last: string)
    requires NameCompletable(Segments(p, ORDER), "")
    ensures Usable(first, last) && Differ(p, first, last)
  {
    var a, w, u, spelling, b := FindNameRun(Segments(p, ORDER), "");
    assert Chars("") + Segments(p, ORDER) == Segments(p, ORDER);
    if u != FIRST_INITIAL || |w| != 1 {
      first, last := OneNameDiffers(p, a, w, u, spelling, b);
    } else {
      ShortestRun(w, Later(ORDER, u));
      if Closes(b) {
        first, last := ClosedInitialDiffers(p, a, spelling, b);
      } else {
        first, last := ReachingInitialDiffers(p, a, spelling, b);
      }
    }
  }

  lemma ClosedInitialDiffers(p: string, a: seq<Segment>, spelling: string, b: seq<Segment>)
    returns (first: string, last: string)
    requires Segments(p, ORDER) == Around(a, "{", FIRST_INITIAL, spelling, b) && Closes(b)
    ensures Usable(first, last) && Differ(p, first, last)
  {
    var next, rest := b[..1], b[1..];
    assert b == next + rest && next == [b[0]];
    first, last := ClosingNames(b[0]);
    TokensDiffer();
    InitialDiffers(p, a, spelling, next, rest, first, last);
  }

  lemma ClosingNames(next: Segment) returns (first: string, last: string)
    requires Closes([next])
    ensures Usable(first, last) && |Trim(first)| < 7 && |Trim(last)| < 6
    ensures FillAll([next], ValueOf(first, last)) != []
    ensures Lower(Initial(Trim(first)) + FillAll([next], ValueOf(first, last))) == "l}"
  {
    first, last := "l", "}";
    TrimFixed(first);
    TrimFixed(last);
    ValuesByName(first, last);
    FillAllOne(next, ValueOf(first, last));
    assert Lower("l" + "}") == "l}";
  }

  lemma ReachingInitialDiffers(p: string, a: seq<Segment>, spelling: string, b: seq<Segment>)
    returns (first: string, last: string)
    requires Segments(p, ORDER) == Around(a, "{", FIRST_INITIAL, spelling, b) && Reaches(b, "l}")
    ensures Usable(first, last) && Differ(p, first, last)
  {
    var need := "l}";
    TrimOfNothing();
    assert Lower(need) == need;
    var more, rest;
    more, rest, last := ReachingSegments(b, need);
    first := "";
    assert [] + FillAll(more, ValueOf("", last)) == FillAll(more, ValueOf("", last));
    InitialDiffers(p, a, spelling, more, rest, first, last);
  }

  // ----- Otherwise: the first three passes --------------------------------

  lemma BeginsAmongThree(run: string)
    ensures Begins(run, ORDER) <==> Begins(run, FIRST_THREE)
  {
    if Begins(run, FIRST_THREE) {
      BeginsAmong(run, FIRST_THREE, ORDER);
    }
    if Begins(run, ORDER) {
      var t := BeginsLacks(run, ORDER);
      InOrder(t);
      if t == LAST_INITIAL {
        LastInitialBegins(run);
        BeginsToken(run, FIRST_THREE, LAST);
      } else {
        BeginsToken(run, FIRST_THREE, t);
      }
    }
  }

  /** What begins the last initial begins the last name. */
  lemma LastInitialBegins(run: string)
    requires |run| <= |LAST_INITIAL| && Lacks(run, LAST_INITIAL[|run|..], LAST_INITIAL)
    ensures Lower(run) <= LAST && |run| < |LAST|
  {
    assert LAST[0] == LAST_INITIAL[0] && LAST[1] == LAST_INITIAL[1];
    assert forall i :: 0 <= i < |run| ==> Lower(run)[i] == LAST_INITIAL[i];
  }

  lemma SameExtend(run: string, c: char)
    ensures Extend(run, c, ORDER) == Extend(run, c, FIRST_THREE)
  {
    BeginsAmongThree("{");
    BeginsAmongThree(run + [c]);
  }

  lemma TokenAmongThree(p: string)
    ensures TokenAt(p, FIRST_THREE) == if TokenAt(p, ORDER) == Some(LAST_INITIAL) then None else TokenAt(p, ORDER)
  {
    TokensDiffer();
    var r := TokenAt(p, ORDER);
    if r.Some? {
      InOrder(r.value);
      if r.value == LAST_INITIAL {
        if TokenAt(p, FIRST_THREE).Some? {
          var t := TokenAt(p, FIRST_THREE).value;
          InOrder(t);
          TokenAtIs(p, ORDER, t);
        }
      } else {
        TokenAtIs(p, FIRST_THREE, r.value);
      }
    } else if TokenAt(p, FIRST_THREE).Some? {
      var t := TokenAt(p, FIRST_THREE).value;
      InOrder(t);
      TokenAtIs(p, ORDER, t);
    }
  }

  lemma NoTokenWithoutBrace(p: string, tokens: seq<Token>)
    requires p != [] && p[0] != '{'
    ensures TokenAt(p, tokens) == None
  {
    assert Lower(p)[0] == LowerChar(p[0]) != '{';
  }

  lemma {:induction false} InitialShape(p: string)
    requires TokenAt(p, ORDER) == Some(LAST_INITIAL)
    ensures |p| >= 3 && p[0] == '{' && LowerChar(p[1]) == 'l' && p[2] == '}'
  {
    TokenHead(p, LAST_INITIAL);
    assert forall i :: 0 <= i < 3 ==> LowerChar(p[i]) == Lower(p)[i] == LAST_INITIAL[i];
  }

  lemma SegmentsCh(p: string, tokens: seq<Token>)
    requires p != [] && TokenAt(p, tokens) == None
    ensures Segments(p, tokens) == [Ch(p[0])] + Segments(p[1..], tokens)
  {
  }

  lemma SimultaneousCh(p: string, tokens: seq<Token>, values: Token -> string)
    requires p != [] && TokenAt(p, tokens) == None
    ensures Simultaneous(p, tokens, values) == [p[0]] + Simultaneous(p[1..], tokens, values)
  {
  }

  lemma ThreeCharSegments(p: string, tokens: seq<Token>)
    requires |p| >= 3 && TokenAt(p, tokens) == None && p[1] != '{' && p[2] != '{'
    ensures Segments(p, tokens) == [Ch(p[0])] + ([Ch(p[1])] + ([Ch(p[2])] + Segments(p[3..], tokens)))
  {
    assert p[1..][1..] == p[2..] && p[2..][1..] == p[3..];
    NoTokenWithoutBrace(p[1..], tokens);
    NoTokenWithoutBrace(p[2..], tokens);
    SegmentsCh(p, tokens);
    SegmentsCh(p[1..], tokens);
    SegmentsCh(p[2..], tokens);
  }

  lemma ThreeCharsStay(p: string, tokens: seq<Token>, values: Token -> string)
    requires |p| >= 3 && TokenAt(p, tokens) == None && p[1] != '{' && p[2] != '{'
    ensures Simultaneous(p, tokens, values) == p[..3] + Simultaneous(p[3..], tokens, values)
  {
    assert p[1..][1..] == p[2..] && p[2..][1..] == p[3..];
    NoTokenWithoutBrace(p[1..], tokens);
    NoTokenWithoutBrace(p[2..], tokens);
    SimultaneousCh(p, tokens, values);
    SimultaneousCh(p[1..], tokens, values);
    SimultaneousCh(p[2..], tokens, values);
    FirstThree(p, Simultaneous(p[3..], tokens, values));
  }

  lemma FirstThree(p: string, rest: string)
    requires |p| >= 3
    ensures [p[0]] + ([p[1]] + ([p[2]] + rest)) == p[..3] + rest
  {
  }

  lemma {:induction false} InitialIsNoneOfThree(p: string)
    requires TokenAt(p, ORDER) == Some(LAST_INITIAL)
    ensures |p| >= 3 && p[0] == '{' && LowerChar(p[1]) == 'l' && p[2] == '}' && TokenAt(p, FIRST_THREE) == None
  {
    InitialShape(p);
    TokenAmongThree(p);
  }

  /** A last initial is three plain characters to the first three passes. */
  lemma {:induction false} InitialAsChars(p: string, values: Token -> string)
    requires TokenAt(p, ORDER) == Some(LAST_INITIAL)
    ensures |p| >= 3 && p[0] == '{' && LowerChar(p[1]) == 'l' && p[2] == '}'
    ensures Segments(p, FIRST_THREE) == [Ch(p[0])] + ([Ch(p[1])] + ([Ch(p[2])] + Segments(p[3..], FIRST_THREE)))
    ensures Simultaneous(p, FIRST_THREE, values) == p[..3] + Simultaneous(p[3..], FIRST_THREE, values)
  {
    InitialIsNoneOfThree(p);
    ThreeCharSegments(p, FIRST_THREE);
    ThreeCharsStay(p, FIRST_THREE, values);
  }

  lemma CompletableCh(
    c: char, rest: seq<Segment>, run: string, tokens: seq<Token>, rivals: Token -> seq<Token>)
    ensures Completable([Ch(c)] + rest, run, tokens, rivals) ==
            Completable(rest, Extend(run, c, tokens), tokens, rivals)
  {
    assert ([Ch(c)] + rest)[1..] == rest;
  }

  /** The three characters leave no run behind. */
  lemma InitialEndsRun(p: string, rest: seq<Segment>, run: string, rivals: Token -> seq<Token>)
    requires |p| >= 3 && p[0] == '{' && LowerChar(p[1]) == 'l' && p[2] == '}'
    ensures Completable([Ch(p[0])] + ([Ch(p[1])] + ([Ch(p[2])] + rest)), run, FIRST_THREE, rivals) ==
            Completable(rest, "", FIRST_THREE, rivals)
  {
    var r1 := Extend(run, p[0], FIRST_THREE);
    var r2 := Extend(r1, p[1], FIRST_THREE);
    CompletableCh(p[0], [Ch(p[1])] + ([Ch(p[2])] + rest), run, FIRST_THREE, rivals);
    CompletableCh(p[1], [Ch(p[2])] + rest, r1, FIRST_THREE, rivals);
    CompletableCh(p[2], rest, r2, FIRST_THREE, rivals);
    BraceEndsRun(r2, FIRST_THREE);
  }

  lemma BraceEndsRun(run: string, tokens: seq<Token>)
    ensures Extend(run, '}', tokens) == ""
  {
    assert (run + ['}'])[|run|] == '}' && '}' in run + ['}'];
    if Begins(run + ['}'], tokens) {
      BeginningHasNoToken(run + ['}'], tokens, LAST);
    }
  }

  lemma LaterAmongThree(u: Token, run: string)
    requires u in FIRST_THREE && Begins(run, Later(FIRST_THREE, u))
    ensures u != FIRST_INITIAL && Begins(run, Later(ORDER, u))
  {
    TokensDiffer();
    LaterByName();
    InOrder(u);
    assert FIRST_THREE[1..] == [LAST, FIRST_INITIAL] && FIRST_THREE[1..][1..] == [FIRST_INITIAL];
    assert FIRST_THREE[1..][1..][1..] == [];
    assert Later(FIRST_THREE, FIRST_INITIAL) == Later(FIRST_THREE[1..][1..], FIRST_INITIAL) == [];
    assert Later(FIRST_THREE, FIRST) == [LAST, FIRST_INITIAL];
    assert Later(FIRST_THREE, LAST) == Later(FIRST_THREE[1..], LAST) == [FIRST_INITIAL];
    BeginsAmong(run, Later(FIRST_THREE, u), Later(ORDER, u));
  }

  /** What could go wrong in the first three passes can with names. */
  lemma {:induction false} CompletableAmongThree(p: string, run: string)
    requires Completable(Segments(p, FIRST_THREE), run, FIRST_THREE, u => Later(FIRST_THREE, u))
    ensures NameCompletable(Segments(p, ORDER), run)
    decreases |p|
  {
    var segs := Segments(p, ORDER);
    TokenAmongThree(p);
    match TokenAt(p, ORDER) {
      case None =>
        SameExtend(run, p[0]);
        assert Segments(p, FIRST_THREE)[1..] == Segments(p[1..], FIRST_THREE) && segs[1..] == Segments(p[1..], ORDER);
        CompletableAmongThree(p[1..], Extend(run, p[0], FIRST_THREE));
      case Some(u) =>
        TokenHead(p, u);
        assert segs[1..] == Segments(p[|u|..], ORDER);
        if u == LAST_INITIAL {
          InitialAsChars(p, _ => "");
          InitialEndsRun(p, Segments(p[3..], FIRST_THREE), run, u => Later(FIRST_THREE, u));
          CompletableAmongThree(p[3..], "");
        } else {
          assert Segments(p, FIRST_THREE)[1..] == Segments(p[|u|..], FIRST_THREE);
          if Begins(run, Later(FIRST_THREE, u)) {
            LaterAmongThree(u, run);
          } else {
            CompletableAmongThree(p[|u|..], "");
          }
        }
    }
  }

  // ----- and the last one -------------------------------------------------

  /** The segments after the first three passes. */
  function AfterThree(segs: seq<Segment>, values: Token -> string): seq<Segment> {
    if segs == [] then [] else
      (if segs[0].Tok? && segs[0].token != LAST_INITIAL then Chars(values(segs[0].token)) else [segs[0]])
      + AfterThree(segs[1..], values)
  }

  lemma {:induction false} AfterThreeFlat(segs: seq<Segment>, values: Token -> string)
    requires segs != []
    ensures Flat(AfterThree(segs, values)) ==
            (if segs[0].Tok? && segs[0].token != LAST_INITIAL then values(segs[0].token) else Spell(segs[0])) +
            Flat(AfterThree(segs[1..], values))
  {
    var rest := AfterThree(segs[1..], values);
    if segs[0].Tok? && segs[0].token != LAST_INITIAL {
      FlatChars(values(segs[0].token), rest);
    } else {
      FlatCons(segs[0], rest);
    }
  }

  lemma {:induction false} ThreeFilled(p: string, values: Token -> string)
    ensures Simultaneous(p, FIRST_THREE, values) == Flat(AfterThree(Segments(p, ORDER), values))
    decreases |p|
  {
    if p == [] {
    } else {
      var segs := Segments(p, ORDER);
      TokenAmongThree(p);
      AfterThreeFlat(segs, values);
      match TokenAt(p, ORDER) {
        case None =>
          assert segs[1..] == Segments(p[1..], ORDER);
          ThreeFilled(p[1..], values);
        case Some(u) =>
          TokenHead(p, u);
          assert segs[1..] == Segments(p[|u|..], ORDER);
          ThreeFilled(p[|u|..], values);
          if u == LAST_INITIAL {
            InitialAsChars(p, values);
            TokensDiffer();
          }
      }
    }
  }

  lemma PrefixCons(need: string, head: string, rest: string)
    requires need != [] && head != [] && need <= Lower(head + rest)
    ensures need[0] == LowerChar(head[0]) && (|head| == 1 ==> need[1..] <= Lower(rest))
  {
    assert Lower(head + rest)[0] == LowerChar(head[0]);
    PrefixTail(need, Lower(head + rest));
    assert |head| == 1 ==> Lower(head + rest)[1..] == Lower(rest);
  }

  /** With no first name, what the segments go on with they can reach. */
  lemma {:induction false} AheadIsReached(segs: seq<Segment>, need: string, values: Token -> string)
    requires AllProper(segs) && OnlyTokens(segs, ORDER) && '{' !in need
    requires values(FIRST) == "" && values(FIRST_INITIAL) == ""
    ensures need <= Lower(Flat(AfterThree(segs, values))) ==> Reaches(segs, need)
    decreases |segs|
  {
    if need != [] && segs != [] && need <= Lower(Flat(AfterThree(segs, values))) {
      AfterThreeFlat(segs, values);
      var rest := Flat(AfterThree(segs[1..], values));
      match segs[0] {
        case Ch(c) =>
          PrefixCons(need, [c], rest);
          AheadIsReached(segs[1..], need[1..], values);
        case Tok(u, spelling) =>
          InOrder(u);
          if u == FIRST || u == FIRST_INITIAL {
            TokensDiffer();
            assert [] + rest == rest;
            AheadIsReached(segs[1..], need, values);
          } else if u == LAST_INITIAL {
            SpellingBraces(u, spelling);
            PrefixCons(need, spelling, rest);
          }
      }
    }
  }

  /** With a first name in `l`, a brace that comes next closes. */
  lemma AheadCloses(segs: seq<Segment>, values: Token -> string)
    requires AllProper(segs) && OnlyTokens(segs, ORDER)
    requires values(FIRST) != "" && LowerChar(values(FIRST)[0]) == 'l'
    requires values(FIRST_INITIAL) != "" && LowerChar(values(FIRST_INITIAL)[0]) == 'l'
    ensures "}" <= Lower(Flat(AfterThree(segs, values))) ==> Closes(segs)
  {
    if segs != [] && "}" <= Lower(Flat(AfterThree(segs, values))) {
      AfterThreeFlat(segs, values);
      TokensDiffer();
      var rest := Flat(AfterThree(segs[1..], values));
      match segs[0] {
        case Ch(c) =>
          PrefixCons("}", [c], rest);
        case Tok(u, spelling) =>
          InOrder(u);
          if u == LAST_INITIAL {
            SpellingBraces(u, spelling);
            PrefixCons("}", spelling, rest);
          } else if u != LAST {
            PrefixCons("}", values(u), rest);
          }
      }
    }
  }

  lemma BeginsForLastInitial(run: string, u: Token)
    requires u in FIRST_THREE && run != [] && Lower(run) <= LAST_INITIAL && |run| < 3
    ensures Begins(run, Later(ORDER, u))
  {
    TokensDiffer();
    LaterByName();
    InOrder(u);
    BeginsToken(run, Later(ORDER, u), LAST_INITIAL);
  }

  /** An `l` after the brace. */
  lemma {:induction false} LetterAhead(p: string, values: Token -> string)
    requires |p| > 1 && p[0] == '{' && LowerChar(p[1]) == 'l' && TokenAt(p, ORDER) == None
    ensures "}" <= Lower(Flat(AfterThree(Segments(p[2..], ORDER), values))) ==>
              NameCompletable(Segments(p[2..], ORDER), [p[0], p[1]])
  {
    var segs := Segments(p[2..], ORDER);
    FlatSegments(p[2..], ORDER);
    SegmentsTokens(p[2..], ORDER);
    if segs != [] && "}" <= Lower(Flat(AfterThree(segs, values))) {
      AfterThreeFlat(segs, values);
      TokensDiffer();
      if segs[0].Ch? {
        PrefixCons("}", [segs[0].c], Flat(AfterThree(segs[1..], values)));
        NotALastInitial(p);
      } else {
        var u := segs[0].token;
        InOrder(u);
        if u == LAST_INITIAL {
          SpellingBraces(u, segs[0].spelling);
          PrefixCons("}", segs[0].spelling, Flat(AfterThree(segs[1..], values)));
        } else {
          BeginsForLastInitial([p[0], p[1]], u);
        }
      }
    }
  }

  lemma {:induction false} NotALastInitial(p: string)
    requires |p| > 1 && p[0] == '{' && LowerChar(p[1]) == 'l' && TokenAt(p, ORDER) == None
    ensures |p| > 2 ==> p[2] != '}'
  {
    if |p| > 2 && p[2] == '}' {
      assert Lower(p)[..3] == LAST_INITIAL;
      InOrder(LAST_INITIAL);
    }
  }

  /** A first initial after the brace. */
  lemma InitialAhead(rest: seq<Segment>, first: string, last: string)
    requires AllProper(rest) && OnlyTokens(rest, ORDER)
    ensures var values := ValueOf(first, last);
            "l}" <= Lower(values(FIRST_INITIAL) + Flat(AfterThree(rest, values))) ==>
              Closes(rest) || Reaches(rest, "l}")
  {
    var values, need := ValueOf(first, last), "l}";
    var after := Flat(AfterThree(rest, values));
    ValuesByName(first, last);
    if need <= Lower(values(FIRST_INITIAL) + after) {
      if Trim(first) == "" {
        assert [] + after == after;
        AheadIsReached(rest, need, values);
      } else {
        PrefixCons(need, values(FIRST_INITIAL), after);
        assert need[1..] == "}";
        AheadCloses(rest, values);
      }
    }
  }

  lemma LetterExtends(c: char)
    requires LowerChar(c) == 'l'
    ensures Extend("{", c, ORDER) == ['{', c]
  {
    var run := ['{', c];
    assert "{" + [c] == run && Lower(run) == ['{', 'l'] && Lower(run) <= LAST_INITIAL;
    InOrder(LAST_INITIAL);
    BeginsToken(run, ORDER, LAST_INITIAL);
  }

  lemma {:induction false} StrayBeforeCh(p: string, segs: seq<Segment>, values: Token -> string)
    requires p != [] && p[0] == '{' && TokenAt(p, ORDER) == None && segs == Segments(p[1..], ORDER)
    requires segs != [] && segs[0].Ch?
    ensures "l}" <= Lower(Flat(AfterThree(segs, values))) ==> NameCompletable(segs, "{")
  {
    var need, after := "l}", Flat(AfterThree(segs[1..], values));
    AfterThreeFlat(segs, values);
    assert segs[0].c == p[1] && segs[1..] == Segments(p[2..], ORDER) by {
      assert p[1..][1..] == p[2..];
    }
    if need <= Lower(Flat(AfterThree(segs, values))) {
      PrefixCons(need, [segs[0].c], after);
      assert need[1..] == "}";
      LetterAhead(p, values);
      LetterExtends(p[1]);
    }
  }

  lemma {:induction false} StrayBeforeName(segs: seq<Segment>, first: string, last: string)
    requires AllProper(segs) && OnlyTokens(segs, ORDER) && segs != []
    requires segs[0].Tok? && segs[0].token != LAST_INITIAL
    requires "l}" <= Lower(Flat(AfterThree(segs, ValueOf(first, last))))
    ensures NameCompletes(segs[0].token, "{", segs[1..])
  {
    AfterThreeFlat(segs, ValueOf(first, last));
    InOrder(segs[0].token);
    assert Lower("{") == "{" && Lower("{") <= LAST_INITIAL;
    BeginsForLastInitial("{", segs[0].token);
    InitialAhead(segs[1..], first, last);
  }

  lemma {:induction false} StrayBeforeTok(segs: seq<Segment>, first: string, last: string)
    requires AllProper(segs) && OnlyTokens(segs, ORDER) && segs != [] && segs[0].Tok?
    ensures "l}" <= Lower(Flat(AfterThree(segs, ValueOf(first, last)))) ==> NameCompletable(segs, "{")
  {
    var values := ValueOf(first, last);
    if "l}" <= Lower(Flat(AfterThree(segs, values))) {
      if segs[0].token == LAST_INITIAL {
        AfterThreeFlat(segs, values);
        SpellingBraces(segs[0].token, segs[0].spelling);
        PrefixCons("l}", segs[0].spelling, Flat(AfterThree(segs[1..], values)));
      } else {
        StrayBeforeName(segs, first, last);
      }
    }
  }

  /** Where a stray brace would start a last initial after the first three
      passes, names complete it. */
  lemma StrayBraceAhead(p: string, first: string, last: string)
    requires p != [] && p[0] == '{' && TokenAt(p, ORDER) == None
    ensures "l}" <= Lower(Flat(AfterThree(Segments(p[1..], ORDER), ValueOf(first, last)))) ==>
              NameCompletable(Segments(p[1..], ORDER), "{")
  {
    var segs := Segments(p[1..], ORDER);
    FlatSegments(p[1..], ORDER);
    SegmentsTokens(p[1..], ORDER);
    if segs == [] {
      assert Flat(AfterThree(segs, ValueOf(first, last))) == [];
    } else if segs[0].Ch? {
      StrayBeforeCh(p, segs, ValueOf(first, last));
    } else {
      StrayBeforeTok(segs, first, last);
    }
  }

  lemma SkipStrayBrace(rest: string, t: Token, value: string)
    requires !(t[1..] <= Lower(rest))
    ensures ReplaceCi("{" + rest, t, value) == "{" + ReplaceCi(rest, t, value)
  {
    var s := "{" + rest;
    assert s[1..] == rest && Lower(s)[1..] == Lower(rest);
    if t <= Lower(s) {
      PrefixTail(t, Lower(s));
    }
    SkipUnmatched(s, t, value);
  }

  /** The last pass fills the last initials and finds nothing else. */
  lemma {:induction false} LastPass(p: string, run: string, first: string, last: string)
    requires '{' !in first && '{' !in last && !NameCompletable(Segments(p, ORDER), run)
    ensures var values, segs := ValueOf(first, last), Segments(p, ORDER);
            ReplaceCi(Flat(AfterThree(segs, values)), LAST_INITIAL, values(LAST_INITIAL)) == FillAll(segs, values)
    decreases |p|
  {
    if p == [] {
    } else {
      var values, segs := ValueOf(first, last), Segments(p, ORDER);
      var n := if TokenAt(p, ORDER).Some? then |TokenAt(p, ORDER).value| else 1;
      var after, value := Flat(AfterThree(Segments(p[n..], ORDER), values)), values(LAST_INITIAL);
      assert segs[1..] == Segments(p[n..], ORDER);
      AfterThreeFlat(segs, values);
      match TokenAt(p, ORDER) {
        case Some(u) =>
          TokenHead(p, u);
          LastPass(p[n..], "", first, last);
          if u == LAST_INITIAL {
            FoundHere(u, p[..n], after, value);
          } else {
            ValuesBraceFree(first, last);
            SkipBraceFree(values(u), after, LAST_INITIAL, value);
          }
        case None =>
          LastPass(p[1..], Extend(run, p[0], ORDER), first, last);
          if p[0] == '{' {
            StrayBraceAhead(p, first, last);
            BraceBegins(ORDER);
            assert LAST_INITIAL[1..] == "l}";
            SkipStrayBrace(after, LAST_INITIAL, value);
          } else {
            SkipBraceFree([p[0]], after, LAST_INITIAL, value);
          }
      }
    }
  }

  lemma {:induction false} PassesSnoc(p: string, order: seq<Token>, t: Token, values: Token -> string)
    ensures Passes(p, order + [t], values) == ReplaceCi(Passes(p, order, values), t, values(t))
    decreases |order|
  {
    if order == [] {
      assert [] + [t] == [t] && [t][1..] == [];
    } else {
      assert (order + [t])[0] == order[0] && (order + [t])[1..] == order[1..] + [t];
      PassesSnoc(ReplaceCi(p, order[0], values(order[0])), order[1..], t, values);
    }
  }

  lemma ThreeAreSafe(p: string)
    requires !NameCompletable(Segments(p, ORDER), "")
    ensures !CompletableIn(p, FIRST_THREE)
  {
    if CompletableIn(p, FIRST_THREE) {
      CompletableAmongThree(p, "");
    }
  }

  lemma ThreePasses(p: string, first: string, last: string)
    requires '{' !in first && '{' !in last && !NameCompletable(Segments(p, ORDER), "")
    ensures Passes(p, FIRST_THREE, ValueOf(first, last)) == Flat(AfterThree(Segments(p, ORDER), ValueOf(first, last)))
  {
    ThreeAreSafe(p);
    ValuesBraceFree(first, last);
    PassesAreSimultaneous(p, FIRST_THREE, ValueOf(first, last));
    ThreeFilled(p, ValueOf(first, last));
  }

  lemma FourPasses(p: string, values: Token -> string)
    ensures Passes(p, ORDER, values) == ReplaceCi(Passes(p, FIRST_THREE, values), LAST_INITIAL, values(LAST_INITIAL))
  {
    assert ORDER == FIRST_THREE + [LAST_INITIAL];
    PassesSnoc(p, FIRST_THREE, LAST_INITIAL, values);
  }

  lemma UncompletableAgrees(p: string, first: string, last: string)
    requires '{' !in first && '{' !in last && !NameCompletable(Segments(p, ORDER), "")
    ensures Passes(p, ORDER, ValueOf(first, last)) == Simultaneous(p, ORDER, ValueOf(first, last))
  {
    ThreePasses(p, first, last);
    FourPasses(p, ValueOf(first, last));
    LastPass(p, "", first, last);
    FillSegments(p, ORDER, ValueOf(first, last));
  }

  /** For the agent's own passes and a person's names, the expansion is the
      simultaneous substitution whatever the names exactly when no names can
      complete a token. */
  lemma {:induction false} NamesExactly(p: string)
    ensures (forall first: string, last: string :: '{' !in first && '{' !in last ==> !Differ(p, first, last)) <==>
            !NameCompletable(Segments(p, ORDER), "")
  {
    if NameCompletable(Segments(p, ORDER), "") {
      var first, last := SomeNamesDiffer(p);
    } else {
      forall first: string, last: string | '{' !in first && '{' !in last ensures !Differ(p, first, last) {
        UncompletableAgrees(p, first, last);
      }
    }
  }

  // ----- The expansion itself ---------------------------------------------

  /** The expansion of these names meets nothing that lowercasing has moved. */
  predicate NamesInStep(lower: string -> string, p: string, first: string, last: string) {
    PassesInStep(lower, p, ORDER, ValueOf(first, last))
  }

  ghost predicate Expands(lower: string -> string, p: string, first: string, last: string) {
    ExpandText(lower, p, ORDER, ValueOf(first, last)) == Some(Simultaneous(p, ORDER, ValueOf(first, last)))
  }

  /** For every pattern: if no names can complete a token, the expansion of all
      names without an opening brace that stay in step does not panic and is the
      simultaneous substitution; and if some can, there are ASCII names for
      which it is not, unless the pattern throws even those out of step. */
  lemma ExpandExactly(lower: string -> string, p: string)
    requires KeepsTokens(lower, ORDER)
    ensures !NameCompletable(Segments(p, ORDER), "") ==>
              forall first: string, last: string ::
                '{' !in first && '{' !in last && NamesInStep(lower, p, first, last) ==> Expands(lower, p, first, last)
    ensures NameCompletable(Segments(p, ORDER), "") ==>
              exists first: string, last: string ::
                Usable(first, last) && (NamesInStep(lower, p, first, last) ==> !Expands(lower, p, first, last))
  {
    if NameCompletable(Segments(p, ORDER), "") {
      var first, last := SomeNamesDiffer(p);
      if NamesInStep(lower, p, first, last) {
        ExpandsInStep(lower, p, ORDER, ValueOf(first, last));
      }
      assert Usable(first, last) && (NamesInStep(lower, p, first, last) ==> !Expands(lower, p, first, last));
    } else {
      forall first: string, last: string | '{' !in first && '{' !in last && NamesInStep(lower, p, first, last)
        ensures Expands(lower, p, first, last)
      {
        ExpandsInStep(lower, p, ORDER, ValueOf(first, last));
        UncompletableAgrees(p, first, last);
      }
    }
  }

  /** Patterns and names whose lowercasing keeps offsets stay in step. */
  lemma SteadyNamesInStep(
    lower: string -> string, p: string, first: string, last: string, steady: char -> bool)
    requires Steady(lower, steady) && AllSteady(p, steady) && AllSteady(first, steady) && AllSteady(last, steady)
    ensures NamesInStep(lower, p, first, last) && KeepsTokens(lower, ORDER)
  {
    forall t: Token ensures AllSteady(ValueOf(first, last)(t), steady) {
      ValuesSteady(first, last, steady, t);
    }
    SteadyPasses(lower, p, ORDER, ValueOf(first, last), steady);
    forall i | 0 <= i < |ORDER| ensures lower(ORDER[i]) == ORDER[i] {
      assert AllSteady(ORDER[i], steady);
      assert lower(ORDER[i]) == Lower(ORDER[i]);
    }
  }

  /** In particular, for patterns of such characters: it is the simultaneous
      substitution, without a panic, for all names of such characters without an
      opening brace exactly when no names can complete a token. */
  lemma SteadyExpandExactly(lower: string -> string, p: string, steady: char -> bool)
    requires Steady(lower, steady) && AllSteady(p, steady)
    ensures (forall first: string, last: string ::
               AllSteady(first, steady) && AllSteady(last, steady) && '{' !in first && '{' !in last ==>
                 Expands(lower, p, first, last)) <==>
            !NameCompletable(Segments(p, ORDER), "")
  {
    forall first: string, last: string | AllSteady(first, steady) && AllSteady(last, steady)
      ensures NamesInStep(lower, p, first, last)
    {
      SteadyNamesInStep(lower, p, first, last, steady);
    }
    SteadyNamesInStep(lower, p, "", "", steady);
    ExpandExactly(lower, p);
  }
}
