/** Escaping free text for a directory search filter (section 3 of RFC 4515). */
module LdapFilter {
  import opened Text

  const SPECIAL := ['\\', '*', '(', ')', '/']

  /** What one special character is replaced by. */
  function Code(c: char): string {
    match c
    case '\\' => "\\5c"
    case '*' => "\\2a"
    case '(' => "\\28"
    case ')' => "\\29"
    case _ => "\\2f"
  }

  function ReplaceChar(s: string, c: char, code: string): string {
    if s == [] then [] else (if s[0] == c then code else [s[0]]) + ReplaceChar(s[1..], c, code)
  }

  /** One whole-text replacement per character, in the order given. */
  function Chain(s: string, order: seq<char>): string
    decreases |order|
  {
    if order == [] then s else Chain(ReplaceChar(s, order[0], Code(order[0])), order[1..])
  }

  /** The one-pass reference: each special character by its code. */
  function Escape(s: string): string {
    if s == [] then [] else (if s[0] in SPECIAL then Code(s[0]) else [s[0]]) + Escape(s[1..])
  }

  // ----- Chained replacement against the single pass ----------------------

  lemma {:induction false} ReplaceConcat(a: string, b: string, c: char, code: string)
    ensures ReplaceChar(a + b, c, code) == ReplaceChar(a, c, code) + ReplaceChar(b, c, code)
  {
    if a == [] {
      assert a + b == b;
    } else {
      assert (a + b)[1..] == a[1..] + b;
      ReplaceConcat(a[1..], b, c, code);
    }
  }

  lemma {:induction false} ChainConcat(a: string, b: string, order: seq<char>)
    ensures Chain(a + b, order) == Chain(a, order) + Chain(b, order)
    decreases |order|
  {
    if order == [] {
    } else {
      var c := order[0];
      ReplaceConcat(a, b, c, Code(c));
      ChainConcat(ReplaceChar(a, c, Code(c)), ReplaceChar(b, c, Code(c)), order[1..]);
    }
  }

  lemma {:induction false} ReplaceAbsent(s: string, c: char, code: string)
    requires c !in s
    ensures ReplaceChar(s, c, code) == s
  {
    if s == [] {
    } else {
      ReplaceAbsent(s[1..], c, code);
    }
  }

  lemma {:induction false} ChainAbsent(s: string, order: seq<char>)
    requires forall c :: c in order ==> c !in s
    ensures Chain(s, order) == s
    decreases |order|
  {
    if order == [] {
    } else {
      assert order[0] in order;
      ReplaceAbsent(s, order[0], Code(order[0]));
      ChainAbsent(s, order[1..]);
    }
  }

  /** Each special character exactly once. */
  predicate IsOrder(order: seq<char>) {
    && order != [] && (forall c :: c in order <==> c in SPECIAL)
    && forall i, j :: 0 <= i < j < |order| ==> order[i] != order[j]
  }

  lemma CodeShape(c: char)
    requires c in SPECIAL
    ensures |Code(c)| == 3 && Code(c)[0] == '\\'
    ensures forall d :: d in SPECIAL && d != '\\' ==> d !in Code(c)
    ensures '\\' !in Code(c)[1..]
  {
  }

  /** Replacements that skip the backslash turn one character into its code. */
  lemma {:induction false} ChainChar(c: char, order: seq<char>)
    requires c in order && '\\' !in order
    requires forall d :: d in order ==> d in SPECIAL
    requires forall i, j :: 0 <= i < j < |order| ==> order[i] != order[j]
    ensures Chain([c], order) == Code(c)
    decreases |order|
  {
    var d := order[0];
    if d == c {
      CodeShape(c);
      assert ReplaceChar([c], c, Code(c)) == Code(c);
      ChainAbsent(Code(c), order[1..]);
    } else {
      ReplaceAbsent([c], d, Code(d));
      ChainChar(c, order[1..]);
    }
  }

  lemma ChainEscapesChar(c: char, order: seq<char>)
    requires IsOrder(order) && order[0] == '\\'
    ensures Chain([c], order) == if c in SPECIAL then Code(c) else [c]
  {
    assert '\\' !in order[1..];
    if c !in SPECIAL {
      ChainAbsent([c], order);
    } else if c == '\\' {
      CodeShape(c);
      assert ReplaceChar([c], c, Code(c)) == Code(c);
      ChainAbsent(Code(c), order[1..]);
    } else {
      ReplaceAbsent([c], '\\', Code('\\'));
      ChainChar(c, order[1..]);
    }
  }

  lemma {:induction false} BackslashFirstEscapes(s: string, order: seq<char>)
    requires IsOrder(order) && order[0] == '\\'
    ensures Chain(s, order) == Escape(s)
  {
    if s == [] {
      ChainAbsent(s, order);
    } else {
      assert s == [s[0]] + s[1..];
      ChainConcat([s[0]], s[1..], order);
      ChainEscapesChar(s[0], order);
      BackslashFirstEscapes(s[1..], order);
    }
  }

  lemma {:induction false} ChainLengthens(s: string, order: seq<char>)
    requires forall d :: d in order ==> d in SPECIAL
    ensures |Chain(s, order)| >= |s|
    ensures '\\' in order && '\\' in s ==> |Chain(s, order)| > |s|
    decreases |order|
  {
    if order == [] {
    } else {
      ReplaceLengthens(s, order[0]);
      ChainLengthens(ReplaceChar(s, order[0], Code(order[0])), order[1..]);
    }
  }

  lemma {:induction false} ReplaceLengthens(s: string, c: char)
    requires c in SPECIAL
    ensures |ReplaceChar(s, c, Code(c))| >= |s|
    ensures c in s ==> |ReplaceChar(s, c, Code(c))| > |s|
    ensures '\\' in s && c != '\\' ==> '\\' in ReplaceChar(s, c, Code(c))
  {
    if s == [] {
    } else {
      CodeShape(c);
      ReplaceLengthens(s[1..], c);
    }
  }

  /** The chain is the single-pass escape for every text exactly when the
      backslash goes first; any other order escapes its own escapes. */
  lemma {:induction false} ChainIsEscapeExactly(order: seq<char>)
    requires IsOrder(order)
    ensures (forall s: string :: Chain(s, order) == Escape(s)) <==> order[0] == '\\'
  {
    if order[0] == '\\' {
      forall s: string ensures Chain(s, order) == Escape(s) {
        BackslashFirstEscapes(s, order);
      }
    } else {
      EscapesItsOwnEscape(order);
    }
  }

  /** The first character replaced is escaped to three, one of them a backslash
      that is replaced again later. */
  lemma EscapesItsOwnEscape(order: seq<char>)
    requires IsOrder(order) && order[0] != '\\'
    ensures Chain([order[0]], order) != Escape([order[0]])
  {
    var c := order[0];
    assert c in order && SPECIAL[0] in order;
    CodeShape(c);
    assert [c][1..] == [] && Code(c) + [] == Code(c);
    assert ReplaceChar([c], c, Code(c)) == Code(c);
    assert Escape([c]) == Code(c) + Escape([c][1..]);
    assert order == [c] + order[1..];
    ChainLengthens(Code(c), order[1..]);
  }

  method EscapeQuery(query: string) returns (escaped: string)
    ensures escaped == Escape(query)
  {
    escaped := query;
    for i := 0 to |SPECIAL|
      invariant Chain(escaped, SPECIAL[i..]) == Chain(query, SPECIAL)
    {
      assert SPECIAL[i..][1..] == SPECIAL[i + 1..];
      escaped := ReplaceChar(escaped, SPECIAL[i], Code(SPECIAL[i]));
    }
    BackslashFirstEscapes(query, SPECIAL);
  }

  // ----- What the escaped text is -----------------------------------------

  function HexOf(c: char): Option<int> {
    if '0' <= c <= '9' then Some(c as int - 48)
    else if 'a' <= c <= 'f' then Some(c as int - 87)
    else if 'A' <= c <= 'F' then Some(c as int - 55)
    else None
  }

  /** Reading a filter value: a backslash takes the two hex digits after it. */
  function Unescape(s: string): Option<string>
    decreases |s|
  {
    if s == [] then Some([])
    else if s[0] != '\\' then Cons(s[0], Unescape(s[1..]))
    else if |s| < 3 then None
    else match (HexOf(s[1]), HexOf(s[2]))
      case (Some(hi), Some(lo)) => Cons((hi * 16 + lo) as char, Unescape(s[3..]))
      case _ => None
  }

  function Cons(c: char, rest: Option<string>): Option<string> {
    if rest.Some? then Some([c] + rest.value) else None
  }

  /** Unescaping gives back the query, so in particular every backslash of the
      escaped text starts a two-digit escape. */
  lemma {:induction false} UnescapeEscape(q: string)
    ensures Unescape(Escape(q)) == Some(q)
  {
    if q == [] {
    } else {
      UnescapeEscape(q[1..]);
      UnescapeOne(q[0], Escape(q[1..]));
      assert q == [q[0]] + q[1..];
    }
  }

  lemma UnescapeOne(c: char, rest: string)
    ensures Unescape((if c in SPECIAL then Code(c) else [c]) + rest) == Cons(c, Unescape(rest))
  {
    if c in SPECIAL {
      assert (Code(c) + rest)[3..] == rest;
    } else {
      assert c != SPECIAL[0];
      assert ([c] + rest)[1..] == rest;
    }
  }

  lemma {:induction false} EscapeLeaves(q: string, c: char)
    ensures c in SPECIAL && c != '\\' ==> c !in Escape(q)
    ensures c as int == 0 ==> (c in Escape(q) <==> c in q)
  {
    if q == [] {
    } else {
      EscapeLeaves(q[1..], c);
      if q[0] in SPECIAL {
        CodeShape(q[0]);
      }
    }
  }

  /** A value as the standard writes it: none of NUL, `(`, `)`, `*` bare, and
      every backslash part of an escape. */
  predicate IsFilterValue(s: string) {
    0 as char !in s && '(' !in s && ')' !in s && '*' !in s && Unescape(s).Some?
  }

  /** The escaped query is a legal filter value exactly when it has no NUL,
      which the standard also wants escaped and the code passes through. */
  lemma {:induction false} EscapedIsFilterValue(q: string)
    ensures IsFilterValue(Escape(q)) <==> 0 as char !in q
  {
    UnescapeEscape(q);
    EscapeLeaves(q, '(');
    EscapeLeaves(q, ')');
    EscapeLeaves(q, '*');
    EscapeLeaves(q, 0 as char);
    assert SPECIAL[1] == '*' && SPECIAL[2] == '(' && SPECIAL[3] == ')';
  }

  /** What escaping touches: no asterisk, parenthesis or slash is left bare, and
      a query with none of them and no backslash stays as it is. */
  lemma {:induction false} EscapesExactly(q: string)
    ensures '*' !in Escape(q) && '(' !in Escape(q) && ')' !in Escape(q) && '/' !in Escape(q)
    ensures Escape(q) == q <==> '*' !in q && '(' !in q && ')' !in q && '/' !in q && '\\' !in q
  {
    EscapeLeaves(q, '*');
    EscapeLeaves(q, '(');
    EscapeLeaves(q, ')');
    EscapeLeaves(q, '/');
    assert SPECIAL[1] == '*' && SPECIAL[2] == '(' && SPECIAL[3] == ')' && SPECIAL[4] == '/';
    EscapeChanges(q);
  }

  lemma {:induction false} EscapeChanges(q: string)
    ensures |Escape(q)| >= |q|
    ensures Escape(q) == q <==> forall i :: 0 <= i < |q| ==> q[i] !in SPECIAL
  {
    if q == [] {
    } else {
      EscapeChanges(q[1..]);
      if q[0] in SPECIAL {
        CodeShape(q[0]);
      } else {
        assert Escape(q)[1..] == Escape(q[1..]);
      }
    }
  }
}
