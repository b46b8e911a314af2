/** Strings as the agent handles them: sequences of Unicode scalar values, with
    the standard library operations its parsers and validators are built from
    (`trim`, `lines`, `split_once`, `split_whitespace`, `join`). */
module Text {

  datatype Option<+T> = None | Some(value: T)

  /** The step of a loop that appends `piece` to what it has built so far. */
  lemma Reassociate<T>(done: seq<T>, piece: seq<T>, rest: seq<T>)
    ensures done + (piece + rest) == (done + piece) + rest
  {
  }

  // ----- Character classes ------------------------------------------------

  /** The Unicode White_Space property. */
  predicate IsWhitespace(c: char) {
    var v := c as int;
    || 9 <= v <= 13 || v == 32 || v == 0x85 || v == 0xA0 || v == 0x1680
    || 0x2000 <= v <= 0x200A || v == 0x2028 || v == 0x2029 || v == 0x202F
    || v == 0x205F || v == 0x3000
  }

  /** The Unicode general category Cc. */
  predicate IsControl(c: char) {
    var v := c as int;
    v < 32 || 127 <= v < 160
  }

  predicate IsLower(c: char) { 'a' <= c <= 'z' }

  predicate IsUpper(c: char) { 'A' <= c <= 'Z' }

  predicate IsDigit(c: char) { '0' <= c <= '9' }

  predicate IsAlphanumeric(c: char) { IsLower(c) || IsUpper(c) || IsDigit(c) }

  predicate IsAscii(c: char) { (c as int) < 128 }

  predicate AllAscii(s: string) { forall i :: 0 <= i < |s| ==> IsAscii(s[i]) }

  predicate NoControl(s: string) { forall i :: 0 <= i < |s| ==> !IsControl(s[i]) }

  predicate Blank(s: string) { forall i :: 0 <= i < |s| ==> IsWhitespace(s[i]) }

  function LowerChar(c: char): char {
    if IsUpper(c) then (c as int + 32) as char else c
  }

  /** `to_ascii_lowercase`, also what `to_lowercase` does to ASCII text. */
  function Lower(s: string): (r: string)
    ensures |r| == |s|
    ensures forall i :: 0 <= i < |s| ==> r[i] == LowerChar(s[i])
  {
    seq(|s|, i requires 0 <= i < |s| => LowerChar(s[i]))
  }

  /** The k-th capital becomes the k-th small letter; nothing else changes. */
  lemma LowerExactly(k: nat, c: char)
    requires k < 26
    ensures LowerChar('A' + k as char) == 'a' + k as char
    ensures !('A' <= c <= 'Z') ==> LowerChar(c) == c
  {
  }

  /** The code points of the two classes, one by one. */
  lemma ClassesExactly(c: char)
    ensures IsWhitespace(c) <==>
            c as int in {0x09, 0x0A, 0x0B, 0x0C, 0x0D, 0x20, 0x85, 0xA0, 0x1680, 0x2000, 0x2001, 0x2002, 0x2003,
                         0x2004, 0x2005, 0x2006, 0x2007, 0x2008, 0x2009, 0x200A, 0x2028, 0x2029, 0x202F, 0x205F, 0x3000}
    ensures IsControl(c) <==> c < ' ' || 0x7F as char <= c <= 0x9F as char
  {
  }

  // ----- Searching --------------------------------------------------------

  /** The first position of `c`, or the length when there is none. */
  function IndexOf(s: string, c: char): (i: nat)
    ensures i <= |s|
    ensures i < |s| ==> s[i] == c
    ensures c !in s[..i]
    ensures i == |s| <==> c !in s
  {
    if s == [] then 0 else if s[0] == c then 0 else
      var i := 1 + IndexOf(s[1..], c);
      assert s[..i] == [s[0]] + s[1..][..i - 1];
      assert s == [s[0]] + s[1..];
      i
  }

  lemma {:induction false} IndexOfAppend(a: string, c: char, b: string)
    requires c !in a
    ensures IndexOf(a + [c] + b, c) == |a|
  {
    if a == [] {
    } else {
      assert (a + [c] + b)[1..] == a[1..] + [c] + b;
      IndexOfAppend(a[1..], c, b);
    }
  }

  function SplitOnce(s: string, c: char): (r: Option<(string, string)>)
    ensures r.None? <==> c !in s
    ensures r.Some? ==> s == r.value.0 + [c] + r.value.1 && c !in r.value.0
  {
    var i := IndexOf(s, c);
    if i == |s| then None else Some((s[..i], s[i + 1..]))
  }

  lemma SplitOnceAt(a: string, c: char, b: string)
    requires c !in a
    ensures SplitOnce(a + [c] + b, c) == Some((a, b))
  {
    IndexOfAppend(a, c, b);
    assert (a + [c] + b)[..|a|] == a;
    assert (a + [c] + b)[|a| + 1..] == b;
  }

  function StripPrefix(s: string, p: string): (r: Option<string>)
    ensures r.Some? <==> p <= s
    ensures r.Some? ==> s == p + r.value
  {
    if p <= s then Some(s[|p|..]) else None
  }

  // ----- Trimming ---------------------------------------------------------

  function TrimStart(s: string): string {
    if s != [] && IsWhitespace(s[0]) then TrimStart(s[1..]) else s
  }

  function TrimEnd(s: string): string {
    if s != [] && IsWhitespace(s[|s| - 1]) then TrimEnd(s[..|s| - 1]) else s
  }

  function Trim(s: string): string { TrimEnd(TrimStart(s)) }

  predicate Trimmed(s: string) {
    s != [] ==> !IsWhitespace(s[0]) && !IsWhitespace(s[|s| - 1])
  }

  lemma {:induction false} TrimStartPad(a: string, s: string)
    requires Blank(a)
    ensures TrimStart(a + s) == TrimStart(s)
  {
    if a == [] {
      assert a + s == s;
    } else {
      assert (a + s)[1..] == a[1..] + s;
      TrimStartPad(a[1..], s);
    }
  }

  lemma {:induction false} TrimEndPad(s: string, b: string)
    requires Blank(b)
    ensures TrimEnd(s + b) == TrimEnd(s)
  {
    if b == [] {
      assert s + b == s;
    } else {
      assert (s + b)[..|s + b| - 1] == s + b[..|b| - 1];
      TrimEndPad(s, b[..|b| - 1]);
    }
  }

  /** Blanks around a trimmed text are exactly what `Trim` removes. */
  lemma TrimPad(a: string, s: string, b: string)
    requires Blank(a) && Blank(b) && Trimmed(s)
    ensures Trim(a + s + b) == s
  {
    assert a + s + b == a + (s + b);
    TrimStartPad(a, s + b);
    if s == [] {
      assert s + b == b + [];
      TrimStartPad(b, []);
    } else {
      TrimEndPad(s, b);
    }
  }

  lemma {:induction false} TrimStartParts(s: string) returns (a: string)
    ensures Blank(a) && s == a + TrimStart(s)
    ensures TrimStart(s) != [] ==> !IsWhitespace(TrimStart(s)[0])
  {
    if s != [] && IsWhitespace(s[0]) {
      var a' := TrimStartParts(s[1..]);
      a := [s[0]] + a';
    } else {
      a := [];
    }
  }

  lemma {:induction false} TrimEndParts(s: string) returns (b: string)
    ensures Blank(b) && s == TrimEnd(s) + b
    ensures TrimEnd(s) != [] ==> !IsWhitespace(TrimEnd(s)[|TrimEnd(s)| - 1])
  {
    if s != [] && IsWhitespace(s[|s| - 1]) {
      var b' := TrimEndParts(s[..|s| - 1]);
      b := b' + [s[|s| - 1]];
    } else {
      b := [];
    }
  }

  /** A text is its trimmed form between two blanks. */
  lemma TrimParts(s: string) returns (a: string, b: string)
    ensures Blank(a) && Blank(b) && Trimmed(Trim(s)) && s == a + Trim(s) + b
  {
    a := TrimStartParts(s);
    b := TrimEndParts(TrimStart(s));
  }

  lemma TrimContent(s: string, c: char)
    ensures c !in s ==> c !in Trim(s)
    ensures c in s && !IsWhitespace(c) ==> c in Trim(s)
  {
    var a, b := TrimParts(s);
  }

  lemma TrimFixed(s: string)
    requires Trimmed(s)
    ensures Trim(s) == s
  {
    TrimPad([], s, []);
    assert [] + s + [] == s;
  }

  lemma TrimSurround(a: string, s: string, b: string)
    requires Blank(a) && Blank(b)
    ensures Trim(a + s + b) == Trim(s)
  {
    var x, y := TrimParts(s);
    assert a + s + b == (a + x) + Trim(s) + (y + b);
    TrimPad(a + x, Trim(s), y + b);
  }

  lemma TrimLeft(a: string, s: string)
    requires Blank(a)
    ensures Trim(a + s) == Trim(s)
  {
    TrimSurround(a, s, []);
    assert a + s + [] == a + s;
  }

  lemma TrimRight(s: string, b: string)
    requires Blank(b)
    ensures Trim(s + b) == Trim(s)
  {
    TrimSurround([], s, b);
    assert [] + s + b == s + b;
  }

  /** Nothing is left exactly of blank text. */
  lemma TrimEmptyExactly(s: string)
    ensures Trim(s) == [] <==> Blank(s)
  {
    var _, _ := TrimParts(s);
    if Blank(s) {
      TrimLeft(s, "");
      assert s + "" == s;
    }
  }

  lemma BlankLacks(a: string, c: char)
    requires Blank(a) && !IsWhitespace(c)
    ensures c !in a
  {
  }

  lemma TrimFirst(s: string)
    requires s != [] && !IsWhitespace(s[0])
    ensures Trim(s) != [] && Trim(s)[0] == s[0]
  {
    var a, b := TrimParts(s);
  }

  // ----- Lines ------------------------------------------------------------

  function StripCr(s: string): string {
    if s != [] && s[|s| - 1] == '\r' then s[..|s| - 1] else s
  }

  /** `str::lines`: split after each newline, drop the newline and one carriage
      return before it; text after the last newline counts when non-empty. */
  function Lines(t: string): (r: seq<string>)
    ensures forall i :: 0 <= i < |r| ==> '\n' !in r[i]
    decreases |t|
  {
    if t == [] then [] else
      var i := IndexOf(t, '\n');
      if i == |t| then [t] else [StripCr(t[..i])] + Lines(t[i + 1..])
  }

  lemma LinesCons(l: string, rest: string)
    requires '\n' !in l
    ensures Lines(l + "\n" + rest) == [StripCr(l)] + Lines(rest)
  {
    var t := l + "\n" + rest;
    IndexOfAppend(l, '\n', rest);
    assert t[..|l|] == l;
    assert t[|l| + 1..] == rest;
  }

  lemma TrimStripCr(l: string)
    ensures Trim(StripCr(l)) == Trim(l)
  {
    if l != [] && l[|l| - 1] == '\r' {
      assert l == StripCr(l) + "\r";
      TrimRight(StripCr(l), "\r");
    }
  }

  // ----- Words ------------------------------------------------------------

  predicate IsWord(w: string) {
    w != [] && forall i :: 0 <= i < |w| ==> !IsWhitespace(w[i])
  }

  lemma WordConcat(a: string, b: string)
    requires IsWord(a) && IsWord(b)
    ensures IsWord(a + b) && (a + b)[0] == a[0]
  {
  }

  predicate AllWords(ws: seq<string>) { forall i :: 0 <= i < |ws| ==> IsWord(ws[i]) }

  /** Length of the leading run of non-blank characters. */
  function WordEnd(s: string): (n: nat)
    ensures n <= |s|
    ensures forall i :: 0 <= i < n ==> !IsWhitespace(s[i])
    ensures n < |s| ==> IsWhitespace(s[n])
  {
    if s == [] || IsWhitespace(s[0]) then 0 else 1 + WordEnd(s[1..])
  }

  /** `split_whitespace`. */
  function Tokens(s: string): (r: seq<string>)
    ensures AllWords(r)
    decreases |s|
  {
    if s == [] then [] else
    if IsWhitespace(s[0]) then Tokens(s[1..]) else
      [s[..WordEnd(s)]] + Tokens(s[WordEnd(s)..])
  }

  function Join(parts: seq<string>, sep: string): string {
    if |parts| == 0 then [] else
    if |parts| == 1 then parts[0] else
      parts[0] + sep + Join(parts[1..], sep)
  }

  lemma TokensOfWord(w: string)
    requires IsWord(w)
    ensures Tokens(w) == [w]
  {
    assert WordEnd(w) == |w|;
    assert w[..|w|] == w && w[|w|..] == [];
  }

  lemma {:induction false} WordEndAppend(w: string, s: string)
    requires IsWord(w)
    requires s != [] ==> IsWhitespace(s[0])
    ensures WordEnd(w + s) == |w|
  {
    if |w| == 1 {
      assert (w + s)[1..] == s;
    } else {
      assert (w + s)[1..] == w[1..] + s;
      WordEndAppend(w[1..], s);
    }
  }

  lemma {:induction false} TokensWordFirst(w: string, s: string)
    requires IsWord(w)
    requires s != [] ==> IsWhitespace(s[0])
    ensures Tokens(w + s) == [w] + Tokens(s)
  {
    WordEndAppend(w, s);
    assert (w + s)[0] == w[0];
    assert (w + s)[..|w|] == w && (w + s)[|w|..] == s;
  }

  /** A blank splits the word list exactly in two. */
  lemma {:induction false} TokensSplit(a: string, c: char, b: string)
    requires IsWhitespace(c)
    ensures Tokens(a + [c] + b) == Tokens(a) + Tokens(b)
    decreases |a|
  {
    var t := a + [c] + b;
    if a == [] {
      assert t[1..] == b;
    } else if IsWhitespace(a[0]) {
      assert t[1..] == a[1..] + [c] + b;
      TokensSplit(a[1..], c, b);
    } else {
      TokensSplit(a[WordEnd(a)..], c, b);
      TokensSplitWord(a, c, b);
    }
  }

  lemma {:induction false} TokensSplitWord(a: string, c: char, b: string)
    requires IsWhitespace(c) && a != [] && !IsWhitespace(a[0])
    requires Tokens(a[WordEnd(a)..] + [c] + b) == Tokens(a[WordEnd(a)..]) + Tokens(b)
    ensures Tokens(a + [c] + b) == Tokens(a) + Tokens(b)
  {
    var n := WordEnd(a);
    var word, rest := a[..n], a[n..];
    assert a + [c] + b == word + (rest + [c] + b);
    TokensWordFirst(word, rest + [c] + b);
    assert Tokens(a) == [word] + Tokens(rest);
    Reassociate([word], Tokens(rest), Tokens(b));
  }

  lemma {:induction false} TokensBlankStart(a: string, s: string)
    requires Blank(a)
    ensures Tokens(a + s) == Tokens(s)
  {
    if a == [] {
      assert a + s == s;
    } else {
      assert (a + s)[1..] == a[1..] + s;
      TokensBlankStart(a[1..], s);
    }
  }

  lemma TokensTrim(s: string)
    ensures Tokens(Trim(s)) == Tokens(s)
  {
    var a, b := TrimParts(s);
    assert s == a + (Trim(s) + b);
    TokensBlankStart(a, Trim(s) + b);
    TokensBlankEnd(Trim(s), b);
  }

  lemma TokensBlankEnd(s: string, b: string)
    requires Blank(b)
    ensures Tokens(s + b) == Tokens(s)
  {
    if b == [] {
      assert s + b == s;
    } else {
      assert s + b == s + [b[0]] + b[1..];
      TokensSplit(s, b[0], b[1..]);
      TokensBlankStart(b[1..], []);
      assert b[1..] + [] == b[1..] && Tokens(s) + [] == Tokens(s);
    }
  }

  /** Words joined by single spaces split back into the same words. */
  lemma {:induction false} TokensJoin(ws: seq<string>)
    requires AllWords(ws)
    ensures Tokens(Join(ws, " ")) == ws
  {
    if |ws| == 1 {
      TokensOfWord(ws[0]);
    } else if |ws| > 1 {
      TokensSplit(ws[0], ' ', Join(ws[1..], " "));
      TokensOfWord(ws[0]);
      TokensJoin(ws[1..]);
    }
  }

  lemma TokensStart(s: string)
    ensures Tokens(s) == [] <==> Trim(s) == []
    ensures Tokens(s) != [] ==> Tokens(s)[0][0] == Trim(s)[0]
  {
    var a, b := TrimParts(s);
    TokensTrim(s);
  }

  /** Whitespace runs collapsed to one space, none at the ends. */
  function Collapse(s: string): string { Join(Tokens(s), " ") }

  lemma {:induction false} JoinNoNewline(ws: seq<string>)
    requires AllWords(ws)
    ensures '\n' !in Join(ws, " ")
  {
    if |ws| > 1 {
      JoinNoNewline(ws[1..]);
    }
  }

  // ----- Numbers ----------------------------------------------------------

  function Decimal(n: nat): (r: string)
    ensures r != [] && forall i :: 0 <= i < |r| ==> IsDigit(r[i])
  {
    (if n < 10 then [] else Decimal(n / 10)) + [(48 + n % 10) as char]
  }

  lemma {:induction false} DecimalInjective(m: nat, n: nat)
    requires Decimal(m) == Decimal(n)
    ensures m == n
  {
    var a, b := Decimal(m), Decimal(n);
    assert a[|a| - 1] == b[|b| - 1];
    assert m % 10 == n % 10;
    if m >= 10 && n >= 10 {
      assert Decimal(m / 10) == a[..|a| - 1] && Decimal(n / 10) == b[..|b| - 1];
      DecimalInjective(m / 10, n / 10);
    }
  }
}
