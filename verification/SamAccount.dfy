/** `sAMAccountName`s: the validator, the sanitizer that makes a candidate, and
    the search for a free variant when an account is created. */
module SamAccount {
  import opened Text

  const FORBIDDEN := "\"/\\[]:;|" + "=,+*?<>@"

  predicate IsValidSam(name: string) {
    && name != [] && |name| <= 20
    && name[0] != ' ' && name[|name| - 1] != ' ' && name[|name| - 1] != '.'
    && (exists i :: 0 <= i < |name| && name[i] != '.' && name[i] != ' ')
    && forall i :: 0 <= i < |name| ==> !IsControl(name[i]) && name[i] !in FORBIDDEN
  }

  // ----- The sanitizer ----------------------------------------------------

  predicate Keeps(c: char) { IsAlphanumeric(c) || c == '.' || c == '_' || c == '-' }

  function Filter(s: string): (r: string)
    ensures forall i :: 0 <= i < |r| ==> Keeps(r[i]) && r[i] in s
  {
    if s == [] then [] else (if Keeps(s[0]) then [s[0]] else []) + Filter(s[1..])
  }

  function Take20(s: string): (r: string)
    ensures |r| <= 20 && r <= s
  {
    if |s| <= 20 then s else s[..20]
  }

  function TrimDotsStart(s: string): (r: string)
    ensures r != [] ==> r[0] != '.'
    ensures |r| <= |s| && r == s[|s| - |r|..]
  {
    if s != [] && s[0] == '.' then TrimDotsStart(s[1..]) else s
  }

  function TrimDotsEnd(s: string): (r: string)
    ensures r != [] ==> r[|r| - 1] != '.'
    ensures r <= s
  {
    if s != [] && s[|s| - 1] == '.' then TrimDotsEnd(s[..|s| - 1]) else s
  }

  function TrimDots(s: string): string { TrimDotsEnd(TrimDotsStart(s)) }

  /** What is assumed of full lowercasing: it is ASCII lowercasing on ASCII text
      and leaves no ASCII capital anywhere. */
  ghost predicate Lowercasing(lower: string -> string) {
    && (forall s: string :: AllAscii(s) ==> lower(s) == Lower(s))
    && forall s: string, i :: 0 <= i < |lower(s)| ==> !IsUpper(lower(s)[i])
  }

  function Sanitize(lower: string -> string, raw: string): string {
    TrimDots(Take20(Filter(lower(Trim(raw)))))
  }

  method SanitizeSamAccountName(lower: string -> string, raw: string) returns (out: string)
    ensures out == Sanitize(lower, raw)
  {
    ghost var all := Filter(lower(Trim(raw)));
    var s := Filter(lower(Trim(raw)));
    while |s| > 20
      invariant s <= all && (|s| == |all| || |s| >= 20)
    {
      s := s[..|s| - 1];
    }
    assert s == Take20(all);
    out := TrimDots(s);
  }

  /** Lower case letters, digits, `.`, `_` and `-`, at most 20, no dot at either end. */
  predicate Clean(s: string) {
    && |s| <= 20
    && (s != [] ==> s[0] != '.' && s[|s| - 1] != '.')
    && forall i :: 0 <= i < |s| ==> Keeps(s[i]) && !IsUpper(s[i])
  }

  lemma TrimDotsKeeps(s: string)
    ensures TrimDots(s) != [] ==> TrimDots(s)[0] != '.' && TrimDots(s)[|TrimDots(s)| - 1] != '.'
    ensures |TrimDots(s)| <= |s| && forall i :: 0 <= i < |TrimDots(s)| ==> TrimDots(s)[i] in s
  {
    var a := TrimDotsStart(s);
    var b := TrimDotsEnd(a);
    PrefixOfSuffix(s, |s| - |a|, b);
    assert b != [] ==> b[0] == a[0];
  }

  lemma PrefixOfSuffix(s: string, start: nat, t: string)
    requires start <= |s| && t <= s[start..]
    ensures forall i :: 0 <= i < |t| ==> t[i] in s
  {
    assert t == s[start..start + |t|];
    SliceMembers(s, start, t);
  }

  lemma SliceMembers(s: string, start: nat, t: string)
    requires start + |t| <= |s| && t == s[start..start + |t|]
    ensures forall i :: 0 <= i < |t| ==> t[i] in s
  {
  }

  lemma SanitizedIsClean(lower: string -> string, raw: string)
    requires Lowercasing(lower)
    ensures Clean(Sanitize(lower, raw))
  {
    var l := lower(Trim(raw));
    var f := Filter(l);
    forall i | 0 <= i < |f| ensures !IsUpper(f[i]) {
      var k :| 0 <= k < |l| && l[k] == f[i];
    }
    TrimDotsKeeps(Take20(f));
  }

  /** A sanitized name is empty or a valid account name. */
  lemma CleanIsValid(s: string)
    requires Clean(s) && s != []
    ensures IsValidSam(s)
  {
    assert s[0] != '.' && s[0] != ' ';
    forall i | 0 <= i < |s| ensures s[i] !in FORBIDDEN {
      assert Keeps(s[i]);
    }
  }

  /** A name with a control character or one of these is refused wherever it is. */
  lemma ForbiddenIsRefused(a: string, c: char, b: string)
    requires IsControl(c) || c in "\"/\\[]:;|" || c in "=,+*?<>@"
    ensures !IsValidSam(a + [c] + b)
  {
    assert (a + [c] + b)[|a|] == c;
  }

  /** Around any character, that one stays exactly if it is a letter, a digit, a
      dot, an underscore or a hyphen, and the rest is filtered for itself. */
  lemma FilterExactly(a: string, c: char, b: string)
    ensures Filter(a + [c] + b) == Filter(a) + (if IsAlphanumeric(c) || c in "._-" then [c] else []) + Filter(b)
  {
    FilterConcat(a + [c], b);
    FilterConcat(a, [c]);
    assert [c][1..] == [];
    assert Filter([c]) == if Keeps(c) then [c] else [];
  }

  lemma {:induction false} FilterConcat(a: string, b: string)
    ensures Filter(a + b) == Filter(a) + Filter(b)
  {
    if a == [] {
      assert a + b == b;
    } else {
      FilterConcat(a[1..], b);
      assert (a + b)[1..] == a[1..] + b;
      Reassociate(if Keeps(a[0]) then [a[0]] else [], Filter(a[1..]), Filter(b));
    }
  }

  lemma {:induction false} FilterFixed(s: string)
    requires forall i :: 0 <= i < |s| ==> Keeps(s[i])
    ensures Filter(s) == s
  {
    if s == [] {
    } else {
      FilterFixed(s[1..]);
    }
  }

  lemma CleanChars(s: string)
    requires Clean(s)
    ensures AllAscii(s) && Trimmed(s) && Lower(s) == s
  {
    assert forall i :: 0 <= i < |s| ==> IsAscii(s[i]) && !IsWhitespace(s[i]) && LowerChar(s[i]) == s[i];
    assert forall i :: 0 <= i < |s| ==> Lower(s)[i] == s[i];
  }

  lemma CleanIsFixed(lower: string -> string, s: string)
    requires Lowercasing(lower) && Clean(s)
    ensures Sanitize(lower, s) == s
  {
    CleanChars(s);
    TrimFixed(s);
    assert lower(s) == s;
    FilterFixed(s);
    assert TrimDotsStart(s) == s && TrimDotsEnd(s) == s;
  }

  /** Sanitizing is idempotent and yields an empty or a valid account name,
      whatever the input and however non-ASCII letters lowercase. */
  lemma SanitizeIsIdempotent(lower: string -> string, raw: string)
    requires Lowercasing(lower)
    ensures Sanitize(lower, Sanitize(lower, raw)) == Sanitize(lower, raw)
    ensures Sanitize(lower, raw) == [] || IsValidSam(Sanitize(lower, raw))
  {
    SanitizedIsClean(lower, raw);
    CleanIsFixed(lower, Sanitize(lower, raw));
    if Sanitize(lower, raw) != [] {
      CleanIsValid(Sanitize(lower, raw));
    }
  }

  // ----- Finding a free name ----------------------------------------------

  /** The names tried, in order: the base, then the base with 2, 3, and so on,
      cut to 20 characters. */
  function Candidate(base: string, n: nat): string {
    if n <= 1 then base else Take20(base + Decimal(n))
  }

  /** The search loop of account creation, with the number of lookups made. */
  method FindFreeName(base: string, taken: string -> bool) returns (found: Option<string>, lookups: nat)
    requires Clean(base) && base != []
    ensures lookups <= 50
    ensures found.Some? ==>
              && !taken(found.value) && IsValidSam(found.value) && |found.value| <= 20
              && 1 <= lookups && found.value == Candidate(base, lookups)
              && forall k :: 1 <= k < lookups ==> taken(Candidate(base, k))
    ensures found.None? <==> forall k :: 1 <= k <= 50 ==> taken(Candidate(base, k))
  {
    var sam, n := base, 1;
    lookups := 0;
    while true
      invariant 1 <= n <= 50 && lookups == n - 1 && sam == Candidate(base, n)
      invariant forall k :: 1 <= k < n ==> taken(Candidate(base, k))
      decreases 50 - n
    {
      lookups := lookups + 1;
      if !taken(sam) {
        CandidateIsValid(base, n);
        return Some(sam), lookups;
      }
      n := n + 1;
      var cand := base + Decimal(n);
      if |cand| > 20 {
        cand := cand[..20];
      }
      sam := cand;
      if n > 50 {
        return None, lookups;
      }
    }
  }

  lemma CandidateIsValid(base: string, n: nat)
    requires Clean(base) && base != []
    ensures Clean(Candidate(base, n)) && IsValidSam(Candidate(base, n))
  {
    var c := Candidate(base, n);
    if n > 1 {
      var d := base + Decimal(n);
      assert forall i :: 0 <= i < |d| ==> Keeps(d[i]) && !IsUpper(d[i]);
      assert c[0] == base[0];
      assert |base| < |c| ==> IsDigit(c[|c| - 1]);
    }
    CleanIsValid(c);
  }

  /** A base that already fills the limit has no other variant to try. */
  lemma FullBaseHasOneCandidate(base: string, n: nat)
    requires |base| == 20
    ensures Candidate(base, n) == base
  {
    assert (base + Decimal(n))[..20] == base;
  }

  lemma ShortBaseCandidatesDiffer(base: string, m: nat, n: nat)
    requires |base| <= 18 && 1 <= m < n <= 50
    ensures Candidate(base, m) != Candidate(base, n)
  {
    DecimalShort(m);
    DecimalShort(n);
    assert Candidate(base, n) == base + Decimal(n);
    if m > 1 && Candidate(base, m) == Candidate(base, n) {
      assert (base + Decimal(m))[|base|..] == Decimal(m);
      assert (base + Decimal(n))[|base|..] == Decimal(n);
      DecimalInjective(m, n);
    }
  }

  /** With 19 characters only the first digit fits. */
  lemma NineteenCandidate(base: string, n: nat)
    requires |base| == 19 && 2 <= n <= 50
    ensures Candidate(base, n) == base + [Decimal(n)[0]] && IsDigit(Decimal(n)[0]) && Decimal(n)[0] != '0'
  {
    DecimalStart(n);
    assert (base + Decimal(n))[..20] == base + [Decimal(n)[0]];
  }

  lemma DecimalStart(n: nat)
    requires 1 <= n < 100
    ensures Decimal(n)[0] == ((if n < 10 then n else n / 10) + 48) as char
  {
    if n >= 10 {
      assert Decimal(n / 10) == [(n / 10 + 48) as char];
    }
  }

  /** All 50 candidates are different. */
  ghost predicate CandidatesDiffer(base: string) {
    forall m: nat, n: nat :: 1 <= m < n <= 50 ==> Candidate(base, m) != Candidate(base, n)
  }

  /** The 50 candidates are different, so that the search gives up only when 50
      accounts are in the way, exactly for bases of at most 18 characters. */
  lemma CandidatesDifferExactly(base: string)
    requires |base| <= 20
    ensures CandidatesDiffer(base) <==> |base| <= 18
  {
    if |base| <= 18 {
      forall m: nat, n: nat | 1 <= m < n <= 50 ensures Candidate(base, m) != Candidate(base, n) {
        ShortBaseCandidatesDiffer(base, m, n);
      }
    } else if |base| == 19 {
      NineteenCandidate(base, 2);
      NineteenCandidate(base, 20);
      DecimalStart(2);
      DecimalStart(20);
      assert Candidate(base, 2) == Candidate(base, 20);
    } else {
      FullBaseHasOneCandidate(base, 1);
      FullBaseHasOneCandidate(base, 2);
      assert Candidate(base, 1) == Candidate(base, 2);
    }
  }

  /** A base of 19 characters has ten candidates: itself, and itself with one of
      the digits 1 to 9. The search fails exactly when all of these are taken. */
  lemma NineteenFailsExactly(base: string, taken: string -> bool)
    requires |base| == 19
    ensures (forall k :: 1 <= k <= 50 ==> taken(Candidate(base, k))) <==>
            taken(base) && forall d :: '1' <= d <= '9' ==> taken(base + [d])
  {
    if taken(base) && forall d :: '1' <= d <= '9' ==> taken(base + [d]) {
      forall k | 1 <= k <= 50 ensures taken(Candidate(base, k)) {
        if k > 1 {
          NineteenCandidate(base, k);
        }
      }
    }
    if forall k :: 1 <= k <= 50 ==> taken(Candidate(base, k)) {
      assert taken(Candidate(base, 1));
      forall d | '1' <= d <= '9' ensures taken(base + [d]) {
        var n := d as int - 48;
        var k := if n == 1 then 10 else n;
        DecimalStart(k);
        NineteenCandidate(base, k);
        assert taken(Candidate(base, k));
      }
    }
  }

  /** A base of 20 characters has one candidate: the search fails exactly when
      it is taken. */
  lemma FullBaseFailsExactly(base: string, taken: string -> bool)
    requires |base| == 20
    ensures (forall k :: 1 <= k <= 50 ==> taken(Candidate(base, k))) <==> taken(base)
  {
    forall k: nat ensures Candidate(base, k) == base {
      FullBaseHasOneCandidate(base, k);
    }
    assert Candidate(base, 1) == base;
  }

  lemma DecimalShort(n: nat)
    requires n < 100
    ensures |Decimal(n)| <= 2
  {
    if n >= 10 {
      assert |Decimal(n / 10)| == 1;
    }
  }
}
