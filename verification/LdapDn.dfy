/** Distinguished names: splitting on unescaped commas, and the validator built
    on it (escaping as in section 2.4 of RFC 4514). */
module LdapDn {
  import opened Text
  import opened Utf8

  // ----- Splitting --------------------------------------------------------

  function Prepend(c: char, parts: seq<string>): (r: seq<string>)
    requires parts != []
    ensures |r| == |parts|
  {
    [[c] + parts[0]] + parts[1..]
  }

  /** The RDNs of `s`, read with the previous character an escape or not. */
  function SplitFrom(s: string, escaped: bool): (r: seq<string>)
    ensures r != []
  {
    if s == [] then [[]]
    else if escaped then Prepend(s[0], SplitFrom(s[1..], false))
    else if s[0] == ',' then [[]] + SplitFrom(s[1..], false)
    else Prepend(s[0], SplitFrom(s[1..], s[0] == '\\'))
  }

  /** Whether reading `s` ends just after an escape. */
  predicate Dangles(s: string, escaped: bool) {
    if s == [] then escaped else Dangles(s[1..], !escaped && s[0] == '\\')
  }

  /** No comma in `s` is unescaped. */
  predicate NoBareComma(s: string, escaped: bool) {
    s == [] || ((escaped || s[0] != ',') && NoBareComma(s[1..], !escaped && s[0] == '\\'))
  }

  function SplitDn(dn: string): seq<string> { SplitFrom(dn, false) }

  /** The loop's view: finished RDNs, the one being read, and what is left. */
  function Resume(rdns: seq<string>, current: string, rest: seq<string>): seq<string>
    requires rest != []
  {
    rdns + [current + rest[0]] + rest[1..]
  }

  method ComputeSplitDn(dn: string) returns (rdns: seq<string>, dangling: bool)
    ensures rdns == SplitDn(dn) && dangling == Dangles(dn, false)
  {
    rdns := [];
    var current: string, escaped := [], false;
    assert dn[0..] == dn;
    ResumeStart(SplitDn(dn));
    for i := 0 to |dn|
      invariant Resume(rdns, current, SplitFrom(dn[i..], escaped)) == SplitDn(dn)
      invariant Dangles(dn[i..], escaped) == Dangles(dn, false)
    {
      var c := dn[i];
      assert dn[i..][0] == c && dn[i..][1..] == dn[i + 1..];
      if escaped {
        current := current + [c];
        escaped := false;
        ResumeChar(rdns, current, c, SplitFrom(dn[i + 1..], escaped));
      } else if c == '\\' {
        current := current + [c];
        escaped := true;
        ResumeChar(rdns, current, c, SplitFrom(dn[i + 1..], escaped));
      } else if c == ',' {
        ResumeComma(rdns, current, SplitFrom(dn[i + 1..], escaped));
        rdns := rdns + [current];
        current := [];
      } else {
        current := current + [c];
        ResumeChar(rdns, current, c, SplitFrom(dn[i + 1..], escaped));
      }
    }
    dangling := escaped;
    assert current + [] == current;
    rdns := rdns + [current];
  }

  lemma ResumeStart(rest: seq<string>)
    requires rest != []
    ensures Resume([], [], rest) == rest
  {
    assert [] + rest[0] == rest[0];
  }

  lemma ResumeChar(rdns: seq<string>, current: string, c: char, rest: seq<string>)
    requires rest != [] && current != [] && current[|current| - 1] == c
    ensures Resume(rdns, current, rest) == Resume(rdns, current[..|current| - 1], Prepend(c, rest))
  {
    assert current[..|current| - 1] + ([c] + rest[0]) == current + rest[0];
  }

  lemma ResumeComma(rdns: seq<string>, current: string, rest: seq<string>)
    requires rest != []
    ensures Resume(rdns, current, [[]] + rest) == Resume(rdns + [current], [], rest)
  {
    assert current + [] == current && [] + rest[0] == rest[0];
    assert [rest[0]] + rest[1..] == rest;
  }

  // ----- The split is exact -----------------------------------------------

  /** Rejoining the RDNs with commas gives the input. */
  lemma {:induction false} JoinSplit(s: string, escaped: bool)
    ensures Join(SplitFrom(s, escaped), ",") == s
  {
    if s == [] {
    } else {
      if !escaped && s[0] == ',' {
        JoinSplit(s[1..], false);
        JoinCons([], SplitFrom(s[1..], false));
      } else {
        var e := !escaped && s[0] == '\\';
        JoinSplit(s[1..], e);
        JoinPrepend(s[0], SplitFrom(s[1..], e));
      }
    }
  }

  lemma JoinCons(p: string, parts: seq<string>)
    requires parts != []
    ensures Join([p] + parts, ",") == p + "," + Join(parts, ",")
  {
    assert ([p] + parts)[1..] == parts;
  }

  lemma JoinPrepend(c: char, parts: seq<string>)
    requires parts != []
    ensures Join(Prepend(c, parts), ",") == [c] + Join(parts, ",")
  {
    if |parts| > 1 {
      assert Prepend(c, parts)[1..] == parts[1..];
    }
  }

  /** Every RDN is free of bare commas, and all but the last end cleanly. */
  predicate SplitShape(parts: seq<string>, escaped: bool) {
    && parts != [] && NoBareComma(parts[0], escaped)
    && (|parts| > 1 ==> !Dangles(parts[0], escaped) && SplitShape(parts[1..], false))
  }

  lemma {:induction false} SplitHasShape(s: string, escaped: bool)
    ensures SplitShape(SplitFrom(s, escaped), escaped)
  {
    if s == [] {
    } else {
      var e := !escaped && s[0] == '\\';
      SplitHasShape(s[1..], e);
      if escaped || s[0] != ',' {
        var rest := SplitFrom(s[1..], e);
        var parts := Prepend(s[0], rest);
        assert parts[0][1..] == rest[0] && parts[1..] == rest[1..];
      } else {
        var rest := SplitFrom(s[1..], false);
        assert ([[]] + rest)[1..] == rest;
      }
    }
  }

  lemma {:induction false} SplitFirst(p: string, escaped: bool, rest: string)
    requires NoBareComma(p, escaped)
    ensures SplitFrom(p, escaped) == [p]
    ensures !Dangles(p, escaped) ==> SplitFrom(p + "," + rest, escaped) == [p] + SplitFrom(rest, false)
  {
    if p == [] {
      assert p + "," + rest == "," + rest && ("," + rest)[1..] == rest;
    } else {
      SplitFirst(p[1..], !escaped && p[0] == '\\', rest);
      assert (p + "," + rest)[1..] == p[1..] + "," + rest;
      assert [p[0]] + p[1..] == p;
    }
  }

  /** The split is the only way to cut the text into RDNs of that shape. */
  lemma {:induction false} SplitUnique(parts: seq<string>, escaped: bool)
    requires SplitShape(parts, escaped)
    ensures SplitFrom(Join(parts, ","), escaped) == parts
  {
    if |parts| == 1 {
      SplitFirst(parts[0], escaped, []);
    } else {
      SplitUnique(parts[1..], false);
      SplitFirst(parts[0], escaped, Join(parts[1..], ","));
    }
  }

  /** Where no escape dangles, a comma between two texts separates their RDNs. */
  lemma {:induction false} SplitConcat(a: string, escaped: bool, b: string)
    requires !Dangles(a, escaped)
    ensures SplitFrom(a + "," + b, escaped) == SplitFrom(a, escaped) + SplitFrom(b, false)
    ensures Dangles(a + "," + b, escaped) == Dangles(b, false)
  {
    if a == [] {
      assert a + "," + b == "," + b && ("," + b)[1..] == b;
    } else {
      SplitConcat(a[1..], !escaped && a[0] == '\\', b);
      SplitConcatStep(a, escaped, b);
    }
  }

  lemma SplitConcatStep(a: string, escaped: bool, b: string)
    requires a != []
    requires var e := !escaped && a[0] == '\\';
             && SplitFrom(a[1..] + "," + b, e) == SplitFrom(a[1..], e) + SplitFrom(b, false)
             && Dangles(a[1..] + "," + b, e) == Dangles(b, false)
    ensures SplitFrom(a + "," + b, escaped) == SplitFrom(a, escaped) + SplitFrom(b, false)
    ensures Dangles(a + "," + b, escaped) == Dangles(b, false)
  {
    var e := !escaped && a[0] == '\\';
    var rest, more, all := SplitFrom(a[1..], e), SplitFrom(b, false), a + "," + b;
    assert all[0] == a[0] && all[1..] == a[1..] + "," + b;
    if escaped || a[0] != ',' {
      PrependConcat(a[0], rest, more);
    } else {
      Reassociate([[]], rest, more);
    }
  }

  lemma PrependConcat(c: char, parts: seq<string>, more: seq<string>)
    requires parts != []
    ensures Prepend(c, parts + more) == Prepend(c, parts) + more
  {
    assert (parts + more)[1..] == parts[1..] + more;
  }

  // ----- The validator ----------------------------------------------------

  predicate IsValidRdn(rdn: string) {
    match SplitOnce(rdn, '=')
    case None => false
    case Some((attr, value)) =>
      var attr := Trim(attr);
      && attr != [] && ByteLen(attr) <= 32
      && (forall i :: 0 <= i < |attr| ==> IsAlphanumeric(attr[i]) || attr[i] == '-')
      && Trim(value) != []
  }

  predicate AllValidRdns(rdns: seq<string>) { forall i :: 0 <= i < |rdns| ==> IsValidRdn(rdns[i]) }

  predicate IsValidLdapDn(dn: string) {
    && dn != [] && ByteLen(dn) <= 2048 && NoControl(dn)
    && !Dangles(dn, false) && AllValidRdns(SplitDn(dn))
  }

  /** `is_valid_ldap_dn`. */
  method CheckLdapDn(dn: string) returns (ok: bool)
    ensures ok == IsValidLdapDn(dn)
  {
    if dn == [] || ByteLen(dn) > 2048 || !NoControl(dn) {
      return false;
    }
    var rdns, dangling := ComputeSplitDn(dn);
    ok := !dangling && AllValidRdns(rdns);
  }

  lemma AllValidConcat(a: seq<string>, b: seq<string>)
    ensures AllValidRdns(a + b) <==> AllValidRdns(a) && AllValidRdns(b)
  {
    if AllValidRdns(a + b) {
      assert forall i :: 0 <= i < |a| ==> a[i] == (a + b)[i];
      assert forall i :: 0 <= i < |b| ==> b[i] == (a + b)[|a| + i];
    }
  }

  lemma NoControlConcat(a: string, b: string)
    ensures NoControl(a + "," + b) <==> NoControl(a) && NoControl(b)
  {
    var s := a + "," + b;
    assert forall i :: 0 <= i < |a| ==> s[i] == a[i];
    assert forall i :: 0 <= i < |b| ==> s[|a| + 1 + i] == b[i];
  }

  lemma ByteLenConcat(a: string, b: string)
    ensures ByteLen(a + "," + b) == ByteLen(a) + 1 + ByteLen(b)
  {
    EncodeConcat(a + ",", b);
    EncodeConcat(a, ",");
    EncodeAscii(",");
  }

  /** Within the length bound, `a,b` is a valid name exactly when both parts
      are, provided `a` does not end in an escape. */
  lemma ValidExactlyByParts(a: string, b: string)
    requires !Dangles(a, false)
    ensures IsValidLdapDn(a + "," + b) <==>
            IsValidLdapDn(a) && IsValidLdapDn(b) && ByteLen(a) + 1 + ByteLen(b) <= 2048
  {
    SplitConcat(a, false, b);
    AllValidConcat(SplitDn(a), SplitDn(b));
    NoControlConcat(a, b);
    ByteLenConcat(a, b);
    assert a == [] ==> SplitDn(a)[0] == [];
    assert b == [] ==> SplitDn(b)[0] == [];
  }

  // ----- Which names are valid --------------------------------------------

  /** How many backslashes a text ends in. */
  function Backslashes(s: string): nat {
    if s != [] && s[|s| - 1] == '\\' then 1 + Backslashes(s[..|s| - 1]) else 0
  }

  lemma {:induction false} EscapesAppend(s: string, c: char, escaped: bool)
    ensures Dangles(s + [c], escaped) <==> !Dangles(s, escaped) && c == '\\'
    ensures NoBareComma(s + [c], escaped) <==> NoBareComma(s, escaped) && (c == ',' ==> Dangles(s, escaped))
  {
    if s == [] {
      assert [c][1..] == [] && s + [c] == [c];
    } else {
      EscapesAppend(s[1..], c, !escaped && s[0] == '\\');
      assert (s + [c])[1..] == s[1..] + [c];
    }
  }

  /** An escape dangles exactly after an odd number of backslashes, and a comma
      is bare exactly after an even number of them. */
  lemma {:induction false} EscapesExactly(s: string)
    ensures Dangles(s, false) <==> Backslashes(s) % 2 == 1
    ensures NoBareComma(s, false) <==> forall i :: 0 <= i < |s| && s[i] == ',' ==> Backslashes(s[..i]) % 2 == 1
  {
    if s == [] {
    } else {
      var init, last := s[..|s| - 1], s[|s| - 1];
      EscapesExactly(init);
      EscapesAppend(init, last, false);
      assert s == init + [last];
      assert forall i :: 0 <= i < |init| ==> s[..i] == init[..i] && s[i] == init[i];
    }
  }

  /** `attribute=value` with blanks around the attribute. */
  predicate RdnParts(rdn: string, a: string, attr: string, b: string, value: string) {
    && rdn == a + attr + b + "=" + value && Blank(a) && Blank(b) && 1 <= |attr| <= 32
    && (forall i :: 0 <= i < |attr| ==> IsAlphanumeric(attr[i]) || attr[i] == '-')
    && !Blank(value)
  }

  /** An RDN is valid exactly when it has that shape. */
  lemma RdnExactly(rdn: string)
    ensures IsValidRdn(rdn) <==> exists a, attr, b, value :: RdnParts(rdn, a, attr, b, value)
  {
    if IsValidRdn(rdn) {
      var (k, value) := SplitOnce(rdn, '=').value;
      var a, b := TrimParts(k);
      EncodeAscii(Trim(k));
      TrimEmptyExactly(value);
      assert RdnParts(rdn, a, Trim(k), b, value);
    }
    if a, attr, b, value :| RdnParts(rdn, a, attr, b, value) {
      RdnOfParts(rdn, a, attr, b, value);
    }
  }

  lemma RdnOfParts(rdn: string, a: string, attr: string, b: string, value: string)
    requires RdnParts(rdn, a, attr, b, value)
    ensures IsValidRdn(rdn)
  {
    BlankLacks(a, '=');
    BlankLacks(b, '=');
    var k := a + attr + b;
    assert forall i :: 0 <= i < |attr| ==> attr[i] != '=' && !IsWhitespace(attr[i]) && IsAscii(attr[i]);
    SplitOnceAt(k, '=', value);
    TrimPad(a, attr, b);
    EncodeAscii(attr);
    TrimEmptyExactly(value);
  }

  lemma {:induction false} DanglesAfterComma(a: string, escaped: bool, b: string)
    requires !Dangles(a, escaped)
    ensures Dangles(a + "," + b, escaped) <==> Dangles(b, false)
  {
    if a == [] {
      assert a + "," + b == "," + b && ("," + b)[1..] == b;
    } else {
      DanglesAfterComma(a[1..], !escaped && a[0] == '\\', b);
      assert (a + "," + b)[1..] == a[1..] + "," + b;
    }
  }

  /** Each part is one whole RDN. */
  predicate WholeRdns(rdns: seq<string>) {
    forall i :: 0 <= i < |rdns| ==> NoBareComma(rdns[i], false) && !Dangles(rdns[i], false)
  }

  lemma {:induction false} WholeExactly(rdns: seq<string>)
    requires rdns != []
    ensures WholeRdns(rdns) <==> SplitShape(rdns, false) && !Dangles(Join(rdns, ","), false)
  {
    if |rdns| == 1 {
    } else {
      WholeExactly(rdns[1..]);
      assert forall i :: 1 <= i < |rdns| ==> rdns[i] == rdns[1..][i - 1];
      if !Dangles(rdns[0], false) {
        DanglesAfterComma(rdns[0], false, Join(rdns[1..], ","));
      }
    }
  }

  predicate DnParts(dn: string, rdns: seq<string>) {
    && rdns != [] && dn == Join(rdns, ",") && ByteLen(dn) <= 2048 && NoControl(dn)
    && WholeRdns(rdns) && AllValidRdns(rdns)
  }

  /** A name is valid exactly when it is made of whole valid RDNs, joined by
      commas, within the length and without control characters. */
  lemma DnExactly(dn: string)
    ensures IsValidLdapDn(dn) <==> exists rdns: seq<string> :: DnParts(dn, rdns)
  {
    JoinSplit(dn, false);
    SplitHasShape(dn, false);
    WholeExactly(SplitDn(dn));
    if IsValidLdapDn(dn) {
      assert DnParts(dn, SplitDn(dn));
    }
    if rdns :| DnParts(dn, rdns) {
      WholeExactly(rdns);
      SplitUnique(rdns, false);
    }
  }
}
