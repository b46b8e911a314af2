/** Case-insensitive replacement as the agent does it: it searches the
    lowercased text and copies from the original at the same byte offset. */
module CaseReplace {
  import opened Text
  import Utf8

  // ----- Byte offsets -----------------------------------------------------

  /** `char::len_utf8`. */
  function Width(c: char): (n: nat)
    ensures 1 <= n <= 4 && (n == 1 <==> IsAscii(c))
  {
    var v := c as int;
    if v < 0x80 then 1 else if v < 0x800 then 2 else if v < 0x10000 then 3 else 4
  }

  /** `str::len`. */
  function Len(s: string): (n: nat)
    ensures n >= |s|
  {
    if s == [] then 0 else Width(s[0]) + Len(s[1..])
  }

  lemma {:induction false} LenIsByteLen(s: string)
    ensures Len(s) == Utf8.ByteLen(s)
  {
    if s == [] {
    } else {
      LenIsByteLen(s[1..]);
      assert Width(s[0]) == |Utf8.EncodeChar(s[0])|;
    }
  }

  /** The slice `s[i..]`, `None` where it panics: past the end, or inside a
      character. */
  function From(s: string, i: nat): (r: Option<string>)
    ensures r.Some? ==> |r.value| <= |s| && Len(r.value) + i == Len(s)
    decreases |s|
  {
    if i == 0 then Some(s)
    else if s == [] || i < Width(s[0]) then None
    else From(s[1..], i - Width(s[0]))
  }

  lemma {:induction false} FromChar(s: string, k: nat)
    requires k <= |s|
    ensures From(s, Len(s[..k])) == Some(s[k..])
  {
    if k == 0 {
      assert s[..0] == [] && s[0..] == s;
    } else {
      assert s[..k][0] == s[0] && s[..k][1..] == s[1..][..k - 1];
      FromChar(s[1..], k - 1);
      assert s[1..][k - 1..] == s[k..];
    }
  }

  lemma {:induction false} LenConcat(s: string, t: string)
    ensures Len(s + t) == Len(s) + Len(t)
  {
    if s == [] {
      assert s + t == t;
    } else {
      assert (s + t)[1..] == s[1..] + t;
      LenConcat(s[1..], t);
    }
  }

  lemma {:induction false} LenAscii(s: string)
    requires AllAscii(s)
    ensures Len(s) == |s|
  {
    if s == [] {
    } else {
      LenAscii(s[1..]);
    }
  }

  // ----- The loop ---------------------------------------------------------

  function Prepend(s: string, rest: Option<string>): Option<string> {
    if rest.Some? then Some(s + rest.value) else None
  }

  /** One turn of the loop at offset `i`: what is appended and the next offset,
      `None` for a panic. `low` is the lowercased text, `needle` the lowercased
      needle and `n` the length of the needle as given. */
  function Turn(h: string, low: string, needle: string, n: nat, value: string, i: nat): (r: Option<(string, nat)>)
    requires n > 0 && i < Len(h)
    ensures r.Some? ==> r.value.1 > i
  {
    match From(low, i)
    case None => None
    case Some(ahead) =>
      if needle <= ahead then Some((value, i + n)) else
        match From(h, i)
        case None => None
        case Some(rest) => Some(([rest[0]], i + Width(rest[0])))
  }

  /** What is made of `h` from offset `i` on. */
  function ReplaceFrom(h: string, low: string, needle: string, n: nat, value: string, i: nat): Option<string>
    requires n > 0
    decreases Len(h) - i
  {
    if i >= Len(h) then Some([]) else
      match Turn(h, low, needle, n, value, i)
      case None => None
      case Some((piece, next)) => Prepend(piece, ReplaceFrom(h, low, needle, n, value, next))
  }

  function ReplaceText(lower: string -> string, h: string, needle: string, value: string): Option<string> {
    if needle == [] then Some(h) else ReplaceFrom(h, lower(h), lower(needle), Len(needle), value, 0)
  }

  lemma PrependTwice(a: string, b: string, rest: Option<string>)
    ensures Prepend(a, Prepend(b, rest)) == Prepend(a + b, rest)
  {
    if rest.Some? {
      Reassociate(a, b, rest.value);
    }
  }

  lemma PrependNothing(r: Option<string>)
    ensures Prepend([], r) == r
  {
    if r.Some? {
      assert [] + r.value == r.value;
    }
  }

  /** `replace_ci`, with the Unicode lowercasing of the standard library as a
      parameter. */
  method ComputeReplaceCi(lower: string -> string, h: string, needle: string, value: string)
    returns (out: Option<string>)
    ensures out == ReplaceText(lower, h, needle, value)
  {
    if needle == [] {
      return Some(h);
    }
    var low, lowNeedle, n := lower(h), lower(needle), Len(needle);
    ghost var result := ReplaceFrom(h, low, lowNeedle, n, value, 0);
    var done := [];
    PrependNothing(result);
    var i := 0;
    while i < Len(h)
      invariant Prepend(done, ReplaceFrom(h, low, lowNeedle, n, value, i)) == result
      decreases Len(h) - i
    {
      var turn := Turn(h, low, lowNeedle, n, value, i);
      if turn.None? {
        return None;
      }
      var (piece, next) := turn.value;
      PrependTwice(done, piece, ReplaceFrom(h, low, lowNeedle, n, value, next));
      done, i := done + piece, next;
    }
    assert done + [] == done;
    out := Some(done);
  }

  // ----- The reference ----------------------------------------------------

  /** Every occurrence of an ASCII needle, in any letter case, by the value,
      leftmost first. */
  function ReplaceCi(h: string, needle: string, value: string): string
    requires needle != []
    decreases |h|
  {
    if h == [] then []
    else if Lower(needle) <= Lower(h) then value + ReplaceCi(h[|needle|..], needle, value)
    else [h[0]] + ReplaceCi(h[1..], needle, value)
  }

  lemma {:induction false} MatchedOffset(h: string, needle: string, k: nat)
    requires AllAscii(needle) && k <= |h| && Lower(needle) <= Lower(h[k..])
    ensures k + |needle| <= |h| && Len(h[..k + |needle|]) == Len(h[..k]) + Len(needle)
  {
    var found := h[k..][..|needle|];
    assert forall i :: 0 <= i < |needle| ==> LowerChar(found[i]) == Lower(h[k..])[i] == LowerChar(needle[i]);
    assert h[..k + |needle|] == h[..k] + found;
    LenConcat(h[..k], found);
    LenAscii(found);
    LenAscii(needle);
  }

  lemma CharOffset(h: string, k: nat)
    requires k < |h|
    ensures Len(h[..k + 1]) == Len(h[..k]) + Width(h[k])
  {
    assert h[..k + 1] == h[..k] + [h[k]];
    LenConcat(h[..k], [h[k]]);
    assert [h[k]][1..] == [];
  }

  lemma {:induction false} OffsetInside(h: string, k: nat)
    requires k < |h|
    ensures Len(h[..k]) < Len(h)
  {
    assert h == h[..k] + h[k..];
    LenConcat(h[..k], h[k..]);
  }

  predicate FoundAt(h: string, needle: string, k: nat)
    requires k <= |h|
  {
    Lower(needle) <= Lower(h[k..])
  }

  /** The character the reference goes on at after character `k`. */
  function NextAt(h: string, needle: string, k: nat): (m: nat)
    requires k < |h| && needle != []
    ensures k < m <= |h|
  {
    if FoundAt(h, needle, k) then k + |needle| else k + 1
  }

  function PieceAt(h: string, needle: string, value: string, k: nat): string
    requires k < |h|
  {
    if FoundAt(h, needle, k) then value else [h[k]]
  }

  lemma NextOffset(h: string, needle: string, k: nat)
    requires AllAscii(needle) && needle != [] && k < |h|
    ensures Len(h[..NextAt(h, needle, k)]) ==
            Len(h[..k]) + if FoundAt(h, needle, k) then Len(needle) else Width(h[k])
  {
    if FoundAt(h, needle, k) {
      MatchedOffset(h, needle, k);
    } else {
      CharOffset(h, k);
    }
  }

  lemma ReplaceTurn(
    h: string, low: string, needle: string, n: nat, value: string, i: nat, piece: string, next: nat)
    requires n > 0 && i < Len(h) && Turn(h, low, needle, n, value, i) == Some((piece, next))
    ensures ReplaceFrom(h, low, needle, n, value, i) == Prepend(piece, ReplaceFrom(h, low, needle, n, value, next))
  {
  }

  lemma ReplaceCiAt(h: string, needle: string, value: string, k: nat)
    requires k < |h| && needle != []
    ensures ReplaceCi(h[k..], needle, value) ==
            PieceAt(h, needle, value, k) + ReplaceCi(h[NextAt(h, needle, k)..], needle, value)
  {
    if FoundAt(h, needle, k) {
      assert h[k..][|needle|..] == h[k + |needle|..];
    } else {
      assert h[k..][1..] == h[k + 1..];
    }
  }

  // ----- In step ----------------------------------------------------------

  /** From character `k` on, wherever the reference looks, the loop takes a slice
      of the lowercased text, and finds the needle there exactly when the
      reference does. */
  predicate InStep(h: string, low: string, needle: string, k: nat)
    requires k <= |h| && needle != []
    decreases |h| - k
  {
    k == |h| ||
    match From(low, Len(h[..k]))
    case None => false
    case Some(ahead) =>
      (Lower(needle) <= ahead <==> FoundAt(h, needle, k)) && InStep(h, low, needle, NextAt(h, needle, k))
  }

  lemma TurnAt(h: string, low: string, needle: string, value: string, k: nat)
    requires AllAscii(needle) && needle != [] && k < |h|
    ensures Len(h[..k]) < Len(h)
    ensures From(low, Len(h[..k])).None? ==> Turn(h, low, Lower(needle), Len(needle), value, Len(h[..k])) == None
    ensures From(low, Len(h[..k])).Some?
            && (Lower(needle) <= From(low, Len(h[..k])).value <==> FoundAt(h, needle, k)) ==>
              Turn(h, low, Lower(needle), Len(needle), value, Len(h[..k])) ==
              Some((PieceAt(h, needle, value, k), Len(h[..NextAt(h, needle, k)])))
  {
    OffsetInside(h, k);
    FromChar(h, k);
    NextOffset(h, needle, k);
  }

  lemma {:induction false} AgreesFrom(h: string, low: string, needle: string, value: string, k: nat)
    requires AllAscii(needle) && needle != [] && k <= |h| && InStep(h, low, needle, k)
    ensures ReplaceFrom(h, low, Lower(needle), Len(needle), value, Len(h[..k])) ==
            Some(ReplaceCi(h[k..], needle, value))
    decreases |h| - k
  {
    if k == |h| {
      assert h[..k] == h && h[k..] == [];
    } else {
      var piece, m := PieceAt(h, needle, value, k), NextAt(h, needle, k);
      AgreesFrom(h, low, needle, value, m);
      TurnAt(h, low, needle, value, k);
      ReplaceTurn(h, low, Lower(needle), Len(needle), value, Len(h[..k]), piece, Len(h[..m]));
      ReplaceCiAt(h, needle, value, k);
    }
  }

  /** Where the loop looks and the reference does not find, or the other way
      round, a value that differs from the character there tells them apart. */
  lemma {:induction false} MissDiffers(h: string, low: string, needle: string, value: string, k: nat)
    requires AllAscii(needle) && needle != [] && k < |h| && |value| == 1 && value[0] != h[k]
    requires From(low, Len(h[..k])).Some?
    requires !(Lower(needle) <= From(low, Len(h[..k])).value <==> FoundAt(h, needle, k))
    ensures ReplaceFrom(h, low, Lower(needle), Len(needle), value, Len(h[..k])) !=
            Some(ReplaceCi(h[k..], needle, value))
  {
    var i, n := Len(h[..k]), Len(needle);
    OffsetInside(h, k);
    FromChar(h, k);
    ReplaceCiAt(h, needle, value, k);
    var piece, next := value, i + n;
    if FoundAt(h, needle, k) {
      piece, next := [h[k]], i + Width(h[k]);
    }
    assert Turn(h, low, Lower(needle), n, value, i) == Some((piece, next));
    ReplaceTurn(h, low, Lower(needle), n, value, i, piece, next);
    FirstDiffers(piece, ReplaceFrom(h, low, Lower(needle), n, value, next),
                 PieceAt(h, needle, value, k), ReplaceCi(h[NextAt(h, needle, k)..], needle, value));
  }

  lemma FirstDiffers(a: string, r: Option<string>, b: string, s: string)
    requires a != [] && b != [] && a[0] != b[0]
    ensures Prepend(a, r) != Some(b + s)
  {
    assert (b + s)[0] == b[0];
    if r.Some? {
      assert (a + r.value)[0] == a[0];
    }
  }

  lemma PrependDiffers(piece: string, r: Option<string>, s: string)
    requires r != Some(s)
    ensures Prepend(piece, r) != Some(piece + s)
  {
    assert (piece + s)[|piece|..] == s;
    if r.Some? {
      assert (piece + r.value)[|piece|..] == r.value;
    }
  }

  lemma {:induction false} OutOfStepDiffers(h: string, low: string, needle: string, k: nat) returns (value: string)
    requires AllAscii(needle) && needle != [] && k <= |h| && !InStep(h, low, needle, k)
    ensures |value| == 1 && value[0] in "ab"
    ensures ReplaceFrom(h, low, Lower(needle), Len(needle), value, Len(h[..k])) !=
            Some(ReplaceCi(h[k..], needle, value))
    decreases |h| - k
  {
    value := if h[k] == 'a' then "b" else "a";
    var ahead := From(low, Len(h[..k]));
    if ahead.None? {
      TurnAt(h, low, needle, value, k);
    } else if !(Lower(needle) <= ahead.value <==> FoundAt(h, needle, k)) {
      MissDiffers(h, low, needle, value, k);
    } else {
      var m := NextAt(h, needle, k);
      value := OutOfStepDiffers(h, low, needle, m);
      var piece := PieceAt(h, needle, value, k);
      TurnAt(h, low, needle, value, k);
      ReplaceTurn(h, low, Lower(needle), Len(needle), value, Len(h[..k]), piece, Len(h[..m]));
      ReplaceCiAt(h, needle, value, k);
      PrependDiffers(piece, ReplaceFrom(h, low, Lower(needle), Len(needle), value, Len(h[..m])),
                     ReplaceCi(h[m..], needle, value));
    }
  }

  /** For any text, the loop never panics and replaces every occurrence of an
      ASCII needle, whatever the value, exactly when it stays in step. */
  lemma ReplacesExactlyInStep(lower: string -> string, h: string, needle: string)
    requires AllAscii(needle) && needle != [] && lower(needle) == Lower(needle)
    ensures (forall value: string :: ReplaceText(lower, h, needle, value) == Some(ReplaceCi(h, needle, value))) <==>
            InStep(h, lower(h), needle, 0)
  {
    assert h[0..] == h && h[..0] == [];
    if InStep(h, lower(h), needle, 0) {
      forall value: string ensures ReplaceText(lower, h, needle, value) == Some(ReplaceCi(h, needle, value)) {
        AgreesFrom(h, lower(h), needle, value, 0);
      }
    } else {
      var value := OutOfStepDiffers(h, lower(h), needle, 0);
    }
  }

  // ----- Texts that stay in step ------------------------------------------

  /** Lowercasing keeps the offsets of a text: one character for one, an ASCII
      letter by its small form and any other character by one as wide. */
  predicate KeepsOffsets(lower: string -> string, h: string) {
    && |lower(h)| == |h|
    && forall i :: 0 <= i < |h| ==>
                     && Width(lower(h)[i]) == Width(h[i])
                     && (IsAscii(h[i]) ==> lower(h)[i] == LowerChar(h[i]))
  }

  lemma {:induction false} SameOffsets(s: string, t: string)
    requires |s| == |t| && forall i :: 0 <= i < |s| ==> Width(s[i]) == Width(t[i])
    ensures Len(s) == Len(t)
  {
    if s == [] {
    } else {
      SameOffsets(s[1..], t[1..]);
    }
  }

  lemma PrefixAsLowered(lower: string -> string, h: string, needle: string, k: nat)
    requires KeepsOffsets(lower, h) && AllAscii(needle) && k <= |h|
    ensures Lower(needle) <= lower(h)[k..] <==> Lower(needle) <= Lower(h[k..])
  {
    var n, a, b := Lower(needle), lower(h)[k..], Lower(h[k..]);
    assert forall j :: 0 <= j < |n| ==> IsAscii(n[j]);
    assert forall j :: 0 <= j < |a| ==> a[j] == lower(h)[k + j] && b[j] == LowerChar(h[k + j]);
    assert forall j :: 0 <= j < |a| && j < |n| ==> (a[j] == n[j] <==> b[j] == n[j]);
  }

  lemma {:induction false} SteadyStaysInStep(lower: string -> string, h: string, needle: string, k: nat)
    requires KeepsOffsets(lower, h) && AllAscii(needle) && needle != [] && k <= |h|
    ensures InStep(h, lower(h), needle, k)
    decreases |h| - k
  {
    if k == |h| {
    } else {
      SameOffsets(h[..k], lower(h)[..k]);
      FromChar(lower(h), k);
      PrefixAsLowered(lower, h, needle, k);
      SteadyStaysInStep(lower, h, needle, NextAt(h, needle, k));
    }
  }

  /** In particular on texts whose lowercasing keeps offsets. */
  lemma ReplacesWhereOffsetsKeep(lower: string -> string, h: string, needle: string, value: string)
    requires KeepsOffsets(lower, h) && lower(needle) == Lower(needle) && AllAscii(needle) && needle != []
    ensures ReplaceText(lower, h, needle, value) == Some(ReplaceCi(h, needle, value))
  {
    SteadyStaysInStep(lower, h, needle, 0);
    ReplacesExactlyInStep(lower, h, needle);
  }

  // ----- and texts that do not --------------------------------------------

  /** `U+0130` takes two bytes and its lowercasing, an `i` and a combining dot,
      three: whatever follows it, the next slice panics. */
  lemma LongerLowercasePanics(
    lower: string -> string, rest: string, low: string, needle: string, value: string)
    requires rest != [] && needle != [] && lower(needle) != [] && lower(needle)[0] == '{'
    requires lower(['\U{130}'] + rest) == ['i', '\U{307}'] + low
    ensures ReplaceText(lower, ['\U{130}'] + rest, needle, value) == None
  {
    var h, all := ['\U{130}'] + rest, ['i', '\U{307}'] + low;
    assert h[1..] == rest && all[1..] == ['\U{307}'] + low;
    assert From(all, 2) == From(all[1..], 1) == None;
    assert Turn(h, all, lower(needle), Len(needle), value, 0) == Some((['\U{130}'], 2));
    ReplaceTurn(h, all, lower(needle), Len(needle), value, 0, ['\U{130}'], 2);
  }

  /** A three-byte character whose lowercasing takes two, as `U+1E9E` does: the
      loop looks one byte too far on, misses the token, and leaves it in the text
      without a panic. */
  lemma ShorterLowercaseLeavesToken(lower: string -> string, c: char, d: char, value: string)
    requires Width(c) == 3 && Width(d) == 2 && lower([c] + "{f}") == [d] + "{f}" && lower("{f}") == "{f}"
    ensures ReplaceText(lower, [c] + "{f}", "{f}", value) == Some([c] + "{f}")
  {
    var h, low, needle := [c] + "{f}", [d] + "{f}", "{f}";
    LenAscii(needle);
    WideSlices(c);
    WideSlices(d);
    assert h[1..] == needle && low[1..] == needle;
    OneBehind(h, low, needle, value);
  }

  /** A three-byte character before the needle, lowered to two bytes. */
  lemma OneBehind(h: string, low: string, needle: string, value: string)
    requires needle == "{f}" && |h| == 4 && |low| == 4 && h[1..] == needle && low[1..] == needle
    requires Len(h) == 6 && Len(needle) == 3 && Width(h[0]) == 3 && low[0] != '{'
    requires From(h, 3) == Some("{f}") && From(h, 4) == Some("f}") && From(h, 5) == Some("}")
    requires From(low, 3) == Some("f}") && From(low, 4) == Some("}") && From(low, 5) == Some("")
    ensures ReplaceFrom(h, low, needle, 3, value, 0) == Some(h)
  {
    assert ReplaceFrom(h, low, needle, 3, value, 6) == Some("");
    ReplaceTurn(h, low, needle, 3, value, 5, "}", 6);
    ReplaceTurn(h, low, needle, 3, value, 4, "f", 5);
    ReplaceTurn(h, low, needle, 3, value, 3, "{", 4);
    ReplaceTurn(h, low, needle, 3, value, 0, [h[0]], 3);
    assert "}" + "" == "}" && "f" + "}" == "f}" && "{" + "f}" == "{f}" && [h[0]] + h[1..] == h;
  }

  lemma WideSlices(c: char)
    ensures var s := [c] + "{f}"; var w := Width(c);
            && Len(s) == w + 3 && From(s, w) == Some("{f}") && From(s, w + 1) == Some("f}")
            && From(s, w + 2) == Some("}") && From(s, w + 3) == Some("")
  {
    var s, token := [c] + "{f}", "{f}";
    assert s[1..] == token && token[1..] == "f}" && "f}"[1..] == "}" && "}"[1..] == "";
    LenAscii(token);
    assert From("}", 1) == From("", 0);
    assert From("f}", 1) == From("}", 0) && From("f}", 2) == From("}", 1);
    assert From(token, 1) == From("f}", 0) && From(token, 2) == From("f}", 1) && From(token, 3) == From("f}", 2);
  }
}
