/** What installer-style arguments are turned into, read off the argument strings
    themselves. */
module InstallerLine {
  import opened Text
  import opened InstallerArgs

  // ----- The arguments as strings -----------------------------------------

  /** Some argument is this switch, in any letter case. */
  predicate Says(rest: seq<string>, name: string) {
    exists i :: 0 <= i < |rest| && Lower(rest[i]) == "/" + name
  }

  predicate SaysOneOf(rest: seq<string>, names: seq<string>) {
    exists n :: 0 <= n < |names| && Says(rest, names[n])
  }

  const QUIET := ["q", "qn", "quiet", "silent", "passive"]
  const RESTART := ["norestart", "promptrestart", "forcerestart"]
  const KEYS := ["server", "aat", "name", "purge"]

  /** `KEY=value`, the key in any letter case. */
  predicate Gives(arg: string, key: string) {
    |key| < |arg| && Lower(arg[..|key|]) == key && arg[|key|] == '='
  }

  predicate Understood(arg: string) {
    || Says([arg], "install") || Says([arg], "uninstall")
    || SaysOneOf([arg], QUIET) || SaysOneOf([arg], RESTART)
    || exists k :: 0 <= k < |KEYS| && Gives(arg, KEYS[k])
  }

  predicate AllQuotes(s: string) { forall i :: 0 <= i < |s| ==> s[i] == '"' }

  /** `raw` is `v` within quotes within blanks, and there are no more of either
      to take away. */
  predicate Wraps(raw: string, v: string, a: string, p: string, q: string, b: string) {
    && raw == a + (p + v + q) + b && Blank(a) && Blank(b) && AllQuotes(p) && AllQuotes(q)
    && Trimmed(p + v + q) && (v != [] ==> v[0] != '"' && v[|v| - 1] != '"')
  }

  ghost predicate Unwrapped(raw: string, v: string) {
    exists a, p, q, b :: Wraps(raw, v, a, p, q, b)
  }

  predicate LastGiven(rest: seq<string>, key: string, i: nat) {
    i < |rest| && Gives(rest[i], key) && forall j :: i < j < |rest| ==> !Gives(rest[j], key)
  }

  /** What the last argument of this key gives, if there is one. */
  ghost predicate LastValue(rest: seq<string>, key: string, v: Option<string>) {
    match v
    case None => forall i :: 0 <= i < |rest| ==> !Gives(rest[i], key)
    case Some(value) => exists i: nat :: LastGiven(rest, key, i) && Unwrapped(rest[i][|key| + 1..], value)
  }

  // ----- Switches ---------------------------------------------------------

  lemma SlashExactly(arg: string, name: string)
    ensures Lower(arg) == "/" + name <==> arg != [] && arg[0] == '/' && Lower(arg[1..]) == name
  {
    if arg != [] {
      assert Lower(arg) == [LowerChar(arg[0])] + Lower(arg[1..]);
      assert Lower(arg)[1..] == Lower(arg[1..]) && ("/" + name)[1..] == name;
      assert Lower(arg)[0] == '/' <==> arg[0] == '/';
    }
  }

  lemma SaysOne(arg: string, name: string)
    ensures Says([arg], name) <==> arg != [] && arg[0] == '/' && Lower(arg[1..]) == name
  {
    assert [arg][0] == arg;
    SlashExactly(arg, name);
  }

  lemma SaysOneOfOne(arg: string, names: seq<string>)
    ensures SaysOneOf([arg], names) <==> arg != [] && arg[0] == '/' && Lower(arg[1..]) in names
  {
    forall n | 0 <= n < |names|
      ensures Says([arg], names[n]) <==> arg != [] && arg[0] == '/' && Lower(arg[1..]) == names[n]
    {
      SaysOne(arg, names[n]);
    }
  }

  lemma SwitchesExactly(arg: string)
    ensures Classify(arg) == Install <==> Says([arg], "install")
    ensures Classify(arg) == Uninstall <==> Says([arg], "uninstall")
    ensures Classify(arg) == Quiet <==> SaysOneOf([arg], QUIET)
    ensures Classify(arg) == Ignored <==> SaysOneOf([arg], RESTART)
  {
    SaysOne(arg, "install");
    SaysOne(arg, "uninstall");
    SaysOneOfOne(arg, QUIET);
    SaysOneOfOne(arg, RESTART);
    if arg != [] && arg[0] == '/' {
      SwitchByName(Lower(arg[1..]));
    }
  }

  lemma SwitchByName(name: string)
    ensures Switch(name) == Install <==> name == "install"
    ensures Switch(name) == Uninstall <==> name == "uninstall"
    ensures Switch(name) == Quiet <==> name in QUIET
    ensures Switch(name) == Ignored <==> name in RESTART
    ensures !Switch(name).Prop?
  {
  }

  // ----- Properties -------------------------------------------------------

  function NameOf(k: Key): (r: string)
    ensures r in KEYS && r[0] != '/' && '=' !in r
  {
    match k
    case Server => KEYS[0]
    case Aat => KEYS[1]
    case Name => KEYS[2]
    case Purge => KEYS[3]
  }

  lemma KeyNames()
    ensures NameOf(Server) == "server" && NameOf(Aat) == "aat" && NameOf(Name) == "name" && NameOf(Purge) == "purge"
  {
  }

  lemma GivesExactly(arg: string, key: string)
    requires '=' !in key
    ensures Gives(arg, key) <==> SplitOnce(arg, '=').Some? && Lower(SplitOnce(arg, '=').value.0) == key
    ensures Gives(arg, key) ==> arg[|key| + 1..] == SplitOnce(arg, '=').value.1
  {
    var split := SplitOnce(arg, '=');
    if split.Some? {
      var (k, raw) := split.value;
      assert arg[..|k|] == k && arg[|k|] == '=' && arg[|k| + 1..] == raw;
      if Gives(arg, key) {
        NoEquals(arg[..|key|]);
        assert forall j :: 0 <= j < |key| ==> arg[j] == arg[..|key|][j] != '=';
        assert forall j :: 0 <= j < |k| ==> arg[j] == k[j] != '=';
      }
    }
  }

  lemma NoEquals(s: string)
    ensures '=' in Lower(s) <==> '=' in s
  {
    if '=' in s {
      var i :| 0 <= i < |s| && s[i] == '=';
      assert Lower(s)[i] == '=';
    }
  }

  lemma PropsExactly(arg: string, k: Key)
    ensures Classify(arg).Prop? && Classify(arg).key == k <==> Gives(arg, NameOf(k))
  {
    GivesExactly(arg, NameOf(k));
    if Gives(arg, NameOf(k)) {
      assert Lower(arg[..|NameOf(k)|])[0] == LowerChar(arg[0]);
    }
    if arg != [] && arg[0] == '/' {
      SwitchByName(Lower(arg[1..]));
    } else {
      PropertyByKey(arg, k);
    }
  }

  lemma PropertyByKey(arg: string, k: Key)
    ensures Property(arg).Prop? && Property(arg).key == k <==>
            SplitOnce(arg, '=').Some? && Lower(SplitOnce(arg, '=').value.0) == NameOf(k)
  {
    KeyNames();
  }

  lemma BadExactly(arg: string)
    ensures Classify(arg) == Bad <==> !Understood(arg)
  {
    SwitchesExactly(arg);
    forall k: Key ensures Classify(arg).Prop? && Classify(arg).key == k <==> Gives(arg, NameOf(k)) {
      PropsExactly(arg, k);
    }
    assert Gives(arg, KEYS[0]) <==> Gives(arg, NameOf(Server));
    assert Gives(arg, KEYS[1]) <==> Gives(arg, NameOf(Aat));
    assert Gives(arg, KEYS[2]) <==> Gives(arg, NameOf(Name));
    assert Gives(arg, KEYS[3]) <==> Gives(arg, NameOf(Purge));
  }

  // ----- Values -----------------------------------------------------------

  lemma {:induction false} TrimQuotesStartPad(p: string, s: string)
    requires AllQuotes(p) && (s != [] ==> s[0] != '"')
    ensures TrimQuotesStart(p + s) == s
  {
    if p == [] {
      assert p + s == s;
    } else {
      assert (p + s)[1..] == p[1..] + s;
      TrimQuotesStartPad(p[1..], s);
    }
  }

  lemma {:induction false} TrimQuotesEndPad(s: string, q: string)
    requires AllQuotes(q) && (s != [] ==> s[|s| - 1] != '"')
    ensures TrimQuotesEnd(s + q) == s
  {
    if q == [] {
      assert s + q == s;
    } else {
      assert (s + q)[..|s + q| - 1] == s + q[..|q| - 1];
      TrimQuotesEndPad(s, q[..|q| - 1]);
    }
  }

  function Unwrap(raw: string): string { TrimQuotesEnd(TrimQuotesStart(Trim(raw))) }

  lemma UnwrapWrapped(raw: string, v: string, a: string, p: string, q: string, b: string)
    requires Wraps(raw, v, a, p, q, b)
    ensures Unwrap(raw) == v
  {
    TrimPad(a, p + v + q, b);
    if v == [] {
      assert p + v + q == (p + q) + [];
      TrimQuotesStartPad(p + q, []);
    } else {
      assert p + v + q == p + (v + q) && (v + q)[0] == v[0];
      TrimQuotesStartPad(p, v + q);
      TrimQuotesEndPad(v, q);
    }
  }

  lemma {:induction false} QuotesStartParts(s: string) returns (p: string)
    ensures AllQuotes(p) && s == p + TrimQuotesStart(s)
    ensures TrimQuotesStart(s) != [] ==> TrimQuotesStart(s)[0] != '"'
  {
    if s != [] && s[0] == '"' {
      var rest := QuotesStartParts(s[1..]);
      p := [s[0]] + rest;
    } else {
      p := [];
    }
  }

  lemma {:induction false} QuotesEndParts(s: string) returns (q: string)
    ensures AllQuotes(q) && s == TrimQuotesEnd(s) + q
    ensures TrimQuotesEnd(s) != [] ==> TrimQuotesEnd(s)[|TrimQuotesEnd(s)| - 1] != '"'
  {
    if s != [] && s[|s| - 1] == '"' {
      var rest := QuotesEndParts(s[..|s| - 1]);
      q := rest + [s[|s| - 1]];
    } else {
      q := [];
    }
  }

  lemma UnwrapUnwraps(raw: string)
    ensures Unwrapped(raw, Unwrap(raw))
  {
    var a, b := TrimParts(raw);
    var p := QuotesStartParts(Trim(raw));
    var q := QuotesEndParts(TrimQuotesStart(Trim(raw)));
    var v := Unwrap(raw);
    assert Trim(raw) == p + v + q;
    assert v != [] ==> v[0] == TrimQuotesStart(Trim(raw))[0];
    assert Wraps(raw, v, a, p, q, b);
  }

  predicate IsYes(v: string) { v in ["yes", "true", "1"] }

  lemma ValuesExactly(arg: string, k: Key, v: string)
    requires Gives(arg, NameOf(k)) && Unwrapped(arg[|NameOf(k)| + 1..], v)
    ensures Classify(arg) == Prop(k, if k != Purge then v else if IsYes(v) then YES else "")
  {
    var raw := arg[|NameOf(k)| + 1..];
    var a, p, q, b :| Wraps(raw, v, a, p, q, b);
    UnwrapWrapped(raw, v, a, p, q, b);
    PropsExactly(arg, k);
    GivesExactly(arg, NameOf(k));
  }

  // ----- The options ------------------------------------------------------

  lemma SwitchesSaid(rest: seq<string>)
    ensures Install in ClassifyAll(rest) <==> Says(rest, "install")
    ensures Uninstall in ClassifyAll(rest) <==> Says(rest, "uninstall")
    ensures Quiet in ClassifyAll(rest) <==> SaysOneOf(rest, QUIET)
    ensures Bad in ClassifyAll(rest) <==> exists i :: 0 <= i < |rest| && !Understood(rest[i])
  {
    var args := ClassifyAll(rest);
    forall i | 0 <= i < |rest|
      ensures args[i] == Install <==> Lower(rest[i]) == "/" + "install"
      ensures args[i] == Uninstall <==> Lower(rest[i]) == "/" + "uninstall"
      ensures args[i] == Quiet <==> SaysOneOf([rest[i]], QUIET)
      ensures args[i] == Bad <==> !Understood(rest[i])
    {
      SwitchesExactly(rest[i]);
      BadExactly(rest[i]);
      assert [rest[i]][0] == rest[i];
    }
    QuietSaid(rest);
  }

  lemma QuietSaid(rest: seq<string>)
    ensures SaysOneOf(rest, QUIET) <==> exists i :: 0 <= i < |rest| && SaysOneOf([rest[i]], QUIET)
  {
    if SaysOneOf(rest, QUIET) {
      var n :| 0 <= n < |QUIET| && Says(rest, QUIET[n]);
      var i :| 0 <= i < |rest| && Lower(rest[i]) == "/" + QUIET[n];
      assert Lower([rest[i]][0]) == "/" + QUIET[n] && Says([rest[i]], QUIET[n]);
    }
    if i :| 0 <= i < |rest| && SaysOneOf([rest[i]], QUIET) {
      var n :| 0 <= n < |QUIET| && Says([rest[i]], QUIET[n]);
      assert Lower(rest[i]) == "/" + QUIET[n] && Says(rest, QUIET[n]);
    }
  }

  /** The last value of a property is the one that counts. */
  lemma {:induction false} SummaryLast(args: seq<Arg>, k: Key, i: nat)
    requires i < |args| && args[i].Prop? && args[i].key == k
    requires forall j :: i < j < |args| ==> !(args[j].Prop? && args[j].key == k)
    ensures k in Summary(args).props && Summary(args).props[k] == args[i].value
  {
    if i < |args| - 1 {
      SummaryLast(args[..|args| - 1], k, i);
    }
  }

  lemma PropSaid(rest: seq<string>, k: Key, v: Option<string>)
    requires LastValue(rest, NameOf(k), v)
    ensures var props := Summary(ClassifyAll(rest)).props;
            && (k in props <==> v.Some?)
            && (v.Some? ==> props[k] == if k != Purge then v.value else if IsYes(v.value) then YES else "")
  {
    var args := ClassifyAll(rest);
    forall i | 0 <= i < |rest| ensures args[i].Prop? && args[i].key == k <==> Gives(rest[i], NameOf(k)) {
      PropsExactly(rest[i], k);
    }
    match v
    case None => SummaryProps(args, k);
    case Some(value) =>
      var i: nat :| LastGiven(rest, NameOf(k), i) && Unwrapped(rest[i][|NameOf(k)| + 1..], value);
      ValuesExactly(rest[i], k, value);
      SummaryLast(args, k, i);
  }

  /** Every key has a last value or none. */
  lemma {:induction false} LastValueExists(rest: seq<string>, key: string) returns (v: Option<string>)
    ensures LastValue(rest, key, v)
  {
    if rest == [] {
      v := None;
    } else {
      var init, last := rest[..|rest| - 1], rest[|rest| - 1];
      if Gives(last, key) {
        UnwrapUnwraps(last[|key| + 1..]);
        v := Some(Unwrap(last[|key| + 1..]));
        assert LastGiven(rest, key, |rest| - 1);
      } else {
        v := LastValueExists(init, key);
        if v.Some? {
          var i: nat :| LastGiven(init, key, i) && Unwrapped(init[i][|key| + 1..], v.value);
          assert LastGiven(rest, key, i) && rest[i] == init[i];
        }
      }
    }
  }

  // ----- The line ---------------------------------------------------------

  function Passed(flag: string, v: Option<string>): seq<string> {
    if v.Some? && v.value != "" then [flag, v.value] else []
  }

  /** Why a line is refused: an argument nobody understands, both switches, a
      property of the other command. */
  predicate Refused(rest: seq<string>, server: Option<string>, aat: Option<string>, name: Option<string>, yes: bool) {
    || (exists i :: 0 <= i < |rest| && !Understood(rest[i]))
    || (Says(rest, "install") && Says(rest, "uninstall"))
    || (Says(rest, "uninstall") && (server.Some? || aat.Some? || name.Some?))
    || (!Says(rest, "uninstall") && yes)
  }

  function Line(
    argv0: string, uninstall: bool, purge: bool, server: Option<string>, aat: Option<string>, name: Option<string>,
    quiet: bool)
    : seq<string>
  {
    [argv0, if uninstall then "uninstall" else "install"]
    + (if purge then ["--purge"] else [])
    + Passed("--control-plane-url", server) + Passed("--aat", aat) + Passed("--name", name)
    + (if quiet then ["--non-interactive"] else [])
  }

  /** The result for every argument list: refused exactly for those reasons, and
      otherwise the command the switches name, with the last values given. */
  lemma {:induction false} TranslatesExactly(
    argv0: string, rest: seq<string>, server: Option<string>, aat: Option<string>, name: Option<string>,
    purge: Option<string>)
    requires LastValue(rest, "server", server) && LastValue(rest, "aat", aat)
    requires LastValue(rest, "name", name) && LastValue(rest, "purge", purge)
    ensures var yes := purge.Some? && IsYes(purge.value);
            TranslateRest(argv0, rest) ==
            if Refused(rest, server, aat, name, yes) then None else
              Some(Line(argv0, Says(rest, "uninstall"), yes, server, aat, name, SaysOneOf(rest, QUIET)))
  {
    KeyNames();
    TranslatesByKey(argv0, rest, server, aat, name, purge);
  }

  lemma {:induction false} TranslatesByKey(
    argv0: string, rest: seq<string>, server: Option<string>, aat: Option<string>, name: Option<string>,
    purge: Option<string>)
    requires LastValue(rest, NameOf(Server), server) && LastValue(rest, NameOf(Aat), aat)
    requires LastValue(rest, NameOf(Name), name) && LastValue(rest, NameOf(Purge), purge)
    ensures var yes := purge.Some? && IsYes(purge.value);
            TranslateRest(argv0, rest) ==
            if Refused(rest, server, aat, name, yes) then None else
              Some(Line(argv0, Says(rest, "uninstall"), yes, server, aat, name, SaysOneOf(rest, QUIET)))
  {
    var o := OptionsSaid(rest, server, aat, name, purge);
    FinishExactly(argv0, o, server, aat, name);
  }

  lemma OptionsSaid(
    rest: seq<string>, server: Option<string>, aat: Option<string>, name: Option<string>, purge: Option<string>)
    returns (o: Options)
    requires LastValue(rest, NameOf(Server), server) && LastValue(rest, NameOf(Aat), aat)
    requires LastValue(rest, NameOf(Name), name) && LastValue(rest, NameOf(Purge), purge)
    ensures forall argv0 :: TranslateRest(argv0, rest) ==
              if exists i :: 0 <= i < |rest| && !Understood(rest[i]) then None else Finish(argv0, o)
    ensures (o.install <==> Says(rest, "install")) && (o.uninstall <==> Says(rest, "uninstall"))
    ensures (o.quiet <==> SaysOneOf(rest, QUIET)) && (WantsPurge(o) <==> purge.Some? && IsYes(purge.value))
    ensures (Server in o.props <==> server.Some?) && (server.Some? ==> o.props[Server] == server.value)
    ensures (Aat in o.props <==> aat.Some?) && (aat.Some? ==> o.props[Aat] == aat.value)
    ensures (Name in o.props <==> name.Some?) && (name.Some? ==> o.props[Name] == name.value)
  {
    o := Summary(ClassifyAll(rest));
    SwitchesSaid(rest);
    SummaryFlags(ClassifyAll(rest));
    PropSaid(rest, Server, server);
    PropSaid(rest, Aat, aat);
    PropSaid(rest, Name, name);
    PropSaid(rest, Purge, purge);
  }

  lemma FinishExactly(argv0: string, o: Options, server: Option<string>, aat: Option<string>, name: Option<string>)
    requires (Server in o.props <==> server.Some?) && (server.Some? ==> o.props[Server] == server.value)
    requires (Aat in o.props <==> aat.Some?) && (aat.Some? ==> o.props[Aat] == aat.value)
    requires (Name in o.props <==> name.Some?) && (name.Some? ==> o.props[Name] == name.value)
    ensures Finish(argv0, o) ==
            if || (o.install && o.uninstall)
               || (o.uninstall && (server.Some? || aat.Some? || name.Some?))
               || (!o.uninstall && WantsPurge(o))
            then None else Some(Line(argv0, o.uninstall, WantsPurge(o), server, aat, name, o.quiet))
  {
    var quiet := if o.quiet then ["--non-interactive"] else [];
    var x, y, z := Passed("--control-plane-url", server), Passed("--aat", aat), Passed("--name", name);
    assert x == Flag(o, "--control-plane-url", Server);
    assert y == Flag(o, "--aat", Aat);
    assert z == Flag(o, "--name", Name);
    if o.uninstall {
      var head := [argv0, "uninstall"] + (if WantsPurge(o) then ["--purge"] else []);
      assert server.None? && aat.None? && name.None? ==> head + x + y + z == head;
    } else {
      Regroup([argv0, "install"], x, y, z, quiet);
    }
  }

  lemma Regroup(head: seq<string>, x: seq<string>, y: seq<string>, z: seq<string>, tail: seq<string>)
    ensures head + [] + x + y + z + tail == head + (x + (y + (z + tail)))
  {
  }
}
