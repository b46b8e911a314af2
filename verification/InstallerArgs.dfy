/** Installer-style arguments (`/install /quiet SERVER=... AAT=...`) rewritten
    into the ordinary subcommands. */
module InstallerArgs {
  import opened Text

  // ----- One argument -----------------------------------------------------

  datatype Key = Server | Aat | Name | Purge

  datatype Arg = Install | Uninstall | Quiet | Ignored | Prop(key: Key, value: string) | Bad

  function TrimQuotesStart(s: string): string {
    if s != [] && s[0] == '"' then TrimQuotesStart(s[1..]) else s
  }

  function TrimQuotesEnd(s: string): string {
    if s != [] && s[|s| - 1] == '"' then TrimQuotesEnd(s[..|s| - 1]) else s
  }

  function Switch(name: string): Arg {
    if name == "install" then Install
    else if name == "uninstall" then Uninstall
    else if name in ["quiet", "silent", "passive", "q", "qn"] then Quiet
    else if name in ["norestart", "forcerestart", "promptrestart"] then Ignored
    else Bad
  }

  const YES := "1"

  /** `KEY=value`, the key in any case. `PURGE` keeps only whether it says yes. */
  function Property(arg: string): Arg {
    match SplitOnce(arg, '=')
    case None => Bad
    case Some((key, raw)) =>
      var value := TrimQuotesEnd(TrimQuotesStart(Trim(raw)));
      var key := Lower(key);
      if key == "server" then Prop(Server, value)
      else if key == "aat" then Prop(Aat, value)
      else if key == "name" then Prop(Name, value)
      else if key == "purge" then Prop(Purge, if value in ["1", "true", "yes"] then YES else "")
      else Bad
  }

  function Classify(arg: string): (r: Arg)
    ensures r.Prop? && r.key == Purge ==> r.value == YES || r.value == ""
  {
    if arg != [] && arg[0] == '/' then Switch(Lower(arg[1..])) else Property(arg)
  }

  // ----- The whole line ---------------------------------------------------

  datatype Options = Options(install: bool, uninstall: bool, quiet: bool, props: map<Key, string>)

  const START := Options(false, false, false, map[])

  function Apply(o: Options, a: Arg): Options {
    match a
    case Install => o.(install := true)
    case Uninstall => o.(uninstall := true)
    case Quiet => o.(quiet := true)
    case Prop(k, v) => o.(props := o.props[k := v])
    case _ => o
  }

  function ClassifyAll(rest: seq<string>): (r: seq<Arg>)
    ensures |r| == |rest| && forall i :: 0 <= i < |rest| ==> r[i] == Classify(rest[i])
  {
    seq(|rest|, i requires 0 <= i < |rest| => Classify(rest[i]))
  }

  /** The options after all arguments, the last value of a property winning. */
  function Summary(args: seq<Arg>): Options {
    if args == [] then START else Apply(Summary(args[..|args| - 1]), args[|args| - 1])
  }

  predicate WantsPurge(o: Options) { Purge in o.props && o.props[Purge] == YES }

  function Flag(o: Options, flag: string, k: Key): seq<string> {
    if k in o.props && o.props[k] != "" then [flag, o.props[k]] else []
  }

  function Finish(argv0: string, o: Options): Option<seq<string>> {
    var quiet := if o.quiet then ["--non-interactive"] else [];
    if o.install && o.uninstall then None
    else if o.uninstall then
      if Server in o.props || Aat in o.props || Name in o.props then None
      else Some([argv0, "uninstall"] + (if WantsPurge(o) then ["--purge"] else []) + quiet)
    else if WantsPurge(o) then None
    else Some([argv0, "install"]
              + (Flag(o, "--control-plane-url", Server) + (Flag(o, "--aat", Aat) + (Flag(o, "--name", Name) + quiet))))
  }

  /** One argument that is not understood refuses the whole line. */
  function TranslateArgs(argv0: string, args: seq<Arg>): Option<seq<string>> {
    if Bad in args then None else Finish(argv0, Summary(args))
  }

  function TranslateRest(argv0: string, rest: seq<string>): Option<seq<string>> {
    TranslateArgs(argv0, ClassifyAll(rest))
  }

  method ComputeTranslateRest(argv0: string, rest: seq<string>) returns (r: Option<seq<string>>)
    ensures r == TranslateRest(argv0, rest)
  {
    var o := START;
    ghost var args := ClassifyAll(rest);
    for i := 0 to |rest|
      invariant Bad !in args[..i] && o == Summary(args[..i])
    {
      var a := Classify(rest[i]);
      SummaryNext(args, i);
      if a == Bad {
        return None;
      }
      o := Apply(o, a);
    }
    assert args[..|rest|] == args;
    r := Finish(argv0, o);
  }

  lemma SummaryNext(args: seq<Arg>, i: nat)
    requires i < |args|
    ensures Summary(args[..i + 1]) == Apply(Summary(args[..i]), args[i])
    ensures Bad in args[..i + 1] <==> Bad in args[..i] || args[i] == Bad
  {
    assert args[..i + 1] == args[..i] + [args[i]];
  }

  // ----- What the arguments amount to -------------------------------------

  predicate HasKey(args: seq<Arg>, k: Key) {
    exists i :: 0 <= i < |args| && args[i].Prop? && args[i].key == k
  }

  /** Each flag says whether its switch was given. */
  lemma {:induction false} SummaryFlags(args: seq<Arg>)
    ensures Summary(args).install <==> Install in args
    ensures Summary(args).uninstall <==> Uninstall in args
    ensures Summary(args).quiet <==> Quiet in args
  {
    if args == [] {
    } else {
      SummaryFlags(args[..|args| - 1]);
      assert args == args[..|args| - 1] + [args[|args| - 1]];
    }
  }

  /** A property is set when given, to one of the values given. */
  lemma {:induction false} SummaryProps(args: seq<Arg>, k: Key)
    ensures k in Summary(args).props <==> HasKey(args, k)
    ensures k in Summary(args).props ==> Prop(k, Summary(args).props[k]) in args
  {
    if args == [] {
    } else {
      var init, last := args[..|args| - 1], args[|args| - 1];
      SummaryProps(init, k);
      assert args == init + [last];
      if HasKey(init, k) {
        var i :| 0 <= i < |init| && init[i].Prop? && init[i].key == k;
        assert args[i] == init[i];
      }
      if HasKey(args, k) && !(last.Prop? && last.key == k) {
        var i :| 0 <= i < |args| && args[i].Prop? && args[i].key == k;
        assert init[i] == args[i];
      }
    }
  }

  // ----- When the order does not matter -----------------------------------

  /** Whether the value given for a key can affect the result. */
  predicate Matters(args: seq<Arg>, k: Key) {
    && !(Install in args && Uninstall in args)
    && if Uninstall in args then k == Purge && !HasKey(args, Server) && !HasKey(args, Aat) && !HasKey(args, Name)
       else k == Purge || Prop(Purge, YES) !in args
  }

  /** All values given for a key are the same. */
  ghost predicate Agree(args: seq<Arg>, k: Key) {
    forall v, w :: Prop(k, v) in args && Prop(k, w) in args ==> v == w
  }

  /** Either some argument is refused anyway, or every key whose value matters is
      given one value only; in particular when no key is repeated. */
  ghost predicate OrderSafe(args: seq<Arg>) {
    Bad in args || forall k: Key :: Matters(args, k) ==> Agree(args, k)
  }

  predicate Permuted(a: seq<string>, b: seq<string>) { multiset(a) == multiset(b) }

  ghost predicate SameMembers(a: seq<Arg>, b: seq<Arg>) { forall x :: x in a <==> x in b }

  lemma PermutedMembers(a: seq<string>, b: seq<string>)
    requires Permuted(a, b)
    ensures SameMembers(ClassifyAll(a), ClassifyAll(b))
  {
    assert forall s :: s in a <==> s in multiset(a);
    assert forall s :: s in b <==> s in multiset(b);
    MembersAreClassified(a);
    MembersAreClassified(b);
  }

  lemma MembersAreClassified(a: seq<string>)
    ensures forall x :: x in ClassifyAll(a) <==> exists s :: s in a && Classify(s) == x
  {
    var args := ClassifyAll(a);
    forall x ensures x in args <==> exists s :: s in a && Classify(s) == x {
      if x in args {
        var i :| 0 <= i < |args| && args[i] == x;
        assert a[i] in a && Classify(a[i]) == x;
      }
      if s :| s in a && Classify(s) == x {
        var i :| 0 <= i < |a| && a[i] == s;
        assert args[i] == x;
      }
    }
  }

  lemma SameMembersHaveKeys(a: seq<Arg>, b: seq<Arg>, k: Key)
    requires SameMembers(a, b)
    ensures HasKey(a, k) ==> HasKey(b, k)
  {
    if HasKey(a, k) {
      var i :| 0 <= i < |a| && a[i].Prop? && a[i].key == k;
      assert a[i] in b;
    }
  }

  /** Options that agree wherever a value matters finish alike. */
  lemma FinishAgrees(argv0: string, o: Options, p: Options)
    requires o.install == p.install && o.uninstall == p.uninstall && o.quiet == p.quiet
    requires o.props.Keys == p.props.Keys
    requires !(o.install && o.uninstall) ==>
               if o.uninstall then
                 Server !in o.props && Aat !in o.props && Name !in o.props ==> WantsPurge(o) == WantsPurge(p)
               else WantsPurge(o) == WantsPurge(p)
    requires !o.uninstall && !WantsPurge(o) ==>
               forall k :: k in o.props && k != Purge ==> o.props[k] == p.props[k]
    ensures Finish(argv0, o) == Finish(argv0, p)
  {
    if !o.uninstall && !WantsPurge(o) {
      assert Flag(o, "--control-plane-url", Server) == Flag(p, "--control-plane-url", Server);
      assert Flag(o, "--aat", Aat) == Flag(p, "--aat", Aat);
      assert Flag(o, "--name", Name) == Flag(p, "--name", Name);
    }
  }

  lemma SafeArgsFinishAlike(argv0: string, a: seq<Arg>, b: seq<Arg>)
    requires SameMembers(a, b) && Bad !in a && OrderSafe(a)
    ensures Finish(argv0, Summary(a)) == Finish(argv0, Summary(b))
  {
    var o, p := Summary(a), Summary(b);
    SummaryFlags(a);
    SummaryFlags(b);
    forall k: Key
      ensures k in o.props <==> k in p.props
      ensures k in o.props <==> HasKey(a, k)
      ensures k in o.props && Matters(a, k) ==> o.props[k] == p.props[k]
    {
      SummaryProps(a, k);
      SummaryProps(b, k);
      SameMembersHaveKeys(a, b, k);
      SameMembersHaveKeys(b, a, k);
    }
    if !o.install || !o.uninstall {
      if !o.uninstall {
        assert Matters(a, Purge);
        YesIsSeen(a);
      }
    }
    FinishAgrees(argv0, o, p);
  }

  lemma {:induction false} YesIsSeen(a: seq<Arg>)
    requires Agree(a, Purge)
    ensures Prop(Purge, YES) in a ==> WantsPurge(Summary(a))
  {
    SummaryProps(a, Purge);
    if Prop(Purge, YES) in a {
      var i :| 0 <= i < |a| && a[i] == Prop(Purge, YES);
      assert HasKey(a, Purge);
    }
  }

  lemma SafeOrderIsInvariant(argv0: string, a: seq<string>, b: seq<string>)
    requires OrderSafe(ClassifyAll(a)) && Permuted(a, b)
    ensures TranslateRest(argv0, a) == TranslateRest(argv0, b)
  {
    PermutedMembers(a, b);
    if Bad !in ClassifyAll(a) {
      SafeArgsFinishAlike(argv0, ClassifyAll(a), ClassifyAll(b));
    }
  }

  // ----- Otherwise some order changes the result --------------------------

  function FlagOf(flag: string, v: string): seq<string> { if v != "" then [flag, v] else [] }

  lemma FlagDiffers(flag: string, v: string, w: string, tail: seq<string>)
    requires v != w
    ensures FlagOf(flag, v) + tail != FlagOf(flag, w) + tail
  {
    if v != "" && w != "" {
      assert (FlagOf(flag, v) + tail)[1] == v && (FlagOf(flag, w) + tail)[1] == w;
    } else {
      assert |FlagOf(flag, v) + tail| != |FlagOf(flag, w) + tail|;
    }
  }

  lemma PrefixKeepsDifference(head: seq<string>, x: seq<string>, y: seq<string>)
    requires x != y
    ensures head + x != head + y
  {
    assert (head + x)[|head|..] == x && (head + y)[|head|..] == y;
  }

  lemma InstallLineDiffers(argv0: string, o: Options, k: Key, v: string, w: string)
    requires v != w && k != Purge && !o.uninstall && !WantsPurge(o)
    ensures Finish(argv0, o.(props := o.props[k := v])) != Finish(argv0, o.(props := o.props[k := w]))
  {
    var quiet := if o.quiet then ["--non-interactive"] else [];
    var server, aat, name := Flag(o, "--control-plane-url", Server), Flag(o, "--aat", Aat), Flag(o, "--name", Name);
    var tail: string -> seq<string> := u =>
      match k
      case Server => FlagOf("--control-plane-url", u) + (aat + (name + quiet))
      case Aat => server + (FlagOf("--aat", u) + (name + quiet))
      case _ => server + (aat + (FlagOf("--name", u) + quiet));
    forall u: string
      ensures Finish(argv0, o.(props := o.props[k := u])) == Some([argv0, "install"] + tail(u))
    {
      var p := o.(props := o.props[k := u]);
      assert Flag(p, "--control-plane-url", Server) == if k == Server then FlagOf("--control-plane-url", u) else server;
      assert Flag(p, "--aat", Aat) == if k == Aat then FlagOf("--aat", u) else aat;
      assert Flag(p, "--name", Name) == if k == Name then FlagOf("--name", u) else name;
    }
    match k {
      case Server => FlagDiffers("--control-plane-url", v, w, aat + (name + quiet));
      case Aat =>
        FlagDiffers("--aat", v, w, name + quiet);
        PrefixKeepsDifference(server, FlagOf("--aat", v) + (name + quiet), FlagOf("--aat", w) + (name + quiet));
      case Name =>
        FlagDiffers("--name", v, w, quiet);
        PrefixKeepsDifference(aat, FlagOf("--name", v) + quiet, FlagOf("--name", w) + quiet);
        PrefixKeepsDifference(server, aat + (FlagOf("--name", v) + quiet), aat + (FlagOf("--name", w) + quiet));
    }
    PrefixKeepsDifference([argv0, "install"], tail(v), tail(w));
  }

  lemma PurgeDiffers(argv0: string, o: Options, v: string, w: string)
    requires {v, w} == {YES, ""} && !(o.install && o.uninstall)
    requires o.uninstall ==> Server !in o.props && Aat !in o.props && Name !in o.props
    ensures Finish(argv0, o.(props := o.props[Purge := v])) != Finish(argv0, o.(props := o.props[Purge := w]))
  {
    assert (v == YES && w == "") || (v == "" && w == YES);
    var p, q := o.(props := o.props[Purge := v]), o.(props := o.props[Purge := w]);
    if o.uninstall {
      assert |Finish(argv0, p).value| != |Finish(argv0, q).value|;
    }
  }

  /** The arguments with those at `i` and `j` moved to the end. */
  function Others(rest: seq<string>, i: nat, j: nat): seq<string>
    requires i < j < |rest|
  {
    rest[..i] + rest[i + 1..j] + rest[j + 1..]
  }

  lemma OthersPermute(rest: seq<string>, i: nat, j: nat)
    requires i < j < |rest|
    ensures Permuted(rest, Others(rest, i, j) + [rest[i]] + [rest[j]])
    ensures Permuted(rest, Others(rest, i, j) + [rest[j]] + [rest[i]])
  {
    assert rest == rest[..i] + [rest[i]] + rest[i + 1..j] + [rest[j]] + rest[j + 1..];
  }

  /** Of two values of one property the second counts. */
  lemma SummaryOfTwoProps(args: seq<Arg>, k: Key, v: string, w: string)
    ensures Summary(args + [Prop(k, v)] + [Prop(k, w)]) == Summary(args).(props := Summary(args).props[k := w])
  {
    assert (args + [Prop(k, v)] + [Prop(k, w)])[..|args| + 1] == args + [Prop(k, v)];
    assert (args + [Prop(k, v)])[..|args|] == args;
    assert Summary(args).props[k := v][k := w] == Summary(args).props[k := w];
  }

  /** Adding two values of one property changes nothing but that property. */
  lemma PropsLeaveTheRest(args: seq<Arg>, k: Key, v: string, w: string)
    ensures var all := args + [Prop(k, v)] + [Prop(k, w)];
            && (Summary(args).install <==> Install in all) && (Summary(args).uninstall <==> Uninstall in all)
            && (Prop(Purge, YES) !in all ==> !WantsPurge(Summary(args)))
            && forall l: Key :: l in Summary(args).props ==> HasKey(all, l)
  {
    var all := args + [Prop(k, v)] + [Prop(k, w)];
    SummaryFlags(args);
    SummaryProps(args, Purge);
    assert Prop(Purge, YES) in args ==> Prop(Purge, YES) in all;
    forall l: Key | l in Summary(args).props ensures HasKey(all, l) {
      SummaryProps(args, l);
      var i :| 0 <= i < |args| && args[i].Prop? && args[i].key == l;
      assert all[i] == args[i];
    }
  }

  lemma SwappedPropsDiffer(argv0: string, args: seq<Arg>, k: Key, v: string, w: string)
    requires Matters(args + [Prop(k, v)] + [Prop(k, w)], k)
    requires v != w && (k == Purge ==> {v, w} == {YES, ""})
    ensures Finish(argv0, Summary(args + [Prop(k, v)] + [Prop(k, w)])) !=
            Finish(argv0, Summary(args + [Prop(k, w)] + [Prop(k, v)]))
  {
    SummaryOfTwoProps(args, k, v, w);
    SummaryOfTwoProps(args, k, w, v);
    PropsLeaveTheRest(args, k, v, w);
    if k == Purge {
      PurgeDiffers(argv0, Summary(args), v, w);
    } else {
      InstallLineDiffers(argv0, Summary(args), k, v, w);
    }
  }

  lemma ClassifyOthers(rest: seq<string>, i: nat, j: nat)
    requires i < j < |rest|
    ensures ClassifyAll(Others(rest, i, j) + [rest[i]] + [rest[j]]) ==
            ClassifyAll(Others(rest, i, j)) + [Classify(rest[i])] + [Classify(rest[j])]
    ensures ClassifyAll(Others(rest, i, j) + [rest[j]] + [rest[i]]) ==
            ClassifyAll(Others(rest, i, j)) + [Classify(rest[j])] + [Classify(rest[i])]
  {
  }

  lemma SameMembersMatter(a: seq<Arg>, b: seq<Arg>, k: Key)
    requires SameMembers(a, b) && Matters(a, k)
    ensures Matters(b, k)
  {
    SameMembersHaveKeys(b, a, Server);
    SameMembersHaveKeys(b, a, Aat);
    SameMembersHaveKeys(b, a, Name);
  }

  /** Two different values for a key that matters: the order of those two
      arguments changes the result. */
  lemma UnsafeOrderVaries(argv0: string, rest: seq<string>, k: Key, i: nat, j: nat)
    requires i < j < |rest| && Bad !in ClassifyAll(rest) && Matters(ClassifyAll(rest), k)
    requires Classify(rest[i]).Prop? && Classify(rest[j]).Prop?
    requires Classify(rest[i]).key == k && Classify(rest[j]).key == k
    requires Classify(rest[i]).value != Classify(rest[j]).value
    ensures TranslateRest(argv0, Others(rest, i, j) + [rest[i]] + [rest[j]]) !=
            TranslateRest(argv0, Others(rest, i, j) + [rest[j]] + [rest[i]])
  {
    var a := Others(rest, i, j) + [rest[i]] + [rest[j]];
    var b := Others(rest, i, j) + [rest[j]] + [rest[i]];
    OthersPermute(rest, i, j);
    PermutedMembers(rest, a);
    PermutedMembers(rest, b);
    SameMembersMatter(ClassifyAll(rest), ClassifyAll(a), k);
    ClassifyOthers(rest, i, j);
    SwappedPropsDiffer(argv0, ClassifyAll(Others(rest, i, j)), k, Classify(rest[i]).value, Classify(rest[j]).value);
  }

  /** Every ordering of the arguments gives the same command line, or every
      ordering an error, exactly when the arguments are `OrderSafe`. */
  lemma OrderIrrelevantExactly(argv0: string, rest: seq<string>)
    ensures (forall other: seq<string> :: Permuted(rest, other) ==>
                                            TranslateRest(argv0, other) == TranslateRest(argv0, rest))
            <==> OrderSafe(ClassifyAll(rest))
  {
    if OrderSafe(ClassifyAll(rest)) {
      forall other: seq<string> | Permuted(rest, other)
        ensures TranslateRest(argv0, other) == TranslateRest(argv0, rest)
      {
        SafeOrderIsInvariant(argv0, rest, other);
      }
    } else {
      var a, b := ConflictingOrders(rest);
      assert TranslateRest(argv0, a) != TranslateRest(argv0, b);
    }
  }

  lemma ConflictingOrders(rest: seq<string>) returns (a: seq<string>, b: seq<string>)
    requires !OrderSafe(ClassifyAll(rest))
    ensures Permuted(rest, a) && Permuted(rest, b)
    ensures forall argv0 :: TranslateRest(argv0, a) != TranslateRest(argv0, b)
  {
    var k, i, j := ConflictingPair(ClassifyAll(rest));
    a := Others(rest, i, j) + [rest[i]] + [rest[j]];
    b := Others(rest, i, j) + [rest[j]] + [rest[i]];
    OthersPermute(rest, i, j);
    forall argv0 ensures TranslateRest(argv0, a) != TranslateRest(argv0, b) {
      UnsafeOrderVaries(argv0, rest, k, i, j);
    }
  }

  lemma ConflictingPair(args: seq<Arg>) returns (k: Key, i: nat, j: nat)
    requires !OrderSafe(args)
    ensures i < j < |args| && Matters(args, k)
    ensures args[i].Prop? && args[j].Prop? && args[i].key == k == args[j].key && args[i].value != args[j].value
  {
    k :| Matters(args, k) && !Agree(args, k);
    var v, w :| Prop(k, v) in args && Prop(k, w) in args && v != w;
    var m :| 0 <= m < |args| && args[m] == Prop(k, v);
    var n :| 0 <= n < |args| && args[n] == Prop(k, w);
    i, j := if m < n then m else n, if m < n then n else m;
  }

  /** No property key given twice. */
  predicate NoRepeatedKey(args: seq<Arg>) {
    forall i, j :: 0 <= i < j < |args| && args[i].Prop? && args[j].Prop? ==> args[i].key != args[j].key
  }

  /** In particular, without a repeated key the order never matters. */
  lemma UnrepeatedKeysAreOrderSafe(args: seq<Arg>)
    requires NoRepeatedKey(args)
    ensures OrderSafe(args)
  {
    forall k: Key, v, w | Prop(k, v) in args && Prop(k, w) in args ensures v == w {
      var i :| 0 <= i < |args| && args[i] == Prop(k, v);
      var j :| 0 <= j < |args| && args[j] == Prop(k, w);
      assert i == j;
    }
  }
}
