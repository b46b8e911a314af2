/** In-place self-update: version comparison, the staged check-then-rename
    installation, and what holds over any run of updates and restarts. */
module SelfUpdate {
  import opened Text

  // ----- Versions ---------------------------------------------------------

  datatype Version = Version(major: nat, minor: nat, patch: nat) {
    predicate Less(other: Version) {
      || major < other.major
      || (major == other.major && minor < other.minor)
      || (major == other.major && minor == other.minor && patch < other.patch)
    }
  }

  const U64_LIMIT := 0x1_0000_0000_0000_0000

  predicate AllDigits(s: string) { forall i :: 0 <= i < |s| ==> IsDigit(s[i]) }

  function DigitsValue(s: string): nat
    requires AllDigits(s)
  {
    if s == [] then 0 else DigitsValue(s[..|s| - 1]) * 10 + (s[|s| - 1] as int - 48)
  }

  /** `u64::from_str` on text without a sign. */
  function ParseU64(s: string): Option<nat> {
    if s == [] || !AllDigits(s) || DigitsValue(s) >= U64_LIMIT then None else Some(DigitsValue(s))
  }

  function TrimV(s: string): string { if s != [] && s[0] == 'v' then TrimV(s[1..]) else s }

  /** Up to the first `-` or `+`. */
  function Core(s: string): string {
    if s == [] || s[0] == '-' || s[0] == '+' then [] else [s[0]] + Core(s[1..])
  }

  function ParseVersion(s: string): Option<Version> {
    var core := Core(TrimV(Trim(s)));
    match SplitOnce(core, '.')
    case None => None
    case Some((major, rest)) =>
      match SplitOnce(rest, '.')
      case None => None
      case Some((minor, patch)) =>
        match (ParseU64(major), ParseU64(minor), ParseU64(patch))
        case (Some(a), Some(b), Some(c)) => Some(Version(a, b, c))
        case _ => None
  }

  /** Refused only when both versions are readable and the target is older. */
  predicate IsDowngrade(running: string, target: string) {
    && ParseVersion(running).Some? && ParseVersion(target).Some?
    && ParseVersion(target).value.Less(ParseVersion(running).value)
  }

  /** The last word of the first line. */
  function LastWord(stdout: string): (r: Option<string>)
    ensures r.Some? ==> IsWord(r.value)
  {
    var lines := Lines(stdout);
    if lines == [] || Tokens(lines[0]) == [] then None
    else Some(Tokens(lines[0])[|Tokens(lines[0])| - 1])
  }

  /** The last word of the first line, when it is a version. */
  function ReportedVersion(stdout: string): Option<string> {
    match LastWord(stdout)
    case None => None
    case Some(word) => if ParseVersion(word).Some? then Some(TrimV(word)) else None
  }

  // ----- Which texts are versions -----------------------------------------

  predicate IsNumber(s: string, n: nat) {
    s != [] && AllDigits(s) && DigitsValue(s) == n < U64_LIMIT
  }

  /** Any number of `v`s, three numbers between dots, and nothing or a suffix
      after `-` or `+`. */
  predicate Spells(t: string, v: Version, vs: string, a: string, b: string, c: string, suffix: string) {
    && t == vs + (a + "." + (b + "." + c) + suffix) && (forall i :: 0 <= i < |vs| ==> vs[i] == 'v')
    && IsNumber(a, v.major) && IsNumber(b, v.minor) && IsNumber(c, v.patch)
    && (suffix == [] || suffix[0] == '-' || suffix[0] == '+')
  }

  /** A text is read as a version exactly when, trimmed, it spells it. */
  lemma ParseVersionExactly(s: string, v: Version)
    ensures ParseVersion(s) == Some(v) <==> exists vs, a, b, c, suffix :: Spells(Trim(s), v, vs, a, b, c, suffix)
  {
    if ParseVersion(s) == Some(v) {
      var t := Trim(s);
      var vs := TrimVParts(t);
      var suffix := CoreParts(TrimV(t));
      var (a, rest) := SplitOnce(Core(TrimV(t)), '.').value;
      var (b, c) := SplitOnce(rest, '.').value;
      assert Spells(t, v, vs, a, b, c, suffix);
    }
    if vs, a, b, c, suffix :| Spells(Trim(s), v, vs, a, b, c, suffix) {
      SpelledIsRead(s, v, vs, a, b, c, suffix);
    }
  }

  lemma {:induction false} TrimVParts(s: string) returns (vs: string)
    ensures s == vs + TrimV(s) && forall i :: 0 <= i < |vs| ==> vs[i] == 'v'
  {
    if s != [] && s[0] == 'v' {
      var rest := TrimVParts(s[1..]);
      vs := [s[0]] + rest;
    } else {
      vs := [];
    }
  }

  lemma {:induction false} CoreParts(s: string) returns (suffix: string)
    ensures s == Core(s) + suffix && (suffix == [] || suffix[0] == '-' || suffix[0] == '+')
  {
    if s == [] || s[0] == '-' || s[0] == '+' {
      suffix := s;
    } else {
      suffix := CoreParts(s[1..]);
    }
  }

  lemma SpelledIsRead(s: string, v: Version, vs: string, a: string, b: string, c: string, suffix: string)
    requires Spells(Trim(s), v, vs, a, b, c, suffix)
    ensures ParseVersion(s) == Some(v)
  {
    var core := a + "." + (b + "." + c);
    assert core[0] == a[0];
    DigitsLack(a);
    DigitsLack(b);
    DigitsLack(c);
    TrimVs(vs, core + suffix);
    CorePlain(core, suffix);
    SplitOnceAt(a, '.', b + "." + c);
    SplitOnceAt(b, '.', c);
  }

  lemma DigitsLack(s: string)
    requires AllDigits(s)
    ensures '.' !in s && '-' !in s && '+' !in s && 'v' !in s
  {
  }

  // ----- Reading back a printed version -----------------------------------

  function Print(v: Version): string {
    Decimal(v.major) + "." + (Decimal(v.minor) + "." + Decimal(v.patch))
  }

  lemma {:induction false} DigitsOfDecimal(n: nat)
    ensures DigitsValue(Decimal(n)) == n
  {
    var d := Decimal(n);
    if n >= 10 {
      assert d[..|d| - 1] == Decimal(n / 10);
      DigitsOfDecimal(n / 10);
    } else {
      assert d[..|d| - 1] == [];
    }
  }

  lemma {:induction false} CorePlain(s: string, rest: string)
    requires '-' !in s && '+' !in s
    requires rest == [] || rest[0] == '-' || rest[0] == '+'
    ensures Core(s + rest) == s
  {
    if s == [] {
      assert s + rest == rest;
    } else {
      assert (s + rest)[1..] == s[1..] + rest;
      CorePlain(s[1..], rest);
    }
  }

  lemma {:induction false} TrimVs(vs: string, s: string)
    requires forall i :: 0 <= i < |vs| ==> vs[i] == 'v'
    requires s != [] && s[0] != 'v'
    ensures TrimV(vs + s) == s
  {
    if vs == [] {
      assert vs + s == s;
    } else {
      assert (vs + s)[1..] == vs[1..] + s;
      TrimVs(vs[1..], s);
    }
  }

  lemma PrintShape(v: Version)
    ensures Print(v) != [] && IsDigit(Print(v)[0])
    ensures forall i :: 0 <= i < |Print(v)| ==> IsDigit(Print(v)[i]) || Print(v)[i] == '.'
  {
  }

  lemma ParsePrinted(v: Version)
    requires v.major < U64_LIMIT && v.minor < U64_LIMIT && v.patch < U64_LIMIT
    ensures var s := SplitOnce(Print(v), '.');
            && s == Some((Decimal(v.major), Decimal(v.minor) + "." + Decimal(v.patch)))
            && SplitOnce(s.value.1, '.') == Some((Decimal(v.minor), Decimal(v.patch)))
    ensures ParseU64(Decimal(v.major)) == Some(v.major)
    ensures ParseU64(Decimal(v.minor)) == Some(v.minor)
    ensures ParseU64(Decimal(v.patch)) == Some(v.patch)
  {
    DigitsNoDot(v.major);
    DigitsNoDot(v.minor);
    SplitOnceAt(Decimal(v.major), '.', Decimal(v.minor) + "." + Decimal(v.patch));
    SplitOnceAt(Decimal(v.minor), '.', Decimal(v.patch));
    DigitsOfDecimal(v.major);
    DigitsOfDecimal(v.minor);
    DigitsOfDecimal(v.patch);
  }

  lemma DigitsNoDot(n: nat)
    ensures '.' !in Decimal(n)
  {
    assert forall i :: 0 <= i < |Decimal(n)| ==> Decimal(n)[i] != '.';
  }

  /** Any number of leading `v`s and any `-` or `+` suffix leave the version. */
  lemma ParseVersionReadsPrinted(v: Version, vs: string, suffix: string)
    requires v.major < U64_LIMIT && v.minor < U64_LIMIT && v.patch < U64_LIMIT
    requires forall i :: 0 <= i < |vs| ==> vs[i] == 'v'
    requires suffix == [] || ((suffix[0] == '-' || suffix[0] == '+') && !IsWhitespace(suffix[|suffix| - 1]))
    ensures ParseVersion(vs + (Print(v) + suffix)) == Some(v)
  {
    var s := Print(v) + suffix;
    PrintShape(v);
    var all := vs + s;
    assert Trimmed(all) by {
      assert all[0] == (if vs == [] then Print(v)[0] else 'v');
      assert all[|all| - 1] == (if suffix == [] then Print(v)[|Print(v)| - 1] else suffix[|suffix| - 1]);
    }
    TrimFixed(all);
    TrimVs(vs, s);
    CorePlain(Print(v), suffix);
    ParsePrinted(v);
  }

  lemma {:induction false} TrimVAgain(s: string)
    ensures TrimV(TrimV(s)) == TrimV(s)
  {
    if s != [] && s[0] == 'v' {
      TrimVAgain(s[1..]);
    }
  }

  lemma {:induction false} TrimVIsWord(s: string)
    requires forall i :: 0 <= i < |s| ==> !IsWhitespace(s[i])
    ensures forall i :: 0 <= i < |TrimV(s)| ==> !IsWhitespace(TrimV(s)[i])
  {
    if s != [] && s[0] == 'v' {
      TrimVIsWord(s[1..]);
    }
  }

  lemma WordWithoutV(word: string)
    requires IsWord(word)
    ensures ParseVersion(TrimV(word)) == ParseVersion(word)
  {
    TrimFixed(word);
    TrimVIsWord(word);
    TrimFixed(TrimV(word));
    TrimVAgain(word);
  }

  /** A reported version string is itself readable, as the version reported. */
  lemma ReportedIsReadable(stdout: string)
    requires ReportedVersion(stdout).Some?
    ensures ParseVersion(ReportedVersion(stdout).value).Some?
  {
    WordWithoutV(LastWord(stdout).value);
  }

  // ----- Installing -------------------------------------------------------

  /** A binary, by what it prints for `--version`. */
  datatype Binary = Binary(stdout: string)

  /** Outcomes of the installation's commands: copying to the staged path,
      setting its permissions, the staged binary answering in time, the rename
      over the installed path, and scheduling the restart. */
  datatype Env = Env(copied: bool, hardened: bool, answered: bool, renamed: bool, scheduled: bool)

  /** The running agent's version, the binary at the installed path, and the
      staged copy beside it. */
  datatype State = State(running: string, target: Binary, staged: Option<Binary>)

  predicate PassesCheck(running: string, b: Binary, env: Env) {
    && env.answered && ReportedVersion(b.stdout).Some?
    && !IsDowngrade(running, ReportedVersion(b.stdout).value)
  }

  class AgentHost {
    var running: string
    var target: Binary
    var staged: Option<Binary>

    ghost function View(): State reads this { State(running, target, staged) }

    constructor (running: string, target: Binary)
      ensures View() == State(running, target, None)
    {
      this.running, this.target, staged := running, target, None;
    }

    /** `install_and_restart` on Unix. */
    method InstallAndRestart(b: Binary, env: Env) returns (ok: bool)
      modifies this`target, this`staged
      ensures (View(), ok) == InstallSpec(old(View()), b, env)
    {
      if !env.copied {
        return false;
      }
      staged := Some(b);
      if !env.hardened {
        return false;
      }
      if !PassesCheck(running, b, env) {
        staged := None;
        return false;
      }
      if !env.renamed {
        return false;
      }
      target, staged := b, None;
      ok := env.scheduled;
    }

    method SelfUpdate(tag: string, b: Binary, env: Env) returns (ok: bool)
      modifies this`target, this`staged
      ensures (View(), ok) == UpdateSpec(old(View()), tag, b, env)
    {
      if !IsPlausibleVersion(tag) || IsDowngrade(running, tag) {
        return false;
      }
      ok := InstallAndRestart(b, env);
    }

    /** The service manager starts whatever is at the installed path. */
    method Restart()
      modifies this
      ensures View() == RestartSpec(old(View()))
    {
      var reported := ReportedVersion(target.stdout);
      if reported.Some? {
        running := reported.value;
      }
    }
  }

  predicate IsPlausibleVersion(tag: string) {
    && tag != [] && |tag| <= 64
    && (forall i :: 0 <= i < |tag| - 1 ==> !(tag[i] == '.' && tag[i + 1] == '.'))
    && forall i :: 0 <= i < |tag| ==> IsAlphanumeric(tag[i]) || tag[i] in ".-+"
  }

  function InstallSpec(s: State, b: Binary, env: Env): (State, bool) {
    if !env.copied then (s, false)
    else if !env.hardened then (s.(staged := Some(b)), false)
    else if !PassesCheck(s.running, b, env) then (s.(staged := None), false)
    else if !env.renamed then (s.(staged := Some(b)), false)
    else (s.(target := b, staged := None), env.scheduled)
  }

  function UpdateSpec(s: State, tag: string, b: Binary, env: Env): (State, bool) {
    if !IsPlausibleVersion(tag) || IsDowngrade(s.running, tag) then (s, false) else InstallSpec(s, b, env)
  }

  function RestartSpec(s: State): State {
    var reported := ReportedVersion(s.target.stdout);
    if reported.Some? then s.(running := reported.value) else s
  }

  // ----- Over whole runs --------------------------------------------------

  // ----- What one update does ---------------------------------------------

  /** One number for a version, in base 2^64. */
  function Rank(v: Version): nat { (v.major * U64_LIMIT + v.minor) * U64_LIMIT + v.patch }

  /** Versions that can be read compare as those numbers do. */
  lemma LessExactly(v: Version, w: Version)
    requires Fits(v) && Fits(w)
    ensures v.Less(w) <==> Rank(v) < Rank(w)
  {
    var a, b := v.major * U64_LIMIT + v.minor, w.major * U64_LIMIT + w.minor;
    assert a < b ==> (a + 1) * U64_LIMIT <= b * U64_LIMIT;
    assert b < a ==> (b + 1) * U64_LIMIT <= a * U64_LIMIT;
  }

  predicate Fits(v: Version) { v.major < U64_LIMIT && v.minor < U64_LIMIT && v.patch < U64_LIMIT }

  /** Both can be read and the first is strictly older. */
  predicate Older(candidate: string, running: string) {
    && ParseVersion(candidate).Some? && ParseVersion(running).Some?
    && Rank(ParseVersion(candidate).value) < Rank(ParseVersion(running).value)
  }

  lemma OlderExactly(candidate: string, running: string)
    ensures Older(candidate, running) <==> IsDowngrade(running, candidate)
  {
    if ParseVersion(candidate).Some? && ParseVersion(running).Some? {
      LessExactly(ParseVersion(candidate).value, ParseVersion(running).value);
    }
  }

  /** The outcome of every update. A tag that is implausible or older is refused
      before anything is touched. The new binary is installed exactly when it was
      staged, hardened, answers with a version that is not older, and could be
      renamed; a binary that fails that check is not left staged. */
  lemma UpdateExactly(s: State, tag: string, b: Binary, env: Env)
    ensures var (after, ok) := UpdateSpec(s, tag, b, env);
            var admitted := IsPlausibleVersion(tag) && !Older(tag, s.running);
            var checked := && env.answered && ReportedVersion(b.stdout).Some?
                           && !Older(ReportedVersion(b.stdout).value, s.running);
            var installed := admitted && env.copied && env.hardened && checked && env.renamed;
            && (!admitted ==> after == s)
            && (ok <==> installed && env.scheduled)
            && after.running == s.running
            && after.target == (if installed then b else s.target)
            && after.staged == (if !admitted || !env.copied then s.staged
                                else if env.hardened && (!checked || env.renamed) then None else Some(b))
  {
    OlderExactly(tag, s.running);
    if ReportedVersion(b.stdout).Some? {
      OlderExactly(ReportedVersion(b.stdout).value, s.running);
    }
  }

  /** Every release tag the agent can read is plausible, with its `v` or not. */
  lemma PrintedIsPlausible(v: Version)
    requires Fits(v)
    ensures IsPlausibleVersion(Print(v)) && IsPlausibleVersion("v" + Print(v))
  {
    PrintShape(v);
    LimitHasTwentyDigits();
    DecimalLength(v.major, 20);
    DecimalLength(v.minor, 20);
    DecimalLength(v.patch, 20);
    NumbersApart(Decimal(v.major), Decimal(v.minor), Decimal(v.patch));
    WithV(Print(v));
  }

  lemma NumbersApart(x: string, y: string, z: string)
    requires AllDigits(x) && AllDigits(y) && AllDigits(z) && y != [] && z != []
    ensures var t := x + "." + (y + "." + z);
            forall i :: 0 <= i < |t| - 1 ==> !(t[i] == '.' && t[i + 1] == '.')
  {
    var t := x + "." + (y + "." + z);
    assert forall i :: 0 <= i < |x| ==> t[i] == x[i];
    assert forall i :: 0 <= i < |y| ==> t[|x| + 1 + i] == y[i];
    assert forall i :: 0 <= i < |z| ==> t[|x| + 2 + |y| + i] == z[i];
  }

  lemma WithV(tag: string)
    requires IsPlausibleVersion(tag) && |tag| < 64
    ensures IsPlausibleVersion("v" + tag)
  {
    assert forall i :: 0 <= i < |tag| ==> ("v" + tag)[i + 1] == tag[i];
  }

  function Pow10(k: nat): nat { if k == 0 then 1 else 10 * Pow10(k - 1) }

  lemma LimitHasTwentyDigits()
    ensures U64_LIMIT <= Pow10(20)
  {
    assert Pow10(5) == 100_000;
    assert Pow10(10) == 100_000 * Pow10(5);
    assert Pow10(15) == 100_000 * Pow10(10);
    assert Pow10(20) == 100_000 * Pow10(15);
  }

  lemma {:induction false} DecimalLength(n: nat, k: nat)
    requires n < Pow10(k) && k > 0
    ensures |Decimal(n)| <= k
  {
    if n >= 10 {
      DecimalLength(n / 10, k - 1);
    }
  }

  datatype Event = Update(tag: string, binary: Binary, env: Env) | Restart

  function Step(s: State, e: Event): State {
    match e
    case Update(tag, b, env) => UpdateSpec(s, tag, b, env).0
    case Restart => RestartSpec(s)
  }

  function Run(s: State, events: seq<Event>): State
    decreases |events|
  {
    if events == [] then s else Run(Step(s, events[0]), events[1..])
  }

  function InstalledVersion(s: State): Option<Version> {
    match ReportedVersion(s.target.stdout)
    case None => None
    case Some(v) => ParseVersion(v)
  }

  /** What every step keeps: both versions are readable and the installed one is
      not older than the running one. */
  predicate Sound(s: State) {
    && ParseVersion(s.running).Some? && InstalledVersion(s).Some?
    && !InstalledVersion(s).value.Less(ParseVersion(s.running).value)
  }

  lemma LastWordOfLine(name: string, word: string, rest: string)
    requires IsWord(name) && IsWord(word)
    ensures LastWord(name + " " + word + "\n" + rest) == Some(word)
  {
    var line := name + " " + word;
    assert line[|line| - 1] == word[|word| - 1];
    LinesCons(line, rest);
    TokensSplit(name, ' ', word);
    TokensOfWord(name);
    TokensOfWord(word);
  }

  /** A binary that prints its name and version, whatever follows on later
      lines, reports that version. */
  lemma PrintedIsReported(name: string, v: Version, rest: string)
    requires IsWord(name) && v.major < U64_LIMIT && v.minor < U64_LIMIT && v.patch < U64_LIMIT
    ensures ReportedVersion(name + " " + Print(v) + "\n" + rest) == Some(Print(v))
    ensures ParseVersion(Print(v)) == Some(v)
  {
    PrintIsWord(v);
    LastWordOfLine(name, Print(v), rest);
    ParseVersionReadsPrinted(v, "", "");
    assert "" + (Print(v) + "") == Print(v);
  }

  lemma PrintIsWord(v: Version)
    ensures IsWord(Print(v)) && TrimV(Print(v)) == Print(v)
  {
    var a, b, c := Decimal(v.major), Decimal(v.minor), Decimal(v.patch);
    WordConcat(b, ".");
    WordConcat(b + ".", c);
    WordConcat(a, ".");
    WordConcat(a + ".", b + "." + c);
  }

  /** The invariant holds to begin with: an agent running what is installed. */
  lemma FreshInstallIsSound(name: string, v: Version, rest: string)
    requires IsWord(name) && v.major < U64_LIMIT && v.minor < U64_LIMIT && v.patch < U64_LIMIT
    ensures Sound(State(Print(v), Binary(name + " " + Print(v) + "\n" + rest), None))
  {
    PrintedIsReported(name, v, rest);
  }

  lemma UpdateKeepsSound(s: State, tag: string, b: Binary, env: Env)
    requires Sound(s)
    ensures var after := UpdateSpec(s, tag, b, env).0;
            && Sound(after) && after.running == s.running
            && (after.target != s.target ==>
                  PassesCheck(s.running, b, env) && env.renamed && after.target == b)
  {
    if PassesCheck(s.running, b, env) {
      ReportedIsReadable(b.stdout);
    }
  }

  lemma RestartKeepsSound(s: State)
    requires Sound(s)
    ensures Sound(RestartSpec(s)) && RestartSpec(s).target == s.target
    ensures !ParseVersion(RestartSpec(s).running).value.Less(ParseVersion(s.running).value)
  {
  }

  /** A restart runs what is installed and changes nothing else. */
  lemma RestartExactly(s: State)
    requires Sound(s)
    ensures ParseVersion(RestartSpec(s).running) == InstalledVersion(s)
    ensures RestartSpec(s) == s.(running := RestartSpec(s).running)
  {
  }

  /** Each step keeps the invariant, never lowers the running version, and
      changes the installed path only for a binary that passed the check. */
  lemma StepKeepsSound(s: State, e: Event)
    requires Sound(s)
    ensures Sound(Step(s, e))
    ensures !ParseVersion(Step(s, e).running).value.Less(ParseVersion(s.running).value)
    ensures Step(s, e).target != s.target ==>
              && e.Update? && PassesCheck(s.running, e.binary, e.env) && e.env.renamed
              && Step(s, e).target == e.binary
  {
    match e
    case Update(tag, b, env) => UpdateKeepsSound(s, tag, b, env);
    case Restart => RestartKeepsSound(s);
  }

  /** Over every run of updates, failures and restarts, restarts missed or not,
      the installed version is never older than the running one, and the running
      version never goes back. */
  lemma {:induction false} RunNeverDowngrades(s: State, events: seq<Event>)
    requires Sound(s)
    ensures Sound(Run(s, events))
    ensures !ParseVersion(Run(s, events).running).value.Less(ParseVersion(s.running).value)
    decreases |events|
  {
    if events == [] {
    } else {
      StepKeepsSound(s, events[0]);
      RunNeverDowngrades(Step(s, events[0]), events[1..]);
    }
  }

  function Printing(name: string, v: Version): Binary { Binary(name + " " + Print(v) + "\n") }

  const ALL_GOES_WELL := Env(true, true, true, true, true)

  lemma PrintingInstalls(name: string, running: Version, v: Version, target: Binary, tag: string)
    requires IsWord(name) && Fits(running) && Fits(v) && !v.Less(running)
    requires IsPlausibleVersion(tag) && !IsDowngrade(Print(running), tag)
    ensures var after := Step(State(Print(running), target, None), Update(tag, Printing(name, v), ALL_GOES_WELL));
            after == State(Print(running), Printing(name, v), None) && InstalledVersion(after) == Some(v)
  {
    var line := name + " " + Print(v) + "\n";
    assert line + "" == line;
    PrintedIsReported(name, v, "");
    PrintedIsReported(name, running, "");
  }

  /** From a fresh install of any version: update, miss the restart, update to
      something in between. Both updates succeed, and the second takes the
      installed version back. */
  lemma MissedRestartGoesBack(
    name: string, v0: Version, v1: Version, v2: Version, tag1: string, tag2: string)
    requires IsWord(name) && Fits(v0) && Fits(v1) && Fits(v2) && v0.Less(v1) && v1.Less(v2)
    requires IsPlausibleVersion(tag1) && !IsDowngrade(Print(v0), tag1)
    requires IsPlausibleVersion(tag2) && !IsDowngrade(Print(v0), tag2)
    ensures var start := State(Print(v0), Printing(name, v0), None);
            var once := Run(start, [Update(tag2, Printing(name, v2), ALL_GOES_WELL)]);
            var twice := Step(once, Update(tag1, Printing(name, v1), ALL_GOES_WELL));
            Sound(start) && InstalledVersion(once) == Some(v2) && InstalledVersion(twice) == Some(v1)
  {
    var first := Update(tag2, Printing(name, v2), ALL_GOES_WELL);
    var line := name + " " + Print(v0) + "\n";
    assert line + "" == line;
    FreshInstallIsSound(name, v0, "");
    PrintingInstalls(name, v0, v2, Printing(name, v0), tag2);
    PrintingInstalls(name, v0, v1, Printing(name, v2), tag1);
    assert [first][0] == first && [first][1..] == [];
  }

  /** A sound state of that kind, and an update that takes its installed version
      back. */
  lemma InstalledCanGoBack() returns (s: State, e: Event)
    ensures Sound(s) && InstalledVersion(Step(s, e)).Some?
    ensures InstalledVersion(Step(s, e)).value.Less(InstalledVersion(s).value)
  {
    var name, tag := SomeNames();
    var v0, v1, v2 := SomeVersions();
    var start := State(Print(v0), Printing(name, v0), None);
    var run := [Update(tag, Printing(name, v2), ALL_GOES_WELL)];
    MissedRestartGoesBack(name, v0, v1, v2, tag, tag);
    RunNeverDowngrades(start, run);
    s, e := Run(start, run), Update(tag, Printing(name, v1), ALL_GOES_WELL);
  }

  lemma SomeVersions() returns (v0: Version, v1: Version, v2: Version)
    ensures Fits(v0) && Fits(v1) && Fits(v2) && v0.Less(v1) && v1.Less(v2)
  {
    v0, v1, v2 := Version(0, 0, 1), Version(0, 0, 2), Version(0, 0, 3);
  }

  lemma SomeNames() returns (name: string, tag: string)
    ensures IsWord(name) && IsPlausibleVersion(tag) && ParseVersion(tag) == None
  {
    name, tag := "agent", "next";
    NoDotNoVersion(tag);
  }

  lemma CoreMembers(s: string)
    ensures forall i :: 0 <= i < |Core(TrimV(s))| ==> Core(TrimV(s))[i] in s
  {
    TrimVMembers(s);
    CorePrefix(TrimV(s));
  }

  lemma {:induction false} TrimVMembers(s: string)
    ensures forall i :: 0 <= i < |TrimV(s)| ==> TrimV(s)[i] in s
  {
    if s == [] || s[0] != 'v' {
    } else {
      TrimVMembers(s[1..]);
    }
  }

  lemma {:induction false} CorePrefix(s: string)
    ensures Core(s) <= s
  {
    if s == [] || s[0] == '-' || s[0] == '+' {
    } else {
      CorePrefix(s[1..]);
    }
  }

  lemma NoDotNoVersion(s: string)
    requires '.' !in s
    ensures ParseVersion(s) == None
  {
    TrimContent(s, '.');
    CoreMembers(Trim(s));
  }

  /** The installed version, unlike the running one, can go back: an update is
      compared with the running version only. It goes back exactly when the new
      build lies between the two, which takes a missed restart. */
  lemma InstalledGoesBackExactly(s: State, tag: string, b: Binary, env: Env)
    requires Sound(s) && ReportedVersion(b.stdout).Some?
    requires env == Env(true, true, true, true, env.scheduled)
    requires IsPlausibleVersion(tag) && !IsDowngrade(s.running, tag)
    ensures var after := Step(s, Update(tag, b, env));
            var v := ParseVersion(ReportedVersion(b.stdout).value);
            && v.Some?
            && (InstalledVersion(after).value.Less(InstalledVersion(s).value) <==>
                v.value.Less(InstalledVersion(s).value) && !v.value.Less(ParseVersion(s.running).value))
            && (InstalledVersion(s) == ParseVersion(s.running) ==>
                  !InstalledVersion(after).value.Less(InstalledVersion(s).value))
  {
    ReportedIsReadable(b.stdout);
  }
}
