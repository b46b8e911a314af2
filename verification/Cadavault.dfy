/** The managed sshd drop-in: hardening settings are upserted into it inside a
    write, validate, reload, roll back transaction. */
module Cadavault {
  import opened Text
  import opened LineStore

  // ----- The file format --------------------------------------------------

  const MANAGED := "# Managed by " + "Abyssal Arsenal " + "(Cadavault) -- " + "do not edit manually"

  function WriteDirective(e: Entry): string { e.key + " " + e.value }

  /** `Key value`, split at the first blank; a lone word is skipped. */
  function ReadDirective(l: string): Option<Entry> {
    if l == [] || l[0] == '#' then None else
      var n := WordEnd(l);
      if n == |l| then None else Some(Entry(l[..n], Trim(l[n + 1..])))
  }

  /** sshd matches directive names without regard to case. */
  function DirectiveKey(e: Entry): string { Lower(e.key) }

  function DropinFormat(header: string): Format<Entry> {
    Format(header, WriteDirective, ReadDirective, DirectiveKey, TakeValue)
  }

  const DROPIN := DropinFormat(MANAGED + "\n")

  lemma ReadWritten(e: Entry)
    requires IsWord(e.key) && e.key[0] != '#' && e.value != [] && Trimmed(e.value)
    ensures ReadDirective(Trim(WriteDirective(e))) == Some(e)
  {
    var l := WriteDirective(e);
    TrimFixed(l);
    assert l == e.key + (" " + e.value);
    WordEndAppend(e.key, " " + e.value);
    assert l[..|e.key|] == e.key && l[|e.key| + 1..] == e.value;
    TrimFixed(e.value);
  }

  lemma DropinReadsCanonical(header: string)
    ensures ReadsCanonical(DropinFormat(header))
  {
    forall l: string | '\n' !in l && Trimmed(l) && ReadDirective(l).Some?
      ensures Canonical(DropinFormat(header), ReadDirective(l).value)
    {
      ReadDirectiveParts(l);
      ReadWritten(ReadDirective(l).value);
    }
  }

  lemma ReadDirectiveParts(l: string)
    requires '\n' !in l && Trimmed(l) && ReadDirective(l).Some?
    ensures var e := ReadDirective(l).value;
            && IsWord(e.key) && e.key[0] != '#' && e.value != [] && Trimmed(e.value)
            && '\n' !in WriteDirective(e)
  {
    var n := WordEnd(l);
    var rest := l[n + 1..];
    var a, b := TrimParts(rest);
    TrimContent(rest, '\n');
    assert rest != [] && rest[|rest| - 1] == l[|l| - 1];
    assert !Blank(rest);
  }

  lemma DropinHeaderSilent()
    ensures HeaderSilent(DROPIN)
  {
    TrimFixed(MANAGED);
    forall rest: string ensures Parse(DROPIN, DROPIN.header + rest) == Parse(DROPIN, rest) {
      CommentSilent(DROPIN, MANAGED, rest);
    }
  }

  /** For any text at all, the drop-in parses to the same directives once it is
      rendered again. */
  lemma DropinIsStable(text: string)
    ensures Parse(DROPIN, Render(DROPIN, Parse(DROPIN, text))) == Parse(DROPIN, text)
  {
    DropinHeaderSilent();
    DropinReadsCanonical(DROPIN.header);
    ParseIsStable(DROPIN, text);
  }

  // ----- Settings ---------------------------------------------------------

  datatype Setting = DisableRootLogin | DisablePasswordAuth | DisableEmptyPasswords | DisableX11Forwarding {
    function Directive(): Entry {
      match this
      case DisableRootLogin => Entry("Permit" + "RootLogin", "no")
      case DisablePasswordAuth => Entry("Password" + "Authentication", "no")
      case DisableEmptyPasswords => Entry("PermitEmpty" + "Passwords", "no")
      case DisableX11Forwarding => Entry("X11" + "Forwarding", "no")
    }
  }

  lemma DirectiveShape(s: Setting)
    ensures IsWord(s.Directive().key) && s.Directive().key[0] != '#'
    ensures s.Directive().value == "no"
  {
    match s {
      case DisableRootLogin => WordConcat("Permit", "RootLogin");
      case DisablePasswordAuth => WordConcat("Password", "Authentication");
      case DisableEmptyPasswords => WordConcat("PermitEmpty", "Passwords");
      case DisableX11Forwarding => WordConcat("X11", "Forwarding");
    }
  }

  lemma SettingSettable(header: string, s: Setting)
    ensures Admissible(DropinFormat(header), s.Directive())
    ensures Normal(DropinFormat(header), s.Directive()) == s.Directive()
  {
    var f, e := DropinFormat(header), s.Directive();
    DirectiveShape(s);
    ReadWritten(e);
    forall prior: Entry | Canonical(f, prior) && f.key(prior) == f.key(e)
      ensures MergesCleanly(f, prior, e)
    {
      var m := Entry(prior.key, "no");
      CanonicalKey(header, prior);
      ReadWritten(m);
    }
  }

  lemma ReadKey(l: string)
    requires Trimmed(l) && ReadDirective(l).Some?
    ensures IsWord(ReadDirective(l).value.key) && ReadDirective(l).value.key[0] != '#'
  {
    assert WordEnd(l) > 0;
  }

  lemma CanonicalKey(header: string, e: Entry)
    requires Canonical(DropinFormat(header), e)
    ensures IsWord(e.key) && e.key[0] != '#'
  {
    assert ReadDirective(Trim(WriteDirective(e))) == Some(e);
    var _, _ := TrimParts(WriteDirective(e));
    ReadKey(Trim(WriteDirective(e)));
  }

  /** `apply_setting`: the drop-in text with one more setting in it. */
  function ApplySetting(previous: string, s: Setting): string {
    Render(DROPIN, Upsert(DROPIN, Parse(DROPIN, previous), s.Directive()))
  }

  method ComputeApplySetting(previous: string, s: Setting) returns (out: string)
    ensures out == ApplySetting(previous, s)
  {
    var directives := ParseFile(DROPIN, previous);
    var i := Find(DirectiveKey, directives, DirectiveKey(s.Directive()));
    if i < |directives| {
      directives := directives[i := Entry(directives[i].key, s.Directive().value)];
    } else {
      directives := directives + [s.Directive()];
    }
    out := RenderFile(DROPIN, directives);
  }

  /** The value sshd uses for a directive: its first occurrence. */
  predicate InEffect(text: string, s: Setting) {
    var found := Get(DROPIN, Parse(DROPIN, text), DirectiveKey(s.Directive()));
    found.Some? && found.value.value == s.Directive().value
  }

  lemma ParseApplied(text: string, s: Setting)
    ensures Parse(DROPIN, ApplySetting(text, s)) == Upsert(DROPIN, Parse(DROPIN, text), s.Directive())
  {
    DropinHeaderSilent();
    DropinReadsCanonical(DROPIN.header);
    ParseIsStable(DROPIN, text);
    SettingSettable(DROPIN.header, s);
    UpsertThroughText(DROPIN, Parse(DROPIN, text), s.Directive());
  }

  /** Applying a setting puts it in effect and leaves the others as they were. */
  lemma ApplySettingTakesEffect(text: string, s: Setting, other: Setting)
    ensures InEffect(ApplySetting(text, s), s)
    ensures other != s ==> InEffect(ApplySetting(text, s), other) == InEffect(text, other)
  {
    ParseApplied(text, s);
    SettingKeysDiffer(s, other);
    GetAfterUpsert(DROPIN, Parse(DROPIN, text), s.Directive(), DirectiveKey(other.Directive()));
  }

  lemma SettingKeysDiffer(s: Setting, t: Setting)
    ensures s != t ==> DirectiveKey(s.Directive()) != DirectiveKey(t.Directive())
  {
    // Position 7 and the length tell the four names apart.
    assert forall r: Setting :: |DirectiveKey(r.Directive())| == |r.Directive().key|;
    assert forall r: Setting :: DirectiveKey(r.Directive())[6] == LowerChar(r.Directive().key[6]);
  }

  lemma UpsertTwice(es: seq<Entry>, e: Entry)
    ensures Upsert(DROPIN, Upsert(DROPIN, es, e), e) == Upsert(DROPIN, es, e)
  {
    var once := Upsert(DROPIN, es, e);
    var i := Find(DirectiveKey, es, DirectiveKey(e));
    FindLocates(DROPIN, once, DirectiveKey(e), i);
    assert once[i].value == e.value;
  }

  /** The same setting applied twice gives the same text as once. */
  lemma ApplySettingIdempotent(text: string, s: Setting)
    ensures ApplySetting(ApplySetting(text, s), s) == ApplySetting(text, s)
  {
    ParseApplied(text, s);
    UpsertTwice(Parse(DROPIN, text), s.Directive());
  }

  // ----- The transaction --------------------------------------------------

  /** The drop-in on disk, and the drop-in text the running daemon has loaded. */
  datatype State = State(disk: Option<string>, loaded: string)

  /** How the commands of one call turn out: starting `cat`, `cat` exiting zero
      on a present file, the write, being able to run `sshd -t`, the reload, the
      write that restores, and the reload after it. A failed command changes
      nothing. Whether `sshd -t` passes is a property of the text. */
  datatype Env = Env(started: bool, readable: bool, written: bool, testable: bool,
                     reloaded: bool, restored: bool, reloadedAgain: bool)

  datatype Call = Harden(setting: Setting) | ClearAll

  function Wanted(previous: string, call: Call): string {
    match call
    case Harden(s) => ApplySetting(previous, s)
    case ClearAll => DROPIN.header
  }

  /** One call: the state after it and whether it reported success. */
  function Step(valid: string -> bool, s: State, call: Call, env: Env): (State, bool) {
    if !env.started || !env.written then (s, false) else
      var previous := Current(s.disk, env.readable);
      var content := Wanted(previous, call);
      var rolledBack := if env.restored then previous else content;
      if env.testable && valid(content) then
        if env.reloaded then (State(Some(content), content), true)
        else (State(Some(rolledBack), if env.reloadedAgain then rolledBack else s.loaded), false)
      else (State(Some(rolledBack), s.loaded), false)
  }

  class SshHost {
    var disk: Option<string>
    var loaded: string

    ghost function View(): State reads this { State(disk, loaded) }

    constructor (disk: Option<string>, loaded: string)
      ensures View() == State(disk, loaded)
    {
      this.disk, this.loaded := disk, loaded;
    }

    /** Tries each candidate service name until one reload succeeds. */
    method ReloadSshd(candidates: seq<bool>) returns (ok: bool)
      modifies this`loaded
      ensures ok == (true in candidates)
      ensures loaded == if ok then TextOf(disk) else old(loaded)
    {
      for i := 0 to |candidates|
        invariant true !in candidates[..i]
        invariant loaded == old(loaded)
      {
        if candidates[i] {
          loaded := TextOf(disk);
          return true;
        }
      }
      ok := false;
    }

    method ApplyDropin(content: string, previous: string, valid: string -> bool, env: Env) returns (ok: bool)
      modifies this
      ensures env.written && env.testable && valid(content) && env.reloaded ==>
                ok && View() == State(Some(content), content)
      ensures !env.written ==> !ok && View() == old(View())
      ensures env.written && !(env.testable && valid(content)) ==>
                !ok && View() == State(Some(if env.restored then previous else content), old(loaded))
      ensures env.written && env.testable && valid(content) && !env.reloaded ==>
                && !ok && disk == Some(if env.restored then previous else content)
                && loaded == if env.reloadedAgain then disk.value else old(loaded)
    {
      if !env.written {
        return false;
      }
      disk := Some(content);
      if env.testable && valid(content) {
        ok := ReloadSshd([false, env.reloaded]);
        if !ok {
          if env.restored {
            disk := Some(previous);
          }
          var _ := ReloadSshd([env.reloadedAgain]);
        }
      } else {
        if env.restored {
          disk := Some(previous);
        }
        ok := false;
      }
    }

    method Perform(call: Call, valid: string -> bool, env: Env) returns (ok: bool)
      modifies this
      ensures (View(), ok) == Step(valid, old(View()), call, env)
    {
      if !env.started {
        return false;
      }
      var previous := Current(disk, env.readable);
      var content;
      match call {
        case Harden(s) => content := ComputeApplySetting(previous, s);
        case ClearAll => content := DROPIN.header;
      }
      ok := ApplyDropin(content, previous, valid, env);
    }
  }

  // ----- Safety over runs -------------------------------------------------

  /** What every step keeps: what is on disk and what the daemon runs have both
      passed validation. */
  ghost predicate Sound(valid: string -> bool, s: State) {
    valid(TextOf(s.disk)) && valid(s.loaded)
  }

  /** If the call gets as far as writing, the previous text was really read, and
      putting it back would work. */
  predicate Recoverable(env: Env) { env.started && env.written ==> env.readable && env.restored }

  /** Success leaves the new, validated text on disk and loaded; failure leaves
      the text that was there. Either way both stay validated. */
  lemma StepIsTransactional(valid: string -> bool, s: State, call: Call, env: Env)
    requires Recoverable(env)
    ensures var (s', ok) := Step(valid, s, call, env);
            && (ok ==> s'.disk == Some(Wanted(TextOf(s.disk), call)) && valid(s'.disk.value)
                       && s'.loaded == s'.disk.value)
            && (!ok ==> TextOf(s'.disk) == TextOf(s.disk))
            && (Sound(valid, s) ==> Sound(valid, s'))
  {
  }

  /** A call succeeds exactly when every command works and sshd accepts the text;
      then the setting is in effect, or after clearing only the comment is left. */
  lemma SucceedsExactly(valid: string -> bool, s: State, call: Call, env: Env)
    ensures var (s', ok) := Step(valid, s, call, env);
            && (ok <==> env.started && env.written && env.testable && env.reloaded
                        && valid(Wanted(Current(s.disk, env.readable), call)))
            && (ok ==> s'.disk.Some? && s'.loaded == s'.disk.value
                       && match call
                          case Harden(setting) => InEffect(s'.disk.value, setting)
                          case ClearAll => s'.disk.value == MANAGED + "\n")
  {
    if call.Harden? {
      ApplySettingTakesEffect(Current(s.disk, env.readable), call.setting, call.setting);
    }
  }

  /** The names sshd knows the settings by. */
  lemma SettingNames()
    ensures DisableRootLogin.Directive().key == "PermitRootLogin"
    ensures DisablePasswordAuth.Directive().key == "PasswordAuthentication"
    ensures DisableEmptyPasswords.Directive().key == "PermitEmptyPasswords"
    ensures DisableX11Forwarding.Directive().key == "X11Forwarding"
  {
    assert "Permit" + "RootLogin" == "PermitRootLogin";
    assert "Password" + "Authentication" == "PasswordAuthentication";
    assert "PermitEmpty" + "Passwords" == "PermitEmptyPasswords";
    assert "X11" + "Forwarding" == "X11Forwarding";
  }

  function Run(valid: string -> bool, s: State, run: seq<(Call, Env)>): State
    decreases |run|
  {
    if run == [] then s else Run(valid, Step(valid, s, run[0].0, run[0].1).0, run[1..])
  }

  /** Over every run of hardening and clearing calls with any outcomes, nothing
      unvalidated is ever left on disk or loaded. */
  lemma {:induction false} RunIsSound(valid: string -> bool, s: State, run: seq<(Call, Env)>)
    requires Sound(valid, s)
    requires forall i :: 0 <= i < |run| ==> Recoverable(run[i].1)
    ensures Sound(valid, Run(valid, s, run))
    decreases |run|
  {
    if run == [] {
    } else {
      StepIsTransactional(valid, s, run[0].0, run[0].1);
      RunIsSound(valid, Step(valid, s, run[0].0, run[0].1).0, run[1..]);
    }
  }

  /** A setting once in effect stays in effect over every run of hardening
      calls, whichever of them fail. */
  lemma {:induction false} HardeningPersists(valid: string -> bool, s: State, run: seq<(Call, Env)>, setting: Setting)
    requires InEffect(TextOf(s.disk), setting)
    requires forall i :: 0 <= i < |run| ==> Recoverable(run[i].1) && run[i].0.Harden?
    ensures InEffect(TextOf(Run(valid, s, run).disk), setting)
    decreases |run|
  {
    if run == [] {
    } else {
      var (call, env) := run[0];
      StepIsTransactional(valid, s, call, env);
      ApplySettingTakesEffect(TextOf(s.disk), call.setting, setting);
      HardeningPersists(valid, Step(valid, s, call, env).0, run[1..], setting);
    }
  }

  ghost predicate KeepsSound(valid: string -> bool, s: State, call: Call, env: Env) {
    Sound(valid, s) ==> Sound(valid, Step(valid, s, call, env).0)
  }

  lemma HeaderHasText()
    ensures DROPIN.header != "" && DROPIN.header[0] == '#'
  {
  }

  /** One call keeps both texts validated, whatever sshd accepts and wherever it
      starts, exactly when its outcomes are recoverable. */
  lemma SoundExactlyWhenRecoverable(env: Env)
    ensures (forall valid: string -> bool, s: State, call: Call :: KeepsSound(valid, s, call, env)) <==>
            Recoverable(env)
  {
    if Recoverable(env) {
      forall valid: string -> bool, s: State, call: Call ensures KeepsSound(valid, s, call, env) {
        StepIsTransactional(valid, s, call, env);
      }
    } else {
      // Only what was there is valid, and the call writes something else.
      HeaderHasText();
      var text := if env.restored then "x" else "";
      var s, valid := State(Some(text), text), (t: string) => t == text;
      assert !valid(Wanted(Current(s.disk, env.readable), ClearAll));
      assert !KeepsSound(valid, s, ClearAll, env);
    }
  }

  /** The restoring write matters: if it fails once, a later roll-back can make
      the daemon load a text that never passed validation. */
  lemma LostRestoreCanLoadUnvalidated()
    ensures exists valid: string -> bool, s: State, run: seq<(Call, Env)> ::
              && Sound(valid, s) && |run| == 2 && (forall i :: 0 <= i < 2 ==> run[i].1.readable)
              && run[1].1.restored && !valid(Run(valid, s, run).loaded)
  {
    var bad := ApplySetting("", DisableRootLogin);
    var valid := (t: string) => t != bad;
    assert bad != "" && bad != DROPIN.header by {
      ParseApplied("", DisableRootLogin);
      DropinHeaderSilent();
      assert DROPIN.header + "" == DROPIN.header;
    }
    var s := State(None, "");
    var run := [(Harden(DisableRootLogin), Env(true, true, true, true, true, false, true)),
                (ClearAll, Env(true, true, true, true, false, true, true))];
    assert Step(valid, s, run[0].0, run[0].1).0 == State(Some(bad), "");
    assert Run(valid, s, run) == Run(valid, State(Some(bad), ""), run[1..]);
    assert Run(valid, State(Some(bad), ""), run[1..]).loaded == bad;
    assert Sound(valid, s);
  }
}
