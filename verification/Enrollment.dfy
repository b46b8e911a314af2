/** Installing the agent: when an enrollment token is spent, and what becomes of
    credentials that are already there. */
module Enrollment {
  import opened Text

  /** A credentials file: its text, and the host it names when it parses. */
  datatype CredFile = CredFile(text: string, host: Option<string>)

  /** The credentials file, and the rejected ones set aside, by time stamp. */
  datatype State = State(credentials: Option<CredFile>, aside: map<nat, CredFile>)

  datatype Args = Args(token: Option<string>, aat: Option<string>, interactive: bool)

  /** The world during one run: whether everything before enrollment (root, the
      control plane's address, its CA) worked out, whether the credentials file
      can be read, the answer to `whoami` if any, what the operator types, the
      clock, and the outcomes of the rename, the write probe, the enrollment
      request and saving the credentials it returns. */
  datatype Env = Env(setup: bool, readable: bool, status: Option<nat>, typed: string, stamp: nat,
                     renamed: bool, writable: bool, accepted: bool, saved: bool, issued: CredFile)

  /** What a run does, in order. */
  datatype Event =
    | Asked(status: Option<nat>)
    | MovedAside(file: CredFile)
    | Probed(ok: bool)
    | Sent(token: string)
    | Saved(file: CredFile)

  datatype Outcome = Outcome(state: State, ok: bool, trace: seq<Event>)

  datatype CredentialCheck = Accepted | Refused | Rejected | Unknown

  function ClassifyWhoami(status: nat): CredentialCheck {
    if 200 <= status <= 299 then Accepted
    else if status == 401 then Rejected
    else if status == 403 then Refused
    else Unknown
  }

  function CheckCredentials(status: Option<nat>): CredentialCheck {
    if status.Some? then ClassifyWhoami(status.value) else Unknown
  }

  /** `Some` non-blank values only. */
  function NonEmpty(v: Option<string>): Option<string> {
    if v.Some? && Trim(v.value) != [] then Some(Trim(v.value)) else None
  }

  /** The token given on the command line, the enrollment token first. */
  function Given(args: Args): Option<string> {
    if NonEmpty(args.token).Some? then NonEmpty(args.token) else NonEmpty(args.aat)
  }

  /** The token in hand: the one given, else what the operator types, trimmed;
      a blank answer ends the run. */
  function InHand(args: Args, env: Env): Option<string> {
    if Given(args).Some? then Given(args) else if args.interactive then NonEmpty(Some(env.typed)) else None
  }

  function After(events: seq<Event>, o: Outcome): Outcome { o.(trace := events + o.trace) }

  /** Uses the credentials that are there, else probes, sends the token and
      saves the answer. */
  function LoadOrEnroll(s: State, token: Option<string>, env: Env): Outcome {
    if s.credentials.Some? && env.readable then Outcome(s, s.credentials.value.host.Some?, [])
    else if token.None? then Outcome(s, false, [])
    else if !env.writable then Outcome(s, false, [Probed(false)])
    else if !env.accepted || !env.saved then Outcome(s, false, [Probed(true), Sent(token.value)])
    else Outcome(s.(credentials := Some(env.issued)), true,
                 [Probed(true), Sent(token.value), Saved(env.issued)])
  }

  /** Whether the existing credentials can be read and shown to the server. */
  predicate Presentable(s: State, env: Env) {
    s.credentials.Some? && env.readable && s.credentials.value.host.Some?
  }

  function Install(s: State, args: Args, env: Env): Outcome {
    if !env.setup || (s.credentials.None? && InHand(args, env).None?) then Outcome(s, false, [])
    else if !Presentable(s, env) then
      LoadOrEnroll(s, if s.credentials.None? then InHand(args, env) else None, env)
    else if CheckCredentials(env.status) != Rejected then
      After([Asked(env.status)], LoadOrEnroll(s, None, env))
    else if InHand(args, env).None? || !env.renamed then Outcome(s, false, [Asked(env.status)])
    else
      var file := s.credentials.value;
      After([Asked(env.status), MovedAside(file)],
            LoadOrEnroll(State(None, s.aside[env.stamp := file]), InHand(args, env), env))
  }

  class AgentHost {
    var credentials: Option<CredFile>
    var aside: map<nat, CredFile>
    ghost var trace: seq<Event>

    ghost function View(): State reads this { State(credentials, aside) }

    constructor ()
      ensures View() == State(None, map[]) && trace == []
    {
      credentials, aside, trace := None, map[], [];
    }

    method EnrollHost(token: Option<string>, env: Env) returns (ok: bool)
      modifies this
      ensures var o := LoadOrEnroll(old(View()), token, env);
              View() == o.state && ok == o.ok && trace == old(trace) + o.trace
    {
      if credentials.Some? && env.readable {
        return credentials.value.host.Some?;
      }
      if token.None? {
        return false;
      }
      trace := trace + [Probed(env.writable)];
      if !env.writable {
        return false;
      }
      trace := trace + [Sent(token.value)];
      if !env.accepted || !env.saved {
        return false;
      }
      credentials := Some(env.issued);
      trace := trace + [Saved(env.issued)];
      ok := true;
    }

    method InstallAgent(args: Args, env: Env) returns (ok: bool)
      modifies this
      ensures var o := Install(old(View()), args, env);
              View() == o.state && ok == o.ok && trace == old(trace) + o.trace
    {
      if !env.setup {
        return false;
      }
      var enrolled := credentials.Some?;
      var token: Option<string> := None;
      if !enrolled {
        token := InHand(args, env);
        if token.None? {
          return false;
        }
      }
      if enrolled && env.readable && credentials.value.host.Some? {
        trace := trace + [Asked(env.status)];
        if CheckCredentials(env.status) == Rejected {
          token := InHand(args, env);
          if token.None? || !env.renamed {
            return false;
          }
          trace := trace + [MovedAside(credentials.value)];
          aside := aside[env.stamp := credentials.value];
          credentials := None;
        }
      }
      ok := EnrollHost(token, env);
    }
  }

  // ----- One run ----------------------------------------------------------

  /** An operator who is asked for a token and types nothing spends nothing and
      keeps everything. */
  lemma BlankAnswerEndsTheRun(s: State, args: Args, env: Env)
    requires Given(args).None? && Blank(env.typed)
    ensures Install(s, args, env).state == s && !SendsToken(Install(s, args, env))
  {
    TrimEmptyExactly(env.typed);
    TokenSentExactly(s, args, env);
  }

  predicate NonBlank(v: Option<string>) { v.Some? && !Blank(v.value) }

  /** Which token is in hand: the enrollment token if it is not blank, else the
      account token, else what is typed if someone can be asked. */
  lemma InHandExactly(args: Args, env: Env)
    ensures InHand(args, env) ==
            if NonBlank(args.token) then Some(Trim(args.token.value))
            else if NonBlank(args.aat) then Some(Trim(args.aat.value))
            else if args.interactive && !Blank(env.typed) then Some(Trim(env.typed))
            else None
  {
    NonEmptyExactly(args.token);
    NonEmptyExactly(args.aat);
    NonEmptyExactly(Some(env.typed));
  }

  lemma NonEmptyExactly(v: Option<string>)
    ensures NonEmpty(v) == if NonBlank(v) then Some(Trim(v.value)) else None
  {
    if v.Some? {
      TrimEmptyExactly(v.value);
    }
  }

  predicate SendsToken(o: Outcome) { exists i :: 0 <= i < |o.trace| && o.trace[i].Sent? }

  /** A token is sent exactly when one is in hand, the write probe succeeds, and
      there either were no credentials or the server answered 401 to them and
      they could be moved out of the way. */
  lemma TokenSentExactly(s: State, args: Args, env: Env)
    ensures SendsToken(Install(s, args, env)) <==>
            && env.setup && InHand(args, env).Some? && env.writable
            && (s.credentials.None? || (Presentable(s, env) && env.status == Some(401) && env.renamed))
  {
    var o := Install(s, args, env);
    var t := o.trace;
    assert |t| > 1 && t[1].Sent? ==> SendsToken(o);
    assert |t| > 3 && t[3].Sent? ==> SendsToken(o);
  }

  /** Wherever a token is sent, the step before it is a successful probe, and a
      file is moved aside only after a 401 and with a token in hand. */
  lemma SendAndMoveAreGuarded(s: State, args: Args, env: Env, i: nat)
    requires i < |Install(s, args, env).trace|
    ensures var t := Install(s, args, env).trace;
            && (t[i].Sent? ==> i > 0 && t[i - 1] == Probed(true) && Some(t[i].token) == InHand(args, env))
            && (t[i].MovedAside? ==> i == 1 && t[0] == Asked(Some(401)) && InHand(args, env).Some?
                                     && s.credentials == Some(t[i].file))
            && forall j :: 0 <= j < i ==> !(t[i].Sent? && t[j].Sent?)
  {
  }

  /** Existing credentials are moved aside exactly when the server answers 401
      to them, a token is in hand, and the rename works. */
  predicate Moves(s: State, args: Args, env: Env) {
    env.setup && Presentable(s, env) && env.status == Some(401) && InHand(args, env).Some? && env.renamed
  }

  /** The state after any install: the credentials are the issued ones exactly
      when a token was sent, accepted and saved, else gone exactly when they were
      moved aside, else as they were; and nothing else is set aside. */
  lemma CredentialsAfter(s: State, args: Args, env: Env)
    ensures var o := Install(s, args, env);
            && o.state.credentials ==
               (if SendsToken(o) && env.accepted && env.saved then Some(env.issued)
                else if Moves(s, args, env) then None else s.credentials)
            && o.state.aside ==
               (if Moves(s, args, env) then s.aside[env.stamp := s.credentials.value] else s.aside)
  {
    TokenSentExactly(s, args, env);
  }

  /** An install succeeds exactly when it kept credentials that could be read and
      that parse, or saved new ones. */
  lemma SucceedsExactly(s: State, args: Args, env: Env)
    ensures var o := Install(s, args, env);
            o.ok <==>
            || (env.setup && Presentable(s, env) && env.status != Some(401))
            || (SendsToken(o) && env.accepted && env.saved)
  {
    TokenSentExactly(s, args, env);
  }

  /** The whole trace: the server is asked about credentials that can be shown to
      it; then come the move, the probe, the token and the new file, each only if
      the run gets that far. */
  lemma TraceExactly(s: State, args: Args, env: Env)
    ensures var moved := Moves(s, args, env);
            var enrolls := moved || (env.setup && s.credentials.None? && InHand(args, env).Some?);
            var sends := enrolls && env.writable;
            Install(s, args, env).trace ==
            (if env.setup && Presentable(s, env) then [Asked(env.status)] else [])
            + (if moved then [MovedAside(s.credentials.value)] else [])
            + (if enrolls then [Probed(env.writable)] else [])
            + (if sends then [Sent(InHand(args, env).value)] else [])
            + (if sends && env.accepted && env.saved then [Saved(env.issued)] else [])
  {
  }

  /** After a successful enrollment every rerun that is not answered with 401
      sends no token and keeps the issued file. */
  lemma RerunKeepsIssued(s: State, args: Args, env: Env, again: Args, later: Env)
    requires SendsToken(Install(s, args, env)) && Install(s, args, env).ok && later.status != Some(401)
    ensures var rerun := Install(Install(s, args, env).state, again, later);
            rerun.state.credentials == Some(env.issued) && !SendsToken(rerun)
  {
    TokenSentExactly(s, args, env);
    SucceedsExactly(s, args, env);
    CredentialsAfter(s, args, env);
    OtherAnswersKeepCredentials(Install(s, args, env).state, again, later);
  }

  /** Any other answer, or none, keeps the file and spends nothing. */
  lemma OtherAnswersKeepCredentials(s: State, args: Args, env: Env)
    requires s.credentials.Some? && env.status != Some(401)
    ensures Install(s, args, env).state == s && !SendsToken(Install(s, args, env))
  {
    TokenSentExactly(s, args, env);
  }

  // ----- Over all runs ----------------------------------------------------

  /** Every credentials file the host still has, in use or set aside. */
  function Held(s: State): set<CredFile> {
    s.aside.Values + (if s.credentials.Some? then {s.credentials.value} else {})
  }

  function Run(s: State, runs: seq<(Args, Env)>): State
    decreases |runs|
  {
    if runs == [] then s else Run(Install(s, runs[0].0, runs[0].1).state, runs[1..])
  }

  predicate IncreasingStamps(runs: seq<(Args, Env)>, above: int) {
    && (forall i :: 0 <= i < |runs| ==> runs[i].1.stamp > above)
    && forall i, j :: 0 <= i < j < |runs| ==> runs[i].1.stamp < runs[j].1.stamp
  }

  predicate StampsBelow(s: State, bound: int) { forall k :: k in s.aside ==> k <= bound }

  lemma InstallKeepsFiles(s: State, args: Args, env: Env)
    requires env.stamp !in s.aside
    ensures Held(s) <= Held(Install(s, args, env).state)
    ensures forall k :: k in Install(s, args, env).state.aside ==> k in s.aside || k == env.stamp
  {
    var after := Install(s, args, env).state;
    forall f | f in s.aside.Values ensures f in after.aside.Values {
      var k :| k in s.aside && s.aside[k] == f;
      assert after.aside[k] == f;
    }
    if after.aside != s.aside {
      assert after.aside[env.stamp] == s.credentials.value;
    }
  }

  /** Credentials are never deleted: over every sequence of installs at
      increasing times, every file the host ever had is in use or set aside. */
  lemma {:induction false} RunsKeepEveryFile(s: State, runs: seq<(Args, Env)>, above: int)
    requires StampsBelow(s, above) && IncreasingStamps(runs, above)
    ensures Held(s) <= Held(Run(s, runs))
    decreases |runs|
  {
    if runs == [] {
    } else {
      var (args, env) := runs[0];
      InstallKeepsFiles(s, args, env);
      RunsKeepEveryFile(Install(s, args, env).state, runs[1..], env.stamp);
    }
  }

  /** No install at time `stamp`, whatever it is asked and whatever happens,
      loses a credentials file. */
  ghost predicate KeepsFiles(aside: map<nat, CredFile>, stamp: nat) {
    forall credentials: Option<CredFile>, args: Args, env: Env ::
      env.stamp == stamp ==>
        Held(State(credentials, aside)) <= Held(Install(State(credentials, aside), args, env).state)
  }

  /** Two moves within one second share a name and the second replaces the
      first, so files are safe exactly when the stamp is unused, or what it
      names is set aside a second time. */
  lemma FilesKeptExactly(aside: map<nat, CredFile>, stamp: nat)
    ensures KeepsFiles(aside, stamp) <==>
            (stamp in aside ==> exists k :: k in aside && k != stamp && aside[k] == aside[stamp])
  {
    if stamp in aside ==> exists k :: k in aside && k != stamp && aside[k] == aside[stamp] {
      forall credentials: Option<CredFile>, args: Args, env: Env | env.stamp == stamp
        ensures Held(State(credentials, aside)) <= Held(Install(State(credentials, aside), args, env).state)
      {
        DuplicatedFileSurvives(State(credentials, aside), args, env);
      }
    } else {
      OverwrittenFileIsLost(aside, stamp);
    }
  }

  lemma DuplicatedFileSurvives(s: State, args: Args, env: Env)
    requires env.stamp in s.aside ==> exists k :: k in s.aside && k != env.stamp && s.aside[k] == s.aside[env.stamp]
    ensures Held(s) <= Held(Install(s, args, env).state)
  {
    var after := Install(s, args, env).state;
    forall f | f in s.aside.Values ensures f in after.aside.Values {
      var k :| k in s.aside && s.aside[k] == f;
      if k == env.stamp {
        var j :| j in s.aside && j != env.stamp && s.aside[j] == f;
        assert after.aside[j] == f;
      } else {
        assert after.aside[k] == f;
      }
    }
    if after.aside != s.aside {
      assert after.aside[env.stamp] == s.credentials.value;
    }
  }

  lemma OverwrittenFileIsLost(aside: map<nat, CredFile>, stamp: nat)
    requires stamp in aside && forall k :: k in aside && k != stamp ==> aside[k] != aside[stamp]
    ensures !KeepsFiles(aside, stamp)
  {
    var lost := aside[stamp];
    var file := CredFile(lost.text + "x", Some(""));
    assert file != lost by {
      assert |file.text| != |lost.text|;
    }
    var s, args := State(Some(file), aside), Args(None, None, true);
    var env := Env(true, true, Some(401), "t", stamp, true, false, false, false, file);
    TrimFixed("t");
    assert Install(s, args, env).state == State(None, aside[stamp := file]);
    assert lost in Held(s) && lost !in Held(State(None, aside[stamp := file]));
    assert !(Held(State(Some(file), aside)) <= Held(Install(State(Some(file), aside), args, env).state));
  }

  /** Reruns answered with anything but 401 keep the file and send no token. */
  lemma {:induction false} RerunsSpendNothing(s: State, runs: seq<(Args, Env)>)
    requires s.credentials.Some?
    requires forall i :: 0 <= i < |runs| ==> runs[i].1.status != Some(401)
    ensures Run(s, runs) == s
    ensures forall i :: 0 <= i < |runs| ==> !SendsToken(Install(s, runs[i].0, runs[i].1))
    decreases |runs|
  {
    if runs == [] {
    } else {
      OtherAnswersKeepCredentials(s, runs[0].0, runs[0].1);
      RerunsSpendNothing(s, runs[1..]);
      assert forall i :: 1 <= i < |runs| ==> runs[i] == runs[1..][i - 1];
    }
  }
}
