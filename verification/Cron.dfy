/** The managed cron file: named jobs, each a marker comment followed by a
    schedule line, re-read by splitting on whitespace. */
module Cron {
  import opened Text
  import S = LineStore
  import opened Validators
  import Grimoire
  import Utf8

  datatype Job = Job(name: string, schedule: string, user: string, command: string)

  const MARKER := "# abyssal-" + "arsenal-job: "
  const SHELL := "SHELL=/bin/sh"
  const HEADER := Grimoire.MANAGED + "\n" + (SHELL + "\n" + ("\n"))

  // ----- Parsing and rendering --------------------------------------------

  /** A job line's words: one schedule word for a nickname and five otherwise,
      the user, and at least one word of command. */
  function ReadJob(name: string, words: seq<string>): (r: Option<Job>)
    requires AllWords(words)
    ensures r.Some? ==> r.value.name == name
  {
    if words == [] then None else
      var n := if words[0][0] == '@' then 1 else 5;
      if |words| < n + 2 then None else
        Some(Job(name, Join(words[..n], " "), words[n], Join(words[n + 1..], " ")))
  }

  datatype LineKind = Marker(name: string) | Skipped | JobLine

  function Classify(line: string): LineKind {
    match StripPrefix(line, MARKER)
    case Some(name) => Marker(Trim(name))
    case None => if line == [] || line[0] == '#' then Skipped else JobLine
  }

  function ParseLines(lines: seq<string>, pending: Option<string>): seq<Job> {
    if lines == [] then [] else
      var line := Trim(lines[0]);
      match Classify(line)
      case Marker(name) => ParseLines(lines[1..], Some(name))
      case Skipped => ParseLines(lines[1..], pending)
      case JobLine =>
        (if pending.Some? then S.Kept(ReadJob(pending.value, Tokens(line))) else [])
        + ParseLines(lines[1..], None)
  }

  function ParseCron(text: string): seq<Job> { ParseLines(Lines(text), None) }

  /** `parse_cron`: one pass that carries the name waiting for its job line. */
  method ComputeParseCron(text: string) returns (jobs: seq<Job>)
    ensures jobs == ParseCron(text)
  {
    jobs := [];
    var pending: Option<string> := None;
    var lines := Lines(text);
    for i := 0 to |lines|
      invariant jobs + ParseLines(lines[i..], pending) == ParseCron(text)
    {
      var line := Trim(lines[i]);
      assert lines[i..][0] == lines[i] && lines[i..][1..] == lines[i + 1..];
      match Classify(line) {
        case Marker(name) =>
          pending := Some(name);
        case Skipped =>
        case JobLine =>
          if pending.Some? {
            var read := ReadJob(pending.value, Tokens(line));
            if read.Some? {
              jobs := jobs + [read.value];
            }
          }
          pending := None;
      }
    }
  }

  function JobBody(j: Job): string { j.schedule + " " + (j.user + " " + j.command) }

  function RenderJobs(jobs: seq<Job>): string {
    if jobs == [] then [] else
      (MARKER + jobs[0].name) + "\n" + (JobBody(jobs[0]) + "\n" + ("" + "\n" + RenderJobs(jobs[1..])))
  }

  function RenderCron(jobs: seq<Job>): string { HEADER + RenderJobs(jobs) }

  method ComputeRenderCron(jobs: seq<Job>) returns (out: string)
    ensures out == RenderCron(jobs)
  {
    out := HEADER;
    for i := 0 to |jobs|
      invariant out + RenderJobs(jobs[i..]) == RenderCron(jobs)
    {
      var job := jobs[i];
      assert jobs[i..][0] == job && jobs[i..][1..] == jobs[i + 1..];
      var piece := MARKER + job.name + "\n" + JobBody(job) + "\n\n";
      TwoLines(MARKER + job.name, JobBody(job), RenderJobs(jobs[i + 1..]));
      Reassociate(out, piece, RenderJobs(jobs[i + 1..]));
      out := out + piece;
    }
    assert jobs[|jobs|..] == [];
  }

  lemma TwoLines(a: string, b: string, rest: string)
    ensures (a + "\n" + b + "\n\n") + rest == a + "\n" + (b + "\n" + ("" + "\n" + rest))
  {
    assert "\n\n" == "\n" + "\n" && "" + "\n" == "\n";
  }

  // ----- What a written job is read back as -------------------------------

  function JobWords(j: Job): (r: seq<string>)
    ensures AllWords(r)
  {
    Tokens(j.schedule) + Tokens(j.user) + Tokens(j.command)
  }

  /** The job's two lines stay two lines, with a name, and the second is not a
      comment. */
  predicate Writable(j: Job) {
    && j.name != [] && Trimmed(j.name) && '\n' !in j.name && '\n' !in JobBody(j)
    && JobWords(j) != [] && JobWords(j)[0][0] != '#'
  }

  predicate AllWritable(jobs: seq<Job>) { forall i :: 0 <= i < |jobs| ==> Writable(jobs[i]) }

  /** The job the next parse finds in place of `j`, if any. */
  function Stored(j: Job): (r: Option<Job>)
    ensures r.Some? ==> r.value.name == j.name
  {
    ReadJob(j.name, JobWords(j))
  }

  function StoredAll(jobs: seq<Job>): seq<Job> {
    if jobs == [] then [] else S.Kept(Stored(jobs[0])) + StoredAll(jobs[1..])
  }

  predicate Canonical(j: Job) { Writable(j) && Stored(j) == Some(j) }

  predicate AllCanonical(jobs: seq<Job>) { forall i :: 0 <= i < |jobs| ==> Canonical(jobs[i]) }

  lemma BodyWords(j: Job)
    ensures Tokens(JobBody(j)) == JobWords(j)
  {
    TokensSplit(j.schedule, ' ', j.user + " " + j.command);
    TokensSplit(j.user, ' ', j.command);
  }

  lemma MarkerLine(name: string)
    requires name != [] && Trimmed(name)
    ensures Classify(Trim(MARKER + name)) == Marker(name)
  {
    TrimFixed(MARKER + name);
    TrimFixed(name);
  }

  lemma BodyLine(j: Job)
    requires Writable(j)
    ensures Classify(Trim(JobBody(j))) == JobLine
    ensures Tokens(Trim(JobBody(j))) == JobWords(j)
  {
    BodyWords(j);
    TokensTrim(JobBody(j));
    TokensStart(JobBody(j));
    assert MARKER[0] == '#';
  }

  lemma ParseNonMarker(line: string, rest: string, pending: Option<string>)
    requires '\n' !in line && Classify(Trim(line)) == Skipped
    ensures ParseLines(Lines(line + "\n" + rest), pending) == ParseLines(Lines(rest), pending)
  {
    LinesCons(line, rest);
    TrimStripCr(line);
  }

  lemma ParseMarker(name: string, rest: string, pending: Option<string>)
    requires name != [] && Trimmed(name) && '\n' !in name
    ensures ParseLines(Lines((MARKER + name) + "\n" + rest), pending) == ParseLines(Lines(rest), Some(name))
  {
    LinesCons(MARKER + name, rest);
    TrimStripCr(MARKER + name);
    MarkerLine(name);
  }

  lemma ParseBodyLine(j: Job, rest: string)
    requires Writable(j)
    ensures ParseLines(Lines(JobBody(j) + "\n" + rest), Some(j.name)) ==
            S.Kept(Stored(j)) + ParseLines(Lines(rest), None)
  {
    LinesCons(JobBody(j), rest);
    TrimStripCr(JobBody(j));
    BodyLine(j);
  }

  lemma {:induction false} ParseRendered(jobs: seq<Job>)
    requires AllWritable(jobs)
    ensures ParseLines(Lines(RenderJobs(jobs)), None) == StoredAll(jobs)
  {
    if jobs == [] {
    } else {
      var j, rest := jobs[0], RenderJobs(jobs[1..]);
      ParseMarker(j.name, JobBody(j) + "\n" + ("" + "\n" + rest), None);
      ParseBodyLine(j, "" + "\n" + rest);
      ParseNonMarker("", rest, None);
      ParseRendered(jobs[1..]);
    }
  }

  lemma ShellLineSilent(rest: string)
    ensures ParseLines(Lines(SHELL + "\n" + rest), None) == ParseLines(Lines(rest), None)
  {
    LinesCons(SHELL, rest);
    TrimStripCr(SHELL);
    TrimFixed(SHELL);
    assert SHELL[0] == 'S' && MARKER[0] == '#';
  }

  lemma HeaderSilent(rest: string)
    ensures ParseCron(HEADER + rest) == ParseCron(rest)
  {
    var blank := "" + "\n" + rest;
    var shell := SHELL + "\n" + blank;
    assert HEADER + rest == Grimoire.MANAGED + "\n" + shell;
    Grimoire.ManagedIsComment();
    ManagedIsNoMarker();
    ParseNonMarker(Grimoire.MANAGED, shell, None);
    ShellLineSilent(blank);
    ParseNonMarker("", rest, None);
  }

  lemma ManagedIsNoMarker()
    ensures Classify(Grimoire.MANAGED) == Skipped
  {
    assert Grimoire.MANAGED[0] == '#' && Grimoire.MANAGED[2] == 'M' && MARKER[2] == 'a';
  }

  /** Parsing a rendered file gives what each job is read back as. */
  lemma ParseRender(jobs: seq<Job>)
    requires AllWritable(jobs)
    ensures ParseCron(RenderCron(jobs)) == StoredAll(jobs)
  {
    HeaderSilent(RenderJobs(jobs));
    ParseRendered(jobs);
  }

  // ----- Parsing yields canonical jobs ------------------------------------

  lemma JoinWords(ws: seq<string>)
    requires AllWords(ws)
    ensures Tokens(Join(ws, " ")) == ws && '\n' !in Join(ws, " ")
  {
    TokensJoin(ws);
    JoinNoNewline(ws);
  }

  lemma ReadJobCanonical(name: string, words: seq<string>)
    requires AllWords(words) && ReadJob(name, words).Some?
    requires name != [] && Trimmed(name) && '\n' !in name && words[0][0] != '#'
    ensures Canonical(ReadJob(name, words).value)
  {
    var j := ReadJob(name, words).value;
    var n := if words[0][0] == '@' then 1 else 5;
    JoinWords(words[..n]);
    JoinWords(words[n + 1..]);
    TokensOfWord(words[n]);
    assert words[..n] + [words[n]] + words[n + 1..] == words;
    assert JobWords(j) == words;
    NoNewlineInBody(j);
  }

  lemma NoNewlineInBody(j: Job)
    requires '\n' !in j.schedule && IsWord(j.user) && '\n' !in j.command
    ensures '\n' !in JobBody(j)
  {
  }

  lemma {:induction false} ParseLinesCanonical(lines: seq<string>, pending: Option<string>)
    requires forall i :: 0 <= i < |lines| ==> '\n' !in lines[i]
    requires pending.Some? ==> pending.value != [] && Trimmed(pending.value) && '\n' !in pending.value
    ensures AllCanonical(ParseLines(lines, pending))
  {
    if lines == [] {
    } else {
      var line := Trim(lines[0]);
      var _, _ := TrimParts(lines[0]);
      TrimContent(lines[0], '\n');
      match Classify(line)
      case Marker(name) =>
        MarkerName(line);
        ParseLinesCanonical(lines[1..], Some(name));
      case Skipped => ParseLinesCanonical(lines[1..], pending);
      case JobLine =>
        TokensStart(line);
        TrimFixed(line);
        if pending.Some? && ReadJob(pending.value, Tokens(line)).Some? {
          ReadJobCanonical(pending.value, Tokens(line));
        }
        ParseLinesCanonical(lines[1..], None);
    }
  }

  /** A trimmed marker line always carries a name: a bare marker loses its
      trailing blank and is an ordinary comment. */
  lemma MarkerName(line: string)
    requires Trimmed(line) && '\n' !in line && Classify(line).Marker?
    ensures var name := Classify(line).name; name != [] && Trimmed(name) && '\n' !in name
  {
    var rest := StripPrefix(line, MARKER).value;
    assert |MARKER| == 23 && MARKER[22] == ' ';
    assert rest != [];
    assert !IsWhitespace(rest[|rest| - 1]);
    var _, _ := TrimParts(rest);
    TrimContent(rest, '\n');
    assert !Blank(rest);
  }

  lemma {:induction false} StoredAllCanonical(jobs: seq<Job>)
    requires AllCanonical(jobs)
    ensures StoredAll(jobs) == jobs
  {
    if jobs == [] {
    } else {
      StoredAllCanonical(jobs[1..]);
      CanonicalIsStored(jobs[0]);
      assert jobs == [jobs[0]] + jobs[1..];
    }
  }

  lemma CanonicalIsStored(j: Job)
    requires Canonical(j)
    ensures S.Kept(Stored(j)) == [j]
  {
  }

  /** For any text at all, parsing what was rendered from a parse changes nothing. */
  lemma ParseIsStable(text: string)
    ensures ParseCron(RenderCron(ParseCron(text))) == ParseCron(text)
    ensures AllCanonical(ParseCron(text))
  {
    ParseLinesCanonical(Lines(text), None);
    ParseRender(ParseCron(text));
    StoredAllCanonical(ParseCron(text));
  }

  // ----- Edits ------------------------------------------------------------

  function NameOf(j: Job): string { j.name }

  /** Puts `with` where the job called `name` is, or at the end. */
  function Replace(jobs: seq<Job>, name: string, with: seq<Job>): seq<Job> {
    var i := S.Find(NameOf, jobs, name);
    jobs[..i] + with + (if i < |jobs| then jobs[i + 1..] else [])
  }

  lemma {:induction false} ReplaceByOne(jobs: seq<Job>, j: Job)
    ensures var i := S.Find(NameOf, jobs, j.name);
            Replace(jobs, j.name, [j]) == if i < |jobs| then jobs[i := j] else jobs + [j]
  {
    var i := S.Find(NameOf, jobs, j.name);
    if i < |jobs| {
      assert jobs[i := j] == jobs[..i] + [j] + jobs[i + 1..];
    } else {
      assert jobs[..i] + [j] + [] == jobs + [j];
    }
  }

  datatype Edit = Set(job: Job) | Remove(name: string) | Clear

  predicate Accepted(edit: Edit) {
    match edit
    case Set(j) =>
      && IsValidAccountName(j.name) && IsValidCronSchedule(j.schedule)
      && IsValidAccountName(j.user) && IsValidCronCommand(j.command)
    case Remove(name) => IsValidAccountName(name)
    case Clear => true
  }

  function StepText(file: Option<string>, edit: Edit, io: S.Io): Option<string> {
    if !Accepted(edit) || !io.written || (!edit.Clear? && !io.started) then file else
      var jobs := ParseCron(S.Current(file, io.readable));
      match edit
      case Set(j) => Some(RenderCron(Replace(jobs, j.name, [j])))
      case Remove(name) => Some(RenderCron(S.Without(NameOf, jobs, name)))
      case Clear => Some(HEADER)
  }

  class CronFile {
    var file: Option<string>

    constructor ()
      ensures file == None
    {
      file := None;
    }

    method SetCronJob(job: Job, io: S.Io) returns (ok: bool)
      modifies this
      ensures file == StepText(old(file), Set(job), io)
      ensures ok == (Accepted(Set(job)) && io.started && io.written)
    {
      if !Accepted(Set(job)) || !io.started {
        return false;
      }
      var jobs := ComputeParseCron(S.Current(file, io.readable));
      var i := S.Find(NameOf, jobs, job.name);
      ReplaceByOne(jobs, job);
      jobs := if i < |jobs| then jobs[i := job] else jobs + [job];
      var rendered := ComputeRenderCron(jobs);
      if io.written {
        file := Some(rendered);
      }
      ok := io.written;
    }

    method RemoveCronJob(name: string, io: S.Io) returns (ok: bool)
      modifies this
      ensures file == StepText(old(file), Remove(name), io)
      ensures ok == (Accepted(Remove(name)) && io.started && io.written)
    {
      if !Accepted(Remove(name)) || !io.started {
        return false;
      }
      var jobs := ComputeParseCron(S.Current(file, io.readable));
      var rendered := ComputeRenderCron(S.Without(NameOf, jobs, name));
      if io.written {
        file := Some(rendered);
      }
      ok := io.written;
    }

    method ClearCronJobs(io: S.Io) returns (ok: bool)
      modifies this
      ensures file == StepText(old(file), Clear, io)
      ensures ok == io.written
    {
      if io.written {
        file := Some(HEADER);
      }
      ok := io.written;
    }
  }

  // ----- What a set leaves in the file ------------------------------------

  lemma {:induction false} AccountNameShape(name: string)
    requires IsValidAccountName(name)
    ensures IsWord(name) && Trimmed(name) && '\n' !in name && name[0] !in "#@"
    ensures Tokens(name) == [name]
  {
    assert forall i :: 0 <= i < |name| ==> !IsWhitespace(name[i]);
    TokensOfWord(name);
  }

  lemma ScheduleChars(schedule: string)
    requires IsValidCronSchedule(schedule) && schedule[0] != '@'
    ensures forall i :: 0 <= i < |schedule| ==> schedule[i] != '\n' && schedule[i] != '#' && schedule[i] != '@'
  {
  }

  lemma {:induction false} ScheduleShape(schedule: string)
    requires IsValidCronSchedule(schedule)
    ensures '\n' !in schedule
    ensures schedule[0] == '@' ==> Tokens(schedule) == [schedule]
    ensures schedule[0] != '@' && Tokens(schedule) != [] ==>
              Tokens(schedule)[0][0] != '@' && Tokens(schedule)[0][0] != '#'
  {
    if schedule[0] == '@' {
      NicknameIsWord(schedule);
    } else {
      ScheduleChars(schedule);
      TokensStart(schedule);
      var a, b := TrimParts(schedule);
      assert Trim(schedule) != [] ==> Trim(schedule)[0] == schedule[|a|];
    }
  }

  lemma NicknameIsWord(schedule: string)
    requires IsValidCronSchedule(schedule) && schedule[0] == '@'
    ensures IsWord(schedule) && '\n' !in schedule && Tokens(schedule) == [schedule]
  {
    NicknamesAreWords();
    WordConcat(['@'], schedule[1..]);
    assert schedule == ['@'] + schedule[1..];
    TokensOfWord(schedule);
  }

  lemma NicknamesAreWords()
    ensures forall n :: n in NICKNAMES ==> IsWord(n)
  {
  }

  lemma CommandShape(command: string)
    requires IsValidCronCommand(command)
    ensures '\n' !in command
  {
  }

  lemma AcceptedIsWritable(j: Job)
    requires Accepted(Set(j))
    ensures Writable(j)
  {
    AccountNameShape(j.name);
    AccountNameShape(j.user);
    CommandShape(j.command);
    ScheduleShape(j.schedule);
    BodyOnOneLine(j);
    assert JobWords(j)[0] == if Tokens(j.schedule) == [] then j.user else Tokens(j.schedule)[0];
  }

  lemma BodyOnOneLine(j: Job)
    requires '\n' !in j.schedule && '\n' !in j.user && '\n' !in j.command
    ensures '\n' !in JobBody(j)
  {
  }

  /** The job as it will be listed: whitespace runs collapsed. */
  function Collapsed(j: Job): Job {
    Job(j.name, Collapse(j.schedule), j.user, Collapse(j.command))
  }

  /** A nickname, or five fields. */
  predicate FieldsFit(schedule: string) {
    schedule != [] && (schedule[0] == '@' || |Tokens(schedule)| == 5)
  }

  /** The validators accept schedules of any number of fields and blank
      commands. An accepted job is read back as itself, whitespace collapsed,
      exactly when its schedule has the right number of fields and its command
      is not blank. */
  lemma StoredExactly(j: Job)
    requires Accepted(Set(j))
    ensures Stored(j) == Some(Collapsed(j)) <==> FieldsFit(j.schedule) && Tokens(j.command) != []
  {
    var s, c := Tokens(j.schedule), Tokens(j.command);
    AccountNameShape(j.user);
    ScheduleShape(j.schedule);
    var words := JobWords(j);
    assert words == s + [j.user] + c;
    assert words[0] == if s == [] then j.user else s[0];
    var n := if j.schedule[0] == '@' then 1 else 5;
    assert n == if words[0][0] == '@' then 1 else 5;
    if |s| == n {
      assert words[..n] == s && words[n] == j.user && words[n + 1..] == c;
    } else if Stored(j).Some? {
      // The first five words are not the schedule's, so neither is their join.
      TokensJoin(words[..n]);
      TokensJoin(s);
      assert |words[..n]| != |s|;
    }
  }

  /** A one-field schedule is accepted and written, and gone on the next read. */
  lemma OneFieldJobVanishes()
    ensures var j := Job("a", "*", "b", "x"); Accepted(Set(j)) && Stored(j) == None
  {
    var j := Job("a", "*", "b", "x");
    Utf8.EncodeAscii("a");
    Utf8.EncodeAscii("*");
    Utf8.EncodeAscii("b");
    Utf8.EncodeAscii("x");
    TokensOfWord("*");
    TokensOfWord("b");
    TokensOfWord("x");
  }

  lemma {:induction false} StoredAllConcat(a: seq<Job>, b: seq<Job>)
    ensures StoredAll(a + b) == StoredAll(a) + StoredAll(b)
  {
    if a == [] {
      assert a + b == b;
    } else {
      assert (a + b)[1..] == a[1..] + b;
      StoredAllConcat(a[1..], b);
      Reassociate(S.Kept(Stored(a[0])), StoredAll(a[1..]), StoredAll(b));
    }
  }

  lemma {:induction false} StoredAround(a: seq<Job>, j: Job, b: seq<Job>)
    requires AllCanonical(a) && AllCanonical(b)
    ensures StoredAll(a + [j] + b) == a + S.Kept(Stored(j)) + b
  {
    StoredAllConcat(a + [j], b);
    StoredAllConcat(a, [j]);
    StoredOne(j);
    StoredAllCanonical(a);
    StoredAllCanonical(b);
  }

  lemma StoredOne(j: Job)
    ensures StoredAll([j]) == S.Kept(Stored(j))
  {
    assert [j][1..] == [];
    assert StoredAll([j]) == S.Kept(Stored(j)) + [];
  }

  lemma SetThroughText(jobs: seq<Job>, j: Job)
    requires AllCanonical(jobs) && Writable(j)
    ensures ParseCron(RenderCron(Replace(jobs, j.name, [j]))) == Replace(jobs, j.name, S.Kept(Stored(j)))
  {
    var i := S.Find(NameOf, jobs, j.name);
    var a, b := jobs[..i], if i < |jobs| then jobs[i + 1..] else [];
    StoredAround(a, j, b);
    WritableAround(a, j, b);
    ParseRender(a + [j] + b);
  }

  lemma WritableAround(a: seq<Job>, j: Job, b: seq<Job>)
    requires AllCanonical(a) && AllCanonical(b) && Writable(j)
    ensures AllWritable(a + [j] + b)
  {
    assert forall k :: 0 <= k < |a| ==> Writable(a[k]);
    assert forall k :: 0 <= k < |b| ==> Writable(b[k]);
  }

  lemma {:induction false} WithoutCanonical(jobs: seq<Job>, name: string)
    requires AllCanonical(jobs)
    ensures AllCanonical(S.Without(NameOf, jobs, name))
  {
    if jobs == [] {
    } else {
      WithoutCanonical(jobs[1..], name);
    }
  }

  // ----- Whole runs refine an ordered map ---------------------------------

  /** The edit on a plain list; a set job takes the form it is read back in, and
      vanishes when it is not read back at all. An edit that could not read the
      file starts from nothing. */
  function StepJobs(jobs: seq<Job>, edit: Edit, io: S.Io): seq<Job> {
    if !Accepted(edit) || !io.written || (!edit.Clear? && !io.started) then jobs else
      var known := if io.readable then jobs else [];
      match edit
      case Set(j) => Replace(known, j.name, S.Kept(Stored(j)))
      case Remove(name) => S.Without(NameOf, known, name)
      case Clear => []
  }

  function RunText(file: Option<string>, run: seq<(Edit, S.Io)>): Option<string>
    decreases |run|
  {
    if run == [] then file else RunText(StepText(file, run[0].0, run[0].1), run[1..])
  }

  function RunJobs(jobs: seq<Job>, run: seq<(Edit, S.Io)>): seq<Job>
    decreases |run|
  {
    if run == [] then jobs else RunJobs(StepJobs(jobs, run[0].0, run[0].1), run[1..])
  }

  lemma StepRefines(file: Option<string>, edit: Edit, io: S.Io)
    ensures ParseCron(S.TextOf(StepText(file, edit, io))) == StepJobs(ParseCron(S.TextOf(file)), edit, io)
  {
    var text := S.Current(file, io.readable);
    assert ParseCron(text) == if io.readable then ParseCron(S.TextOf(file)) else [];
    match edit
    case Set(j) => SetOnText(text, j);
    case Remove(name) => RemoveOnText(text, name);
    case Clear => ClearedText();
  }

  lemma SetOnText(text: string, j: Job)
    ensures Accepted(Set(j)) ==>
              ParseCron(RenderCron(Replace(ParseCron(text), j.name, [j]))) ==
              Replace(ParseCron(text), j.name, S.Kept(Stored(j)))
  {
    if Accepted(Set(j)) {
      ParseIsStable(text);
      AcceptedIsWritable(j);
      SetThroughText(ParseCron(text), j);
    }
  }

  lemma RemoveOnText(text: string, name: string)
    ensures ParseCron(RenderCron(S.Without(NameOf, ParseCron(text), name))) == S.Without(NameOf, ParseCron(text), name)
  {
    var kept := S.Without(NameOf, ParseCron(text), name);
    ParseIsStable(text);
    WithoutCanonical(ParseCron(text), name);
    ParseRender(kept);
    StoredAllCanonical(kept);
  }

  lemma ClearedText()
    ensures ParseCron(HEADER) == []
  {
    HeaderSilent("");
    assert HEADER + "" == HEADER;
  }

  /** Over every run of edits with any inputs and any failures, from any text,
      the file parses to exactly what the run makes of the job list. */
  lemma {:induction false} RunRefines(file: Option<string>, run: seq<(Edit, S.Io)>)
    ensures ParseCron(S.TextOf(RunText(file, run))) == RunJobs(ParseCron(S.TextOf(file)), run)
    decreases |run|
  {
    if run == [] {
    } else {
      StepRefines(file, run[0].0, run[0].1);
      RunRefines(StepText(file, run[0].0, run[0].1), run[1..]);
    }
  }

  function Names(jobs: seq<Job>): set<string> {
    if jobs == [] then {} else {jobs[0].name} + Names(jobs[1..])
  }

  /** No name occurs twice. */
  predicate Distinct(jobs: seq<Job>) {
    jobs == [] || (jobs[0].name !in Names(jobs[1..]) && Distinct(jobs[1..]))
  }

  /** The jobs by name. */
  function AsMap(jobs: seq<Job>): (m: map<string, Job>)
    ensures m.Keys == Names(jobs)
  {
    if jobs == [] then map[] else AsMap(jobs[1..])[jobs[0].name := jobs[0]]
  }

  lemma ConsAsMap(j: Job, rest: seq<Job>)
    ensures Names([j] + rest) == {j.name} + Names(rest)
    ensures AsMap([j] + rest) == AsMap(rest)[j.name := j]
    ensures Distinct([j] + rest) <==> j.name !in Names(rest) && Distinct(rest)
  {
    assert ([j] + rest)[1..] == rest;
  }

  lemma {:induction false} WithoutAsMap(jobs: seq<Job>, name: string)
    requires Distinct(jobs)
    ensures Distinct(S.Without(NameOf, jobs, name))
    ensures Names(S.Without(NameOf, jobs, name)) == Names(jobs) - {name}
    ensures AsMap(S.Without(NameOf, jobs, name)) == AsMap(jobs) - {name}
  {
    if jobs == [] {
    } else {
      WithoutAsMap(jobs[1..], name);
      var rest := S.Without(NameOf, jobs[1..], name);
      ConsAsMap(jobs[0], rest);
      assert jobs[0].name == name ==> S.Without(NameOf, jobs, name) == rest;
    }
  }

  lemma {:induction false} ReplaceAsMap(jobs: seq<Job>, name: string, with: Option<Job>)
    requires Distinct(jobs) && (with.Some? ==> with.value.name == name)
    ensures var after := Replace(jobs, name, S.Kept(with));
            && Distinct(after)
            && Names(after) == (if with.Some? then Names(jobs) + {name} else Names(jobs) - {name})
            && AsMap(after) == (if with.Some? then AsMap(jobs)[name := with.value] else AsMap(jobs) - {name})
  {
    if jobs == [] {
      ReplaceInNone(name, with);
    } else if jobs[0].name == name {
      ReplaceHead(jobs, name, S.Kept(with));
      ReplacedHeadAsMap(jobs, with);
    } else {
      ReplaceAsMap(jobs[1..], name, with);
      ReplaceCons(jobs, name, S.Kept(with));
      KeptHeadNames(jobs, Replace(jobs[1..], name, S.Kept(with)), name, with.Some?);
      KeptHeadAsMap(jobs, Replace(jobs[1..], name, S.Kept(with)), name, with);
    }
  }

  lemma KeptHeadNames(jobs: seq<Job>, rest: seq<Job>, name: string, sets: bool)
    requires jobs != [] && Distinct(jobs) && jobs[0].name != name && Distinct(rest)
    requires Names(rest) == (if sets then Names(jobs[1..]) + {name} else Names(jobs[1..]) - {name})
    ensures Distinct([jobs[0]] + rest)
    ensures Names([jobs[0]] + rest) == (if sets then Names(jobs) + {name} else Names(jobs) - {name})
  {
    ConsAsMap(jobs[0], rest);
  }

  lemma KeptHeadAsMap(jobs: seq<Job>, rest: seq<Job>, name: string, with: Option<Job>)
    requires jobs != [] && jobs[0].name != name
    requires AsMap(rest) == (if with.Some? then AsMap(jobs[1..])[name := with.value] else AsMap(jobs[1..]) - {name})
    ensures AsMap([jobs[0]] + rest) == (if with.Some? then AsMap(jobs)[name := with.value] else AsMap(jobs) - {name})
  {
    ConsAsMap(jobs[0], rest);
    if with.Some? {
      UpdatesCommute(AsMap(jobs[1..]), jobs[0].name, jobs[0], name, with.value);
    } else {
      UpdateAndRemove(AsMap(jobs[1..]), jobs[0].name, jobs[0], name);
    }
  }

  lemma UpdatesCommute(m: map<string, Job>, k: string, v: Job, l: string, w: Job)
    requires k != l
    ensures m[l := w][k := v] == m[k := v][l := w]
  {
  }

  lemma UpdateAndRemove(m: map<string, Job>, k: string, v: Job, l: string)
    requires k != l
    ensures (m - {l})[k := v] == m[k := v] - {l}
  {
  }

  lemma {:induction false} ReplacedHeadAsMap(jobs: seq<Job>, with: Option<Job>)
    requires jobs != [] && Distinct(jobs) && (with.Some? ==> with.value.name == jobs[0].name)
    ensures var name, after := jobs[0].name, S.Kept(with) + jobs[1..];
            && Distinct(after)
            && Names(after) == (if with.Some? then Names(jobs) + {name} else Names(jobs) - {name})
            && AsMap(after) == (if with.Some? then AsMap(jobs)[name := with.value] else AsMap(jobs) - {name})
  {
    if with.Some? {
      ConsAsMap(with.value, jobs[1..]);
    } else {
      assert [] + jobs[1..] == jobs[1..];
    }
  }

  lemma ReplaceInNone(name: string, with: Option<Job>)
    requires with.Some? ==> with.value.name == name
    ensures var after := Replace([], name, S.Kept(with));
            && Distinct(after)
            && Names(after) == (if with.Some? then {name} else {})
            && AsMap(after) == (if with.Some? then map[name := with.value] else map[])
  {
    assert Replace([], name, S.Kept(with)) == S.Kept(with);
    if with.Some? {
      assert [with.value][1..] == [];
    }
  }

  lemma ReplaceHead(jobs: seq<Job>, name: string, with: seq<Job>)
    requires jobs != [] && jobs[0].name == name
    ensures Replace(jobs, name, with) == with + jobs[1..]
  {
    assert jobs[..0] + with == with;
  }

  lemma ReplaceCons(jobs: seq<Job>, name: string, with: seq<Job>)
    requires jobs != [] && jobs[0].name != name
    ensures Replace(jobs, name, with) == [jobs[0]] + Replace(jobs[1..], name, with)
  {
    var i := S.Find(NameOf, jobs[1..], name);
    assert S.Find(NameOf, jobs, name) == 1 + i;
    assert jobs[..1 + i] == [jobs[0]] + jobs[1..][..i];
  }

  /** Names stay distinct over every run, and each step is the map operation it
      is named for. */
  lemma {:induction false} RunKeepsNamesDistinct(jobs: seq<Job>, run: seq<(Edit, S.Io)>)
    requires Distinct(jobs)
    ensures Distinct(RunJobs(jobs, run))
    decreases |run|
  {
    if run == [] {
    } else {
      StepIsMapUpdate(jobs, run[0].0, run[0].1);
      RunKeepsNamesDistinct(StepJobs(jobs, run[0].0, run[0].1), run[1..]);
    }
  }

  function MapAfter(m: map<string, Job>, edit: Edit): map<string, Job> {
    match edit
    case Set(j) => if Stored(j).Some? then m[j.name := Stored(j).value] else m - {j.name}
    case Remove(name) => m - {name}
    case Clear => map[]
  }

  lemma StepIsMapUpdate(jobs: seq<Job>, edit: Edit, io: S.Io)
    requires Distinct(jobs)
    ensures Distinct(StepJobs(jobs, edit, io))
    ensures Accepted(edit) && io.started && io.written ==>
              AsMap(StepJobs(jobs, edit, io)) == MapAfter(if io.readable then AsMap(jobs) else map[], edit)
  {
    var known := if io.readable then jobs else [];
    match edit
    case Set(j) => ReplaceAsMap(known, j.name, Stored(j));
    case Remove(name) => WithoutAsMap(known, name);
    case Clear =>
  }

  /** The text itself after the first set: the two lines of the job and a blank
      one, the second of them as cron reads it. */
  lemma FirstSet(j: Job, io: S.Io)
    requires Accepted(Set(j)) && io.started && io.written
    ensures StepText(None, Set(j), io) ==
            Some(HEADER + (MARKER + j.name + "\n" + (j.schedule + " " + (j.user + " " + j.command)) + "\n\n"))
  {
    ReplaceNothing(j);
    RenderOne(j);
  }

  lemma ReplaceNothing(j: Job)
    ensures Replace(ParseCron(""), j.name, [j]) == [j]
  {
  }

  lemma RenderOne(j: Job)
    ensures RenderJobs([j]) == MARKER + j.name + "\n" + JobBody(j) + "\n\n"
  {
    assert [j][1..] == [];
    TwoLines(MARKER + j.name, JobBody(j), RenderJobs([]));
  }

  function EditedName(edit: Edit): string
    requires !edit.Clear?
  {
    match edit
    case Set(j) => j.name
    case Remove(name) => name
  }

  /** Every job but those of the edited name stays, in its order. */
  ghost predicate KeepsOthers(edit: Edit, io: S.Io)
    requires !edit.Clear?
  {
    forall file: Option<string> :: OthersStay(file, edit, io)
  }

  predicate OthersStay(file: Option<string>, edit: Edit, io: S.Io)
    requires !edit.Clear?
  {
    var name := EditedName(edit);
    S.Without(NameOf, ParseCron(S.TextOf(StepText(file, edit, io))), name) ==
    S.Without(NameOf, ParseCron(S.TextOf(file)), name)
  }

  lemma OthersAfterStep(file: Option<string>, edit: Edit, io: S.Io)
    requires Accepted(edit) && !edit.Clear? && io.started && io.written
    ensures S.Without(NameOf, ParseCron(S.TextOf(StepText(file, edit, io))), EditedName(edit)) ==
            S.Without(NameOf, if io.readable then ParseCron(S.TextOf(file)) else [], EditedName(edit))
  {
    StepRefines(file, edit, io);
    var known := if io.readable then ParseCron(S.TextOf(file)) else [];
    match edit
    case Set(j) => S.OthersAround(NameOf, known, j.name, S.Kept(Stored(j)));
    case Remove(name) => S.WithoutTwice(NameOf, known, name);
  }

  lemma CanonicalJob(name: string) returns (j: Job)
    requires |name| == 1 && !IsWhitespace(name[0])
    ensures Canonical(j) && j.name == name
  {
    var words := ["@", "b", "x"];
    assert IsWord(words[0]) && IsWord(words[1]) && IsWord(words[2]);
    ReadJobCanonical(name, words);
    j := ReadJob(name, words).value;
  }

  /** A file with one job, of another name. */
  lemma FileWithOtherJob(name: string) returns (file: Option<string>, j: Job)
    ensures ParseCron(S.TextOf(file)) == [j] && j.name != name
  {
    j := CanonicalJob(if name == "a" then "b" else "a");
    file := Some(RenderCron([j]));
    ParseRender([j]);
    StoredAllCanonical([j]);
  }

  /** A completed set or removal keeps every other job, whatever the file,
      exactly when it could read the file. */
  lemma OthersKeptExactly(edit: Edit, io: S.Io)
    requires Accepted(edit) && !edit.Clear? && io.started && io.written
    ensures KeepsOthers(edit, io) <==> io.readable
  {
    forall file: Option<string>
      ensures io.readable ==> OthersStay(file, edit, io)
    {
      OthersAfterStep(file, edit, io);
    }
    var file, j := FileWithOtherJob(EditedName(edit));
    OthersAfterStep(file, edit, io);
    assert [j][1..] == [];
    assert S.Without(NameOf, [j], EditedName(edit)) == [j];
    assert OthersStay(file, edit, io) ==> io.readable;
  }

  /** From a missing file, for runs whose jobs all fit, the file is the ordered
      map a caller expects: distinct names, each holding the last job set. */
  lemma FittingRunFromNothing(run: seq<(Edit, S.Io)>)
    requires forall i :: 0 <= i < |run| ==> run[i].1.readable
    requires forall i :: 0 <= i < |run| && run[i].0.Set? ==>
                           FieldsFit(run[i].0.job.schedule) && Tokens(run[i].0.job.command) != []
    ensures ParseCron(S.TextOf(RunText(None, run))) == RunExpected([], run)
    ensures Distinct(ParseCron(S.TextOf(RunText(None, run))))
  {
    RunRefines(None, run);
    RunKeepsNamesDistinct([], run);
    RunAsExpected([], run);
  }

  function RunExpected(jobs: seq<Job>, run: seq<(Edit, S.Io)>): seq<Job>
    decreases |run|
  {
    if run == [] then jobs else
      var (edit, io) := run[0];
      var after :=
        if !Accepted(edit) || !io.written || (!edit.Clear? && !io.started) then jobs else
          match edit
          case Set(j) => Replace(jobs, j.name, [Collapsed(j)])
          case Remove(name) => S.Without(NameOf, jobs, name)
          case Clear => [];
      RunExpected(after, run[1..])
  }

  lemma {:induction false} RunAsExpected(jobs: seq<Job>, run: seq<(Edit, S.Io)>)
    requires forall i :: 0 <= i < |run| ==> run[i].1.readable
    requires forall i :: 0 <= i < |run| && run[i].0.Set? ==>
                           FieldsFit(run[i].0.job.schedule) && Tokens(run[i].0.job.command) != []
    ensures RunJobs(jobs, run) == RunExpected(jobs, run)
    decreases |run|
  {
    if run == [] {
    } else {
      var (edit, io) := run[0];
      if edit.Set? && Accepted(edit) {
        StoredExactly(edit.job);
      }
      RunAsExpected(StepJobs(jobs, edit, io), run[1..]);
    }
  }
}
