/** The shared input validators, as the agent re-checks them before acting. */
module Validators {
  import opened Text
  import opened Utf8

  predicate IsValidSysctlKey(key: string) {
    && key != [] && ByteLen(key) <= 200 && key[0] != '-'
    && forall i :: 0 <= i < |key| ==> IsAlphanumeric(key[i]) || key[i] in "./_-"
  }

  predicate IsValidSysctlValue(value: string) {
    value != [] && ByteLen(value) <= 200 && NoControl(value)
  }

  predicate IsValidKernelModuleName(name: string) {
    && name != [] && ByteLen(name) <= 64 && name[0] != '-'
    && forall i :: 0 <= i < |name| ==> IsAlphanumeric(name[i]) || name[i] in "_-."
  }

  predicate IsValidJournaldValue(value: string) {
    && value != [] && ByteLen(value) <= 32
    && forall i :: 0 <= i < |value| ==> IsAlphanumeric(value[i]) || value[i] in ".%"
  }

  const NICKNAMES := ["reboot", "yearly", "annually", "monthly", "weekly", "daily", "hourly"]

  predicate IsValidCronSchedule(schedule: string) {
    && schedule != [] && ByteLen(schedule) <= 100
    && if schedule[0] == '@' then schedule[1..] in NICKNAMES
       else forall i :: 0 <= i < |schedule| ==> IsAlphanumeric(schedule[i]) || schedule[i] in "*/,- "
  }

  predicate IsValidCronCommand(command: string) {
    command != [] && ByteLen(command) <= 500 && NoControl(command)
  }

  predicate IsValidAccountName(name: string) {
    && name != [] && ByteLen(name) <= 32
    && (IsLower(name[0]) || name[0] == '_')
    && forall i :: 1 <= i < |name| ==> IsLower(name[i]) || IsDigit(name[i]) || name[i] in "_-"
  }

  predicate IsValidAbsolutePath(path: string) {
    path != [] && path[0] == '/' && path != "/" && ByteLen(path) <= 4096 && NoControl(path)
  }

  predicate DotDotSegmentAt(path: string, i: int) {
    && 0 <= i <= |path| - 2 && path[i] == '.' && path[i + 1] == '.'
    && (i > 0 ==> path[i - 1] in "\\/") && (i + 2 < |path| ==> path[i + 2] in "\\/")
  }

  /** No segment between separators is exactly `..`. */
  predicate NoDotDotSegment(path: string) {
    forall i :: 0 <= i < |path| ==> !DotDotSegmentAt(path, i)
  }

  predicate IsValidWindowsAbsolutePath(path: string) {
    && |path| >= 3 && (IsLower(path[0]) || IsUpper(path[0])) && path[1] == ':' && path[2] == '\\'
    && ByteLen(path) <= 4096 && NoDotDotSegment(path) && NoControl(path)
  }

  predicate HasDotDot(s: string) {
    exists i :: 0 <= i <= |s| - 2 && s[i] == '.' && s[i + 1] == '.'
  }

  predicate IsValidQuarantineFilename(name: string) {
    && name != [] && ByteLen(name) <= 4096
    && '/' !in name && '\\' !in name && !HasDotDot(name) && NoControl(name)
  }

  // ----- Which inputs are let through -------------------------------------

  predicate Of(s: string, extra: string) {
    forall i :: 0 <= i < |s| ==> IsAlphanumeric(s[i]) || s[i] in extra
  }

  lemma BytesOf(s: string, extra: string)
    requires Of(s, extra) && AllAscii(extra)
    ensures ByteLen(s) == |s|
  {
    assert AllAscii(s);
    EncodeAscii(s);
  }

  /** The validators with an alphabet, by length and characters: a sysctl key, a
      kernel module, a journald value. */
  lemma NamesExactly(s: string)
    ensures IsValidSysctlKey(s) <==> 1 <= |s| <= 200 && s[0] != '-' && Of(s, "-./_")
    ensures IsValidKernelModuleName(s) <==> 1 <= |s| <= 64 && s[0] != '-' && Of(s, "-._")
    ensures IsValidJournaldValue(s) <==> 1 <= |s| <= 32 && Of(s, "%.")
  {
    if Of(s, "-./_") {
      BytesOf(s, "-./_");
    }
    if Of(s, "-._") {
      BytesOf(s, "-._");
    }
    if Of(s, "%.") {
      BytesOf(s, "%.");
    }
  }

  /** An account name: lower-case letters, digits, underscores and hyphens, with
      neither a digit nor a hyphen in front. */
  lemma AccountNameExactly(s: string)
    ensures IsValidAccountName(s) <==>
            && 1 <= |s| <= 32 && Of(s, "-_") && !IsDigit(s[0]) && s[0] != '-'
            && forall i :: 0 <= i < |s| ==> !IsUpper(s[i])
  {
    if Of(s, "-_") {
      BytesOf(s, "-_");
    }
  }

  const PERIODS := ["hourly", "daily", "weekly", "monthly", "yearly", "annually", "reboot"]

  /** A cron schedule: a nickname after `@`, or up to 100 characters of fields. */
  lemma CronScheduleExactly(s: string)
    ensures IsValidCronSchedule(s) <==>
            || (s != [] && s[0] == '@' && s[1..] in PERIODS)
            || (1 <= |s| <= 100 && Of(s, " *,-/"))
  {
    if Of(s, " *,-/") {
      BytesOf(s, " *,-/");
    }
    if s != [] && s[0] == '@' {
      NicknamesExactly(s[1..]);
      if s[1..] in PERIODS {
        assert s == [s[0]] + s[1..];
        EncodeAscii(s);
      }
    }
  }

  lemma NicknamesExactly(s: string)
    ensures s in NICKNAMES <==> s in PERIODS
    ensures s in PERIODS ==> |s| <= 8 && AllAscii(s)
  {
    assert NICKNAMES[0] == PERIODS[6] && NICKNAMES[1] == PERIODS[4] && NICKNAMES[2] == PERIODS[5];
    assert NICKNAMES[3] == PERIODS[3] && NICKNAMES[4] == PERIODS[2];
    assert NICKNAMES[5] == PERIODS[1] && NICKNAMES[6] == PERIODS[0];
    if s in PERIODS {
      var i :| 0 <= i < |PERIODS| && s == PERIODS[i];
    }
  }

  predicate Printable(s: string) { forall i :: 0 <= i < |s| ==> ' ' <= s[i] <= '~' }

  lemma PrintableExactly(s: string)
    requires AllAscii(s)
    ensures NoControl(s) <==> Printable(s)
    ensures ByteLen(s) == |s|
  {
    EncodeAscii(s);
  }

  /** Free text and paths, in ASCII: printable text is let through by its length
      and, for a path, its start. */
  lemma FreeTextExactly(s: string)
    requires AllAscii(s)
    ensures IsValidSysctlValue(s) <==> 1 <= |s| <= 200 && Printable(s)
    ensures IsValidCronCommand(s) <==> 1 <= |s| <= 500 && Printable(s)
    ensures IsValidAbsolutePath(s) <==> 2 <= |s| <= 4096 && s[0] == '/' && Printable(s)
  {
    PrintableExactly(s);
    assert |s| == 1 && s[0] == '/' ==> s == "/";
  }

  /** The name of a quarantined file, in ASCII. */
  lemma QuarantineFilenameExactly(s: string)
    requires AllAscii(s)
    ensures IsValidQuarantineFilename(s) <==>
            && 1 <= |s| <= 4096 && Printable(s) && (forall i :: 0 <= i < |s| ==> s[i] !in "/\\")
            && forall a: string, b: string :: s != a + ".." + b
  {
    PrintableExactly(s);
    DotDotExactly(s);
  }

  lemma DotDotExactly(s: string)
    ensures HasDotDot(s) <==> exists a: string, b: string :: s == a + ".." + b
  {
    if i :| 0 <= i <= |s| - 2 && s[i] == '.' && s[i + 1] == '.' {
      assert s == s[..i] + ".." + s[i + 2..];
    }
    if a: string, b: string :| s == a + ".." + b {
      assert s[|a|] == '.' && s[|a| + 1] == '.';
    }
  }

  /** A Windows path, in ASCII: a drive letter, and no segment that is `..`. */
  lemma WindowsPathExactly(s: string)
    requires AllAscii(s)
    ensures IsValidWindowsAbsolutePath(s) <==>
            && 3 <= |s| <= 4096 && Printable(s) && IsAlphanumeric(s[0]) && !IsDigit(s[0]) && s[1..3] == ":\\"
            && ".." !in PathSegments(s)
  {
    PrintableExactly(s);
    NoDotDotSegmentExactly(s);
    DriveExactly(s);
  }

  lemma DriveExactly(s: string)
    ensures |s| >= 3 ==> (s[1..3] == ":\\" <==> s[1] == ':' && s[2] == '\\')
  {
    if |s| >= 3 {
      assert s[1..3] == [s[1], s[2]];
    }
  }

  /** How many leading characters are neither a slash nor a backslash. */
  function SegmentEnd(path: string): (n: nat)
    ensures n <= |path| && (n < |path| ==> path[n] in "\\/")
    ensures forall i :: 0 <= i < n ==> path[i] !in "\\/"
  {
    if path == [] || path[0] in "\\/" then 0 else 1 + SegmentEnd(path[1..])
  }

  /** The path cut at every slash and backslash. */
  function PathSegments(path: string): seq<string>
    decreases |path|
  {
    var n := SegmentEnd(path);
    [path[..n]] + if n < |path| then PathSegments(path[n + 1..]) else []
  }

  /** The test at each `..` is the source's test of each segment. */
  lemma {:induction false} NoDotDotSegmentExactly(path: string)
    ensures NoDotDotSegment(path) <==> ".." !in PathSegments(path)
    decreases |path|
  {
    var n := SegmentEnd(path);
    FirstSegmentDots(path, n);
    if n < |path| {
      var rest := path[n + 1..];
      NoDotDotSegmentExactly(rest);
      assert PathSegments(path) == [path[..n]] + PathSegments(rest);
    } else {
      assert PathSegments(path) == [path[..n]];
    }
  }

  lemma FirstSegmentDots(path: string, n: nat)
    requires n == SegmentEnd(path)
    ensures NoDotDotSegment(path) <==>
            path[..n] != ".." && (n < |path| ==> NoDotDotSegment(path[n + 1..]))
  {
    DotsBefore(path, n);
    if n < |path| {
      var rest := path[n + 1..];
      forall i | n < i < |path| ensures DotDotSegmentAt(path, i) <==> DotDotSegmentAt(rest, i - n - 1) {
        DotsAfter(path, n, i);
      }
      forall i | 0 <= i < |rest| ensures DotDotSegmentAt(rest, i) <==> DotDotSegmentAt(path, n + 1 + i) {
        DotsAfter(path, n, n + 1 + i);
      }
    }
  }

  lemma DotsBefore(path: string, n: nat)
    requires n == SegmentEnd(path)
    ensures path[..n] == ".." <==> DotDotSegmentAt(path, 0)
    ensures forall i :: 0 < i <= n ==> !DotDotSegmentAt(path, i)
  {
    if DotDotSegmentAt(path, 0) {
      assert path[0] !in "\\/" && path[1] !in "\\/";
      assert n == 2;
    }
  }

  lemma DotsAfter(path: string, n: nat, i: nat)
    requires n < i < |path| && path[n] in "\\/"
    ensures DotDotSegmentAt(path, i) <==> DotDotSegmentAt(path[n + 1..], i - n - 1)
  {
  }
}
