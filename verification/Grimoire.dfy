/** Three of the managed drop-in files: persistent sysctl overrides, journald
    retention, and the kernel-module blacklist. */
module Grimoire {
  import opened Text
  import opened LineStore
  import opened Validators

  function KeyOf(e: Entry): string { e.key }

  /** `key = value` and `key=value` lines, split at the first `=`. */
  function ReadAssignment(l: string): Option<Entry> {
    match SplitOnce(l, '=')
    case None => None
    case Some((k, v)) => Some(Entry(Trim(k), Trim(v)))
  }

  // ----- sysctl -----------------------------------------------------------

  // In short pieces, which the verifier reads far faster than one long literal.
  const MANAGED := "# Managed by " + "Abyssal Arsenal " + "(Grimoire) -- " + "do not edit manually"

  function WriteSysctl(e: Entry): string { e.key + " = " + e.value }

  function ReadSysctl(l: string): Option<Entry> {
    if l == [] || l[0] == '#' then None else ReadAssignment(l)
  }

  function SysctlFormat(header: string): Format<Entry> {
    Format(header, WriteSysctl, ReadSysctl, KeyOf, TakeValue)
  }

  const SYSCTL := SysctlFormat(MANAGED + "\n")

  // ----- journald ---------------------------------------------------------

  function WriteJournald(e: Entry): string { e.key + "=" + e.value }

  function ReadJournald(l: string): Option<Entry> {
    if l == [] || l[0] == '#' || l[0] == '[' then None else ReadAssignment(l)
  }

  function JournaldFormat(header: string): Format<Entry> {
    Format(header, WriteJournald, ReadJournald, KeyOf, TakeValue)
  }

  const JOURNALD := JournaldFormat(MANAGED + "\n" + ("[Journal]" + "\n"))

  datatype JournaldSetting = SystemMaxUse | SystemKeepFree | MaxRetentionSec | MaxFileSec {
    function Key(): string {
      match this
      case SystemMaxUse => "System" + "MaxUse"
      case SystemKeepFree => "System" + "KeepFree"
      case MaxRetentionSec => "MaxRetention" + "Sec"
      case MaxFileSec => "MaxFile" + "Sec"
    }
  }

  // ----- module blacklist -------------------------------------------------

  function WriteModule(m: string): string { "blacklist " + m }

  function ReadModule(l: string): Option<string> {
    match StripPrefix(l, "blacklist ")
    case None => None
    case Some(rest) => if Trim(rest) == [] then None else Some(Trim(rest))
  }

  function ModuleKey(m: string): string { m }

  function KeepModule(prior: string, given: string): string { prior }

  function BlacklistFormat(header: string): Format<string> {
    Format(header, WriteModule, ReadModule, ModuleKey, KeepModule)
  }

  const BLACKLIST := BlacklistFormat(MANAGED + "\n")

  // ----- Reading an assignment line ---------------------------------------

  lemma ReadAssignmentAt(k: string, v: string)
    requires '=' !in k
    ensures ReadAssignment(k + ['='] + v) == Some(Entry(Trim(k), Trim(v)))
  {
    SplitOnceAt(k, '=', v);
  }

  /** Blanks around a line do not change what it is read as. */
  lemma ReadPadded(a: string, k: string, v: string, b: string)
    requires Blank(a) && Blank(b) && '=' !in k
    ensures ReadAssignment((a + k) + ['='] + (v + b)) == Some(Entry(Trim(k), Trim(v)))
  {
    BlankLacks(a, '=');
    ReadAssignmentAt(a + k, v + b);
    TrimLeft(a, k);
    TrimRight(v, b);
  }

  lemma ReadTrimmed(l: string)
    ensures ReadAssignment(Trim(l)) == ReadAssignment(l)
  {
    var a, b := TrimParts(l);
    TrimContent(l, '=');
    if '=' in l {
      var (k, v) := SplitOnce(Trim(l), '=').value;
      assert l == (a + k) + ['='] + (v + b);
      ReadPadded(a, k, v, b);
    }
  }

  /** An assignment line written with blanks around the `=` reads as the
      trimmed parts, and starts with the key. */
  lemma ReadWritten(k: string, pad: string, v: string, l: string)
    requires '=' !in k && Trimmed(k) && Blank(pad)
    requires l == (k + pad) + ['='] + (pad + v)
    ensures Trim(l) != [] && Trim(l)[0] == (if k == [] then '=' else k[0])
    ensures ReadAssignment(Trim(l)) == Some(Entry(k, Trim(v)))
  {
    ReadTrimmed(l);
    BlankLacks(pad, '=');
    ReadAssignmentAt(k + pad, pad + v);
    TrimRight(k, pad);
    TrimFixed(k);
    TrimLeft(pad, v);
    WrittenStart(k, pad, v, l);
  }

  lemma WrittenStart(k: string, pad: string, v: string, l: string)
    requires Trimmed(k) && Blank(pad)
    requires l == (k + pad) + ['='] + (pad + v)
    ensures Trim(l) != [] && Trim(l)[0] == (if k == [] then '=' else k[0])
  {
    if k == [] {
      assert l == pad + (['='] + (pad + v));
      TrimLeft(pad, ['='] + (pad + v));
      TrimFirst(['='] + (pad + v));
    } else {
      TrimFirst(l);
    }
  }

  lemma NoBlankStart(a: string, rest: string)
    requires Blank(a) && Trimmed(a + rest)
    ensures a == []
  {
  }

  lemma ReadAssignmentParts(l: string)
    requires Trimmed(l) && l != [] && '\n' !in l && ReadAssignment(l).Some?
    ensures var e := ReadAssignment(l).value;
            && '=' !in e.key && Trimmed(e.key) && Trimmed(e.value)
            && '\n' !in e.key && '\n' !in e.value
            && (e.key != [] ==> e.key[0] == l[0])
  {
    var (k, v) := SplitOnce(l, '=').value;
    var a, b := TrimParts(k);
    var _, _ := TrimParts(v);
    TrimContent(k, '\n');
    TrimContent(v, '\n');
    TrimContent(k, '=');
    NoBlankStart(a, Trim(k) + b + ['='] + v);
  }

  // ----- Each format keeps what it reads ----------------------------------

  lemma ManagedIsComment()
    ensures '\n' !in MANAGED && Trim(MANAGED) == MANAGED
  {
    TrimFixed(MANAGED);
  }

  lemma SysctlReadsCanonical(header: string)
    ensures ReadsCanonical(SysctlFormat(header))
  {
    forall l: string | '\n' !in l && Trimmed(l) && ReadSysctl(l).Some?
      ensures Canonical(SysctlFormat(header), ReadSysctl(l).value)
    {
      ReadAssignmentParts(l);
      SysctlEntryCanonical(header, ReadSysctl(l).value);
    }
  }

  lemma SysctlEntryCanonical(header: string, e: Entry)
    requires '=' !in e.key && Trimmed(e.key) && Trimmed(e.value) && '\n' !in e.key && '\n' !in e.value
    requires e.key != [] ==> e.key[0] != '#'
    ensures Canonical(SysctlFormat(header), e)
  {
    assert '\n' !in WriteSysctl(e);
    TrimFixed(e.value);
    ReadWritten(e.key, " ", e.value, WriteSysctl(e));
  }

  lemma SysctlHeaderSilent()
    ensures HeaderSilent(SYSCTL)
  {
    forall rest: string ensures Parse(SYSCTL, SYSCTL.header + rest) == Parse(SYSCTL, rest) {
      ManagedIsComment();
      CommentSilent(SYSCTL, MANAGED, rest);
    }
  }

  lemma JournaldReadsCanonical(header: string)
    ensures ReadsCanonical(JournaldFormat(header))
  {
    forall l: string | '\n' !in l && Trimmed(l) && ReadJournald(l).Some?
      ensures Canonical(JournaldFormat(header), ReadJournald(l).value)
    {
      ReadAssignmentParts(l);
      JournaldEntryCanonical(header, ReadJournald(l).value);
    }
  }

  lemma JournaldEntryCanonical(header: string, e: Entry)
    requires '=' !in e.key && Trimmed(e.key) && Trimmed(e.value) && '\n' !in e.key && '\n' !in e.value
    requires e.key != [] ==> e.key[0] != '#' && e.key[0] != '['
    ensures Canonical(JournaldFormat(header), e)
  {
    assert '\n' !in WriteJournald(e);
    TrimFixed(e.value);
    ReadWritten(e.key, "", e.value, WriteJournald(e));
  }

  lemma JournaldHeaderSilent()
    ensures HeaderSilent(JOURNALD)
  {
    forall rest: string ensures Parse(JOURNALD, JOURNALD.header + rest) == Parse(JOURNALD, rest) {
      ManagedIsComment();
      JournalSectionSilent(rest);
      Reassociate(MANAGED + "\n", "[Journal]" + "\n", rest);
      CommentSilent(JOURNALD, MANAGED, "[Journal]" + "\n" + rest);
    }
  }

  lemma JournalSectionSilent(rest: string)
    ensures Parse(JOURNALD, "[Journal]" + "\n" + rest) == Parse(JOURNALD, rest)
  {
    var section := "[Journal]";
    assert section[0] == '[' && '\n' !in section;
    TrimFixed(section);
    CommentSilent(JOURNALD, section, rest);
  }

  lemma ModuleLine(m: string)
    requires m != [] && Trimmed(m)
    ensures ReadModule(Trim(WriteModule(m))) == Some(m)
  {
    TrimFixed(WriteModule(m));
    TrimFixed(m);
  }

  lemma BlacklistReadsCanonical(header: string)
    ensures ReadsCanonical(BlacklistFormat(header))
  {
    forall l: string | '\n' !in l && Trimmed(l) && ReadModule(l).Some?
      ensures Canonical(BlacklistFormat(header), ReadModule(l).value)
    {
      var rest := StripPrefix(l, "blacklist ").value;
      var _, _ := TrimParts(rest);
      TrimContent(rest, '\n');
      ModuleLine(ReadModule(l).value);
    }
  }

  lemma BlacklistHeaderSilent()
    ensures HeaderSilent(BLACKLIST)
  {
    forall rest: string ensures Parse(BLACKLIST, BLACKLIST.header + rest) == Parse(BLACKLIST, rest) {
      ManagedIsComment();
      assert MANAGED[0] == '#' && "blacklist "[0] == 'b';
      CommentSilent(BLACKLIST, MANAGED, rest);
    }
  }

  /** For any text at all, each of the three files parses to the same entries
      once it is rendered again. */
  lemma SysctlIsStable(text: string)
    ensures Parse(SYSCTL, Render(SYSCTL, Parse(SYSCTL, text))) == Parse(SYSCTL, text)
  {
    SysctlHeaderSilent();
    SysctlReadsCanonical(SYSCTL.header);
    ParseIsStable(SYSCTL, text);
  }

  lemma JournaldIsStable(text: string)
    ensures Parse(JOURNALD, Render(JOURNALD, Parse(JOURNALD, text))) == Parse(JOURNALD, text)
  {
    JournaldHeaderSilent();
    JournaldReadsCanonical(JOURNALD.header);
    ParseIsStable(JOURNALD, text);
  }

  lemma BlacklistIsStable(text: string)
    ensures Parse(BLACKLIST, Render(BLACKLIST, Parse(BLACKLIST, text))) == Parse(BLACKLIST, text)
  {
    BlacklistHeaderSilent();
    BlacklistReadsCanonical(BLACKLIST.header);
    ParseIsStable(BLACKLIST, text);
  }

  // ----- What the validators let through ----------------------------------

  lemma SysctlKeyShape(key: string)
    requires IsValidSysctlKey(key)
    ensures IsWord(key) && Trimmed(key) && '=' !in key && '\n' !in key && key[0] != '#'
  {
    assert forall i :: 0 <= i < |key| ==> !IsWhitespace(key[i]) && key[i] != '=' && key[i] != '#';
  }

  lemma SettableWhenRead(f: Format<Entry>, e: Entry, n: Entry)
    requires f.key == KeyOf && f.merge == TakeValue
    requires '\n' !in f.write(e) && ReadBack(f, e) == Some(n) && n.key == e.key
    ensures Admissible(f, e) && Normal(f, e) == n
  {
    forall prior: Entry | Canonical(f, prior) && f.key(prior) == f.key(e)
      ensures MergesCleanly(f, prior, e)
    {
      assert f.merge(prior, e) == e && f.merge(prior, n) == n;
    }
  }

  lemma SysctlSettable(header: string, key: string, value: string)
    requires IsValidSysctlKey(key) && IsValidSysctlValue(value)
    ensures Admissible(SysctlFormat(header), Entry(key, value))
    ensures Normal(SysctlFormat(header), Entry(key, value)) == Entry(key, Trim(value))
  {
    SysctlKeyShape(key);
    SysctlValueShape(value);
    SysctlShapeSettable(header, key, value);
  }

  lemma SysctlValueShape(value: string)
    requires IsValidSysctlValue(value)
    ensures '\n' !in value
  {
    assert forall i :: 0 <= i < |value| ==> value[i] != '\n';
  }

  lemma SysctlShapeSettable(header: string, key: string, value: string)
    requires IsWord(key) && Trimmed(key) && '=' !in key && '\n' !in key && key[0] != '#' && '\n' !in value
    ensures Admissible(SysctlFormat(header), Entry(key, value))
    ensures Normal(SysctlFormat(header), Entry(key, value)) == Entry(key, Trim(value))
  {
    var e := Entry(key, value);
    assert '\n' !in WriteSysctl(e);
    ReadWritten(key, " ", value, WriteSysctl(e));
    SettableWhenRead(SysctlFormat(header), e, Entry(key, Trim(value)));
  }

  predicate Alphanumeric(s: string) { s != [] && forall i :: 0 <= i < |s| ==> IsAlphanumeric(s[i]) }

  lemma AlphanumericConcat(a: string, b: string)
    requires Alphanumeric(a) && Alphanumeric(b)
    ensures Alphanumeric(a + b)
  {
  }

  lemma JournaldKeyAlphanumeric(setting: JournaldSetting)
    ensures Alphanumeric(setting.Key())
  {
    match setting {
      case SystemMaxUse => AlphanumericConcat("System", "MaxUse");
      case SystemKeepFree => AlphanumericConcat("System", "KeepFree");
      case MaxRetentionSec => AlphanumericConcat("MaxRetention", "Sec");
      case MaxFileSec => AlphanumericConcat("MaxFile", "Sec");
    }
  }

  lemma AlphanumericShape(key: string)
    requires Alphanumeric(key)
    ensures Trimmed(key) && '=' !in key && '\n' !in key && key[0] != '#' && key[0] != '['
  {
  }

  lemma JournaldValueShape(value: string)
    requires IsValidJournaldValue(value)
    ensures Trimmed(value) && '\n' !in value
  {
    assert forall i :: 0 <= i < |value| ==> !IsWhitespace(value[i]);
  }

  lemma JournaldSettable(header: string, setting: JournaldSetting, value: string)
    requires IsValidJournaldValue(value)
    ensures Admissible(JournaldFormat(header), Entry(setting.Key(), value))
    ensures Normal(JournaldFormat(header), Entry(setting.Key(), value)) == Entry(setting.Key(), value)
  {
    var key := setting.Key();
    JournaldKeyAlphanumeric(setting);
    AlphanumericShape(key);
    JournaldValueShape(value);
    JournaldEntryCanonical(header, Entry(key, value));
    SettableWhenRead(JournaldFormat(header), Entry(key, value), Entry(key, value));
  }

  lemma ModuleSettable(header: string, m: string)
    requires IsValidKernelModuleName(m)
    ensures Admissible(BlacklistFormat(header), m)
    ensures Normal(BlacklistFormat(header), m) == m
  {
    ModuleNameShape(m);
    ModuleShapeSettable(header, m);
  }

  lemma ModuleNameShape(m: string)
    requires IsValidKernelModuleName(m)
    ensures m != [] && Trimmed(m) && '\n' !in m
  {
    assert forall i :: 0 <= i < |m| ==> !IsWhitespace(m[i]);
  }

  lemma ModuleShapeSettable(header: string, m: string)
    requires m != [] && Trimmed(m) && '\n' !in m
    ensures Admissible(BlacklistFormat(header), m)
    ensures Normal(BlacklistFormat(header), m) == m
  {
    assert '\n' !in WriteModule(m);
    ModuleLine(m);
  }

  // ----- The three files over whole runs ----------------------------------

  /** Every set of a run carries values the validators accept. */
  predicate SysctlRun(run: seq<(Edit<Entry>, Io)>) {
    forall i :: 0 <= i < |run| && run[i].0.Set? ==>
                  IsValidSysctlKey(run[i].0.entry.key) && IsValidSysctlValue(run[i].0.entry.value)
  }

  lemma SysctlRunRefines(file: Option<string>, run: seq<(Edit<Entry>, Io)>)
    requires SysctlRun(run)
    ensures Parse(SYSCTL, TextOf(RunFile(SYSCTL, file, run))) == RunList(SYSCTL, Parse(SYSCTL, TextOf(file)), run)
  {
    SysctlHeaderSilent();
    SysctlReadsCanonical(SYSCTL.header);
    forall i | 0 <= i < |run| && run[i].0.Set? ensures Admissible(SYSCTL, run[i].0.entry) {
      SysctlSettable(SYSCTL.header, run[i].0.entry.key, run[i].0.entry.value);
    }
    RunRefines(SYSCTL, file, run);
  }

  /** Reading the file back after a set gives the trimmed value under that key
      and leaves every other key as it was. */
  lemma SysctlSetIsAnUpdate(text: string, key: string, value: string, other: string)
    requires IsValidSysctlKey(key) && IsValidSysctlValue(value)
    ensures var before, after := Parse(SYSCTL, text),
                                 Parse(SYSCTL, Render(SYSCTL, Upsert(SYSCTL, Parse(SYSCTL, text), Entry(key, value))));
            && Get(SYSCTL, after, key) == Some(Entry(key, Trim(value)))
            && (other != key ==> Get(SYSCTL, after, other) == Get(SYSCTL, before, other))
  {
    SysctlHeaderSilent();
    SysctlReadsCanonical(SYSCTL.header);
    SysctlSettable(SYSCTL.header, key, value);
    ParseIsStable(SYSCTL, text);
    UpsertThroughText(SYSCTL, Parse(SYSCTL, text), Entry(key, value));
    GetAfterUpsert(SYSCTL, Parse(SYSCTL, text), Entry(key, Trim(value)), other);
  }

  predicate BlacklistRun(run: seq<(Edit<string>, Io)>) {
    forall i :: 0 <= i < |run| && run[i].0.Set? ==> IsValidKernelModuleName(run[i].0.entry)
  }

  lemma BlacklistRunRefines(file: Option<string>, run: seq<(Edit<string>, Io)>)
    requires BlacklistRun(run)
    ensures Parse(BLACKLIST, TextOf(RunFile(BLACKLIST, file, run))) ==
            RunList(BLACKLIST, Parse(BLACKLIST, TextOf(file)), run)
  {
    BlacklistHeaderSilent();
    BlacklistReadsCanonical(BLACKLIST.header);
    forall i | 0 <= i < |run| && run[i].0.Set? ensures Admissible(BLACKLIST, run[i].0.entry) {
      ModuleSettable(BLACKLIST.header, run[i].0.entry);
    }
    RunRefines(BLACKLIST, file, run);
  }

  predicate JournaldRun(run: seq<(Edit<Entry>, Io)>) {
    forall i :: 0 <= i < |run| && run[i].0.Set? ==>
                  && (exists s: JournaldSetting :: run[i].0.entry.key == s.Key())
                  && IsValidJournaldValue(run[i].0.entry.value)
  }

  lemma {:induction false} JournaldRunRefines(file: Option<string>, run: seq<(Edit<Entry>, Io)>)
    requires JournaldRun(run)
    ensures Parse(JOURNALD, TextOf(RunFile(JOURNALD, file, run))) ==
            RunList(JOURNALD, Parse(JOURNALD, TextOf(file)), run)
  {
    JournaldHeaderSilent();
    JournaldReadsCanonical(JOURNALD.header);
    forall i | 0 <= i < |run| && run[i].0.Set? ensures Admissible(JOURNALD, run[i].0.entry) {
      var s: JournaldSetting :| run[i].0.entry.key == s.Key();
      JournaldSettable(JOURNALD.header, s, run[i].0.entry.value);
    }
    RunRefines(JOURNALD, file, run);
  }

  // ----- What one edit leaves in each file --------------------------------

  /** A completed edit of each file: a set puts the value, as the file gives it
      back, at its key's place and nowhere else, a removal takes exactly that key
      out, and clearing leaves the comment on top. */
  lemma SysctlStepTakesEffect(file: Option<string>, edit: Edit<Entry>, io: Io)
    requires edit.Set? ==> IsValidSysctlKey(edit.entry.key) && IsValidSysctlValue(edit.entry.value)
    requires Completed(edit, io)
    ensures var known := if io.readable then Parse(SYSCTL, TextOf(file)) else [];
            var after := StepFile(SYSCTL, file, edit, io);
            after.Some? &&
            match edit
            case Set(e) => SetsEntry(SYSCTL, known, Parse(SYSCTL, after.value), Entry(e.key, Trim(e.value)))
            case Remove(k) => DropsKey(SYSCTL, known, Parse(SYSCTL, after.value), k)
            case Clear => after.value == MANAGED + "\n"
  {
    SysctlHeaderSilent();
    SysctlReadsCanonical(SYSCTL.header);
    if edit.Set? {
      SysctlSettable(SYSCTL.header, edit.entry.key, edit.entry.value);
    }
    StepTakesEffect(SYSCTL, file, edit, io);
  }

  lemma BlacklistStepTakesEffect(file: Option<string>, edit: Edit<string>, io: Io)
    requires (edit.Set? ==> IsValidKernelModuleName(edit.entry)) && Completed(edit, io)
    ensures var known := if io.readable then Parse(BLACKLIST, TextOf(file)) else [];
            var after := StepFile(BLACKLIST, file, edit, io);
            after.Some? &&
            match edit
            case Set(m) => SetsEntry(BLACKLIST, known, Parse(BLACKLIST, after.value), m)
            case Remove(k) => DropsKey(BLACKLIST, known, Parse(BLACKLIST, after.value), k)
            case Clear => after.value == MANAGED + "\n"
  {
    BlacklistHeaderSilent();
    BlacklistReadsCanonical(BLACKLIST.header);
    if edit.Set? {
      ModuleSettable(BLACKLIST.header, edit.entry);
    }
    StepTakesEffect(BLACKLIST, file, edit, io);
  }

  lemma JournaldStepTakesEffect(file: Option<string>, edit: Edit<Entry>, io: Io)
    requires edit.Set? ==>
               (exists s: JournaldSetting :: edit.entry.key == s.Key()) && IsValidJournaldValue(edit.entry.value)
    requires Completed(edit, io)
    ensures var known := if io.readable then Parse(JOURNALD, TextOf(file)) else [];
            var after := StepFile(JOURNALD, file, edit, io);
            after.Some? &&
            match edit
            case Set(e) => SetsEntry(JOURNALD, known, Parse(JOURNALD, after.value), e)
            case Remove(k) => DropsKey(JOURNALD, known, Parse(JOURNALD, after.value), k)
            case Clear => after.value == MANAGED + "\n" + ("[Journal]" + "\n")
  {
    JournaldHeaderSilent();
    JournaldReadsCanonical(JOURNALD.header);
    if edit.Set? {
      var s: JournaldSetting :| edit.entry.key == s.Key();
      JournaldSettable(JOURNALD.header, s, edit.entry.value);
    }
    StepTakesEffect(JOURNALD, file, edit, io);
  }

  /** The text itself after the first set: the line the service reads. */
  lemma FirstSets(key: string, value: string, s: JournaldSetting, m: string, io: Io)
    requires io.started && io.written
    ensures StepFile(SYSCTL, None, Set(Entry(key, value)), io) == Some(MANAGED + "\n" + (key + " = " + value + "\n"))
    ensures StepFile(JOURNALD, None, Set(Entry(s.Key(), value)), io) ==
            Some(MANAGED + "\n" + ("[Journal]" + "\n") + (s.Key() + "=" + value + "\n"))
    ensures StepFile(BLACKLIST, None, Set(m), io) == Some(MANAGED + "\n" + ("blacklist " + m + "\n"))
  {
    BodyOfOne(SYSCTL, Entry(key, value));
    BodyOfOne(JOURNALD, Entry(s.Key(), value));
    BodyOfOne(BLACKLIST, m);
  }

  lemma JournaldNames()
    ensures SystemMaxUse.Key() == "SystemMaxUse" && SystemKeepFree.Key() == "SystemKeepFree"
    ensures MaxRetentionSec.Key() == "MaxRetentionSec" && MaxFileSec.Key() == "MaxFileSec"
  {
    assert "System" + "MaxUse" == "SystemMaxUse";
    assert "System" + "KeepFree" == "SystemKeepFree";
    assert "MaxRetention" + "Sec" == "MaxRetentionSec";
    assert "MaxFile" + "Sec" == "MaxFileSec";
  }

  // ----- Reading before writing -------------------------------------------

  lemma OtherEntry(key: string) returns (other: Entry)
    ensures Canonical(SYSCTL, other) && Canonical(JOURNALD, other) && other.key != key
  {
    other := Entry(if key == "a" then "b" else "a", "");
    SysctlEntryCanonical(SYSCTL.header, other);
    JournaldEntryCanonical(JOURNALD.header, other);
  }

  lemma OtherModule(key: string) returns (other: string)
    ensures Canonical(BLACKLIST, other) && other != key
  {
    other := if key == "a" then "b" else "a";
    assert '\n' !in WriteModule(other);
    ModuleLine(other);
  }

  /** A completed edit of each file keeps the entries of the other keys exactly
      when the file could be read. */
  lemma SysctlOthersKeptExactly(edit: Edit<Entry>, io: Io)
    requires edit.Set? ==> IsValidSysctlKey(edit.entry.key) && IsValidSysctlValue(edit.entry.value)
    requires !edit.Clear? && io.started && io.written
    ensures KeepsOthers(SYSCTL, edit, io) <==> io.readable
  {
    SysctlHeaderSilent();
    SysctlReadsCanonical(SYSCTL.header);
    if edit.Set? {
      SysctlSettable(SYSCTL.header, edit.entry.key, edit.entry.value);
    }
    var other := OtherEntry(EditedKey(SYSCTL, edit));
    OthersKeptExactly(SYSCTL, edit, io, other);
  }

  lemma BlacklistOthersKeptExactly(edit: Edit<string>, io: Io)
    requires (edit.Set? ==> IsValidKernelModuleName(edit.entry)) && !edit.Clear? && io.started && io.written
    ensures KeepsOthers(BLACKLIST, edit, io) <==> io.readable
  {
    BlacklistHeaderSilent();
    BlacklistReadsCanonical(BLACKLIST.header);
    if edit.Set? {
      ModuleSettable(BLACKLIST.header, edit.entry);
    }
    var other := OtherModule(EditedKey(BLACKLIST, edit));
    OthersKeptExactly(BLACKLIST, edit, io, other);
  }

  lemma JournaldOthersKeptExactly(edit: Edit<Entry>, io: Io)
    requires edit.Set? ==>
               (exists s: JournaldSetting :: edit.entry.key == s.Key()) && IsValidJournaldValue(edit.entry.value)
    requires !edit.Clear? && io.started && io.written
    ensures KeepsOthers(JOURNALD, edit, io) <==> io.readable
  {
    JournaldHeaderSilent();
    JournaldReadsCanonical(JOURNALD.header);
    if edit.Set? {
      var s: JournaldSetting :| edit.entry.key == s.Key();
      JournaldSettable(JOURNALD.header, s, edit.entry.value);
    }
    var other := OtherEntry(EditedKey(JOURNALD, edit));
    OthersKeptExactly(JOURNALD, edit, io, other);
  }
}
