# Abyssal Arsenal agent: a verified model

The agent manages a host on behalf of a control plane. It rewrites a handful of
configuration files, quarantines files and isolates the host, offboards
directory accounts, elevates through sudo for a while, updates and uninstalls
itself. Most of that is running other programs; this project models the parts
that are algorithms or state machines of the agent's own, and proves what they
keep over whole runs.

Every external command is one atomic step with an arbitrary outcome, passed in
as a parameter (`Io`, `Env`, `WinEnv`, and so on). Clocks, network answers and
what an operator types are parameters too. A loop or an update in the source is
a method here, proved against a function; the theorems are about that function.

| file | what it models |
|---|---|
| `Text.dfy`, `Utf8.dfy`, `Validators.dfy` | trimming, lines, words and decimal numbers; UTF-8; the argument validators |
| `LineStore.dfy`, `Grimoire.dfy` | files that are parsed, edited as a list and rendered again; sysctl, journald and the module blacklist |
| `Cron.dfy` | the cron file, whose entries take two lines and are split on whitespace |
| `Cadavault.dfy` | the sshd drop-in and its write, validate, reload, roll back transaction |
| `Quarantine.dfy` | the percent codec, quarantine and restore |
| `Isolation.dfy` | host isolation over nftables, iptables and Windows Defender Firewall |
| `LdapDn.dfy`, `Offboard.dfy` | splitting and validating distinguished names; offboarding and its undo |
| `CaseReplace.dfy`, `Templates.dfy`, `TemplatesExact.dfy` | case-insensitive replacement at byte offsets; texts with tokens in braces filled pass by pass, and exactly when that is one substitution |
| `Naming.dfy`, `NamesExact.dfy` | name patterns and the agent's four tokens, filled with a person's names |
| `SamAccount.dfy`, `LdapFilter.dfy` | account names, search filters |
| `Elevation.dfy`, `SelfUpdate.dfy`, `Enrollment.dfy` | the elevation window, the self-update, installing and enrolling |
| `CaProof.dfy`, `SelfUninstall.dfy` | MAC input, shell quoting |
| `InstallerArgs.dfy`, `InstallerLine.dfy` | installer-style arguments: when their order matters, and what they are turned into |

## Where the code and a promise part ways

Each of these is a theorem that gives the exact condition under which the code
does what is expected.

- A cron schedule with the wrong number of fields, or a blank command, is
  accepted and written, and is gone or altered on the next read
  (`Cron.StoredExactly`).
- A managed file that is there but cannot be read counts as empty, so the next
  edit forgets what was in it (`LineStore.OthersKeptExactly` and its instances
  in `Grimoire`, `Cron.OthersKeptExactly`). For the sshd drop-in this, and a
  failed restoring write, are exactly what breaks the transaction
  (`Cadavault.SoundExactlyWhenRecoverable`).
- A path that contains `..` can be quarantined and never restored
  (`Quarantine.RestoreUndoesQuarantine`).
- A repeated isolation on Windows takes the allow rules away while the default
  is still to block. The comment above it says the connection is never at risk
  (`Isolation.WinRunKeepsControlPlane`).
- The comment in `nft_isolate` says that a table that could not be deleted
  leaves the host unrestricted. The new rules are appended to the old ones
  instead, and the success message says all traffic is blocked, although the
  ruleset declares no chain for forwarded traffic
  (`Isolation.NftIsolationConfines`).
- Offboarding cuts a name at its first comma, escaped or not
  (`Offboard.UndoWorksExactly`).
- The update check compares with the running version, so after a missed restart
  the installed version can go back (`SelfUpdate.MissedRestartGoesBack`,
  `SelfUpdate.InstalledGoesBackExactly`).
- Credentials set aside twice within one second share a name
  (`Enrollment.FilesKeptExactly`).
- A name can complete a stray brace of a pattern to a token that a later pass
  replaces (`Naming.StrayBraceIsReexpanded`, `NamesExact.ExpandExactly`).
- Replacing looks in the text and in its lowercasing at the same byte offsets.
  It is right exactly while the two stay in step
  (`CaseReplace.ReplacesExactlyInStep`). After a character whose lowercasing is
  longer, such as U+0130, it panics (`CaseReplace.LongerLowercasePanics`); after
  one whose lowercasing is shorter, such as U+1E9E, it can leave a token in the
  text in silence (`CaseReplace.ShorterLowercaseLeavesToken`).

One more escape is missing and does no harm: section 3 of RFC 4515 also wants a
NUL escaped (`LdapFilter.EscapedIsFilterValue`), but the script that holds the
query is an argument of `powershell.exe`
(crates/agent/src/gravekeeper.rs:1031-1036), and no process is started with a
NUL in an argument.

## Model

| member | source | states |
|---|---|---|
| `Validators.NamesExactly` | crates/agent-protocol/src/lib.rs:4238-4276 | which sysctl keys, module names and journald values are accepted, by length and characters |
| `Validators.AccountNameExactly` | crates/agent-protocol/src/lib.rs:4107-4117 | which account names are accepted |
| `Validators.CronScheduleExactly` | crates/agent-protocol/src/lib.rs:4285-4298 | which schedules are accepted: seven nicknames, or up to 100 characters of fields |
| `Validators.FreeTextExactly` | crates/agent-protocol/src/lib.rs:4251-4253 | which ASCII values, commands and absolute paths are accepted |
| `Validators.QuarantineFilenameExactly` | crates/agent-protocol/src/lib.rs:4370-4377 | which ASCII names of quarantined files are accepted |
| `Validators.WindowsPathExactly` | crates/agent-protocol/src/lib.rs:3763-3774 | which ASCII Windows paths are accepted |
| `Validators.NoDotDotSegmentExactly` | crates/agent-protocol/src/lib.rs:3763-3774 | a path passes the test if and only if no segment between slashes and backslashes is `..` |
| `LineStore.RenderFile` | crates/agent/src/grimoire.rs:61-67 | the rendering loop writes the header and then one line per entry, in order |
| `LineStore.ParseFile` | crates/agent/src/cadavault.rs:453-466 | the parsing loop keeps, in order, exactly the lines that read as an entry |
| `LineStore.ParseRender` | crates/agent/src/grimoire.rs:47-67 | parsing a rendered list gives what each entry's own line reads back as |
| `LineStore.ParseIsStable` | crates/agent/src/grimoire.rs:47-67 | for any text at all, parsing what was rendered from a parse changes nothing |
| `LineStore.RoundTripExactly` | crates/agent/src/grimoire.rs:47-67 | a list survives render and parse if and only if every entry of it is canonical |
| `LineStore.Find` | crates/agent/src/grimoire.rs:90-125 | the first entry with the key, or none |
| `LineStore.UpsertThroughText` | crates/agent/src/grimoire.rs:90-125 | setting an entry in the text is setting its normal form in the parsed list |
| `LineStore.GetAfterUpsert` | crates/agent/src/grimoire.rs:90-125 | after a set its key holds the new entry and every other key what it held |
| `LineStore.GetAfterWithout` | crates/agent/src/grimoire.rs:127-153 | after a removal the key is absent and every other key holds what it held |
| `LineStore.StepRefines` | crates/agent/src/grimoire.rs:90-163 | one set, remove or clear, with any command outcomes, is the same edit on the list |
| `LineStore.RunRefines` | crates/agent/src/grimoire.rs:90-163 | over every run of edits with any failures, from any text, the file parses to what the run makes of the list |
| `LineStore.StepTakesEffect` | crates/agent/src/grimoire.rs:90-163 | what a completed edit leaves in the file, entry by entry: a set changes the first entry of its key in place or adds one at the end, a removal takes out exactly that key, clearing leaves the bare header; any other edit leaves the file alone |
| `LineStore.OthersKeptExactly` | crates/agent/src/grimoire.rs:90-163 | a completed set or removal keeps the entries of every other key in their order, for every file, if and only if the file could be read |
| `LineStore.ManagedFile.Apply` | crates/agent/src/grimoire.rs:90-163 | the operation leaves the file as the step function says and reports success only if every command worked |
| `Grimoire.SysctlReadsCanonical` | crates/agent/src/grimoire.rs:47-67 | whatever a sysctl line is read as reads the same from its own rendered line |
| `Grimoire.JournaldReadsCanonical` | crates/agent/src/grimoire.rs:476-497 | the same for journald lines |
| `Grimoire.BlacklistReadsCanonical` | crates/agent/src/grimoire.rs:376-394 | the same for module blacklist lines |
| `Grimoire.SysctlIsStable` | crates/agent/src/grimoire.rs:47-67 | for any text at all, rendering the parsed sysctl file and parsing again changes nothing |
| `Grimoire.JournaldIsStable` | crates/agent/src/grimoire.rs:476-497 | the same for the journald file |
| `Grimoire.BlacklistIsStable` | crates/agent/src/grimoire.rs:376-394 | the same for the module blacklist |
| `Grimoire.SysctlSettable` | crates/agent-protocol/src/lib.rs:4238-4253 | every key and value the validators accept survives the file under that key, the value trimmed |
| `Grimoire.JournaldSettable` | crates/agent-protocol/src/lib.rs:4270-4276 | every accepted journald value survives the file unchanged |
| `Grimoire.ModuleSettable` | crates/agent-protocol/src/lib.rs:4258-4265 | every accepted module name survives the file unchanged |
| `Grimoire.SysctlRunRefines` | crates/agent/src/grimoire.rs:90-163 | every run of validated sysctl edits, with any failures, is that run on the list |
| `Grimoire.SysctlStepTakesEffect` | crates/agent/src/grimoire.rs:90-163 | the same for every edit of the sysctl file the validators accept, with the value trimmed |
| `Grimoire.SysctlOthersKeptExactly` | crates/agent/src/grimoire.rs:90-163 | a completed edit the validators accept keeps every other sysctl, for every file, if and only if the file could be read |
| `Grimoire.SysctlSetIsAnUpdate` | crates/agent/src/grimoire.rs:90-125 | reading back after a set gives the trimmed value there and leaves every other key |
| `Grimoire.BlacklistRunRefines` | crates/agent/src/grimoire.rs:410-466 | every run of validated blacklist edits, with any failures, is that run on the list |
| `Grimoire.BlacklistStepTakesEffect` | crates/agent/src/grimoire.rs:410-466 | the same for the module blacklist |
| `Grimoire.BlacklistOthersKeptExactly` | crates/agent/src/grimoire.rs:410-466 | the same for every other blacklisted module |
| `Grimoire.JournaldRunRefines` | crates/agent/src/grimoire.rs:499-565 | every run of validated journald edits, with any failures, is that run on the list |
| `Grimoire.JournaldStepTakesEffect` | crates/agent/src/grimoire.rs:499-565 | the same for the journald drop-in |
| `Grimoire.FirstSets` | crates/agent/src/grimoire.rs:61-67 | the text of each of the three files after the first set, as the service reads it |
| `Grimoire.JournaldNames` | crates/agent-protocol/src/lib.rs:2017-2025 | the names journald knows the four settings by |
| `Grimoire.JournaldOthersKeptExactly` | crates/agent/src/grimoire.rs:499-565 | the same for every other journald setting |
| `Cron.ComputeParseCron` | crates/agent/src/grimoire.rs:222-253 | the pass that carries a waiting name finds the jobs of the reference parse |
| `Cron.ComputeRenderCron` | crates/agent/src/grimoire.rs:255-264 | the rendering loop writes the header and two lines and a blank per job |
| `Cron.ParseRender` | crates/agent/src/grimoire.rs:222-264 | parsing a rendered job list gives what each job's words read as |
| `Cron.ParseIsStable` | crates/agent/src/grimoire.rs:222-264 | for any text at all, parsing what was rendered from a parse changes nothing |
| `Cron.CronFile.SetCronJob` | crates/agent/src/grimoire.rs:287-332 | validates, replaces in place or appends, and writes; refuses without touching the file |
| `Cron.CronFile.RemoveCronJob` | crates/agent/src/grimoire.rs:334-354 | drops the job of that name and rewrites the file |
| `Cron.CronFile.ClearCronJobs` | crates/agent/src/grimoire.rs:356-367 | leaves the bare header |
| `Cron.StoredExactly` | crates/agent-protocol/src/lib.rs:4285-4309 | an accepted job is read back as itself, whitespace collapsed, if and only if it has a nickname or five fields and a non-blank command |
| `Cron.OneFieldJobVanishes` | crates/agent-protocol/src/lib.rs:4285-4298 | a one-field schedule is accepted and read back as nothing |
| `Cron.SetThroughText` | crates/agent/src/grimoire.rs:287-332 | setting a job in the text is putting what it reads back as in its place in the list |
| `Cron.StepRefines` | crates/agent/src/grimoire.rs:287-367 | one edit with any input and any command outcomes is the same edit on the job list |
| `Cron.FirstSet` | crates/agent/src/grimoire.rs:255-264 | the text of the cron file after the first set, with the line cron reads |
| `Cron.RunRefines` | crates/agent/src/grimoire.rs:287-367 | over every run with any inputs and failures, from any text, the file parses to what the run makes of the list |
| `Cron.OthersKeptExactly` | crates/agent/src/grimoire.rs:287-367 | a completed set or removal keeps every job of another name in its order, for every file, if and only if the file could be read |
| `Cron.StepIsMapUpdate` | crates/agent/src/grimoire.rs:287-367 | on distinct names each completed edit is the map operation it is named for, and names stay distinct |
| `Cron.RunKeepsNamesDistinct` | crates/agent/src/grimoire.rs:287-367 | names stay distinct over every run |
| `Cron.FittingRunFromNothing` | crates/agent/src/grimoire.rs:222-264 | from a missing file, for jobs that fit, the file is the ordered map of collapsed jobs with distinct names |
| `Cadavault.DropinReadsCanonical` | crates/agent/src/cadavault.rs:453-477 | whatever a directive line is read as reads the same from its own rendered line |
| `Cadavault.DropinIsStable` | crates/agent/src/cadavault.rs:453-477 | for any text at all, rendering the parsed drop-in and parsing again changes nothing |
| `Cadavault.ComputeApplySetting` | crates/agent/src/cadavault.rs:482-493 | the in-place update gives the text of the list with the setting upserted |
| `Cadavault.ApplySettingTakesEffect` | crates/agent/src/cadavault.rs:482-493 | the setting is in effect afterwards, the other settings as they were |
| `Cadavault.ApplySettingIdempotent` | crates/agent/src/cadavault.rs:482-493 | applying a setting twice gives the same text as once |
| `Cadavault.SshHost.ReloadSshd` | crates/agent/src/cadavault.rs:436-448 | succeeds if some candidate service reloads, and then the daemon has the text on disk |
| `Cadavault.SshHost.ApplyDropin` | crates/agent/src/cadavault.rs:519-553 | disk and daemon after every combination of write, validation, reload and roll-back outcomes |
| `Cadavault.SshHost.Perform` | crates/agent/src/cadavault.rs:495-513 | hardening and clearing run the transaction on the text that was read |
| `Cadavault.StepIsTransactional` | crates/agent/src/cadavault.rs:519-553 | success leaves the new validated text on disk and loaded, failure the text that was there |
| `Cadavault.SucceedsExactly` | crates/agent/src/cadavault.rs:495-553 | a call succeeds if and only if every command works and sshd accepts the text, and then the setting is in effect, or only the comment is left |
| `Cadavault.SettingNames` | crates/agent-protocol/src/lib.rs:1944-1951 | the names sshd knows the four settings by |
| `Cadavault.RunIsSound` | crates/agent/src/cadavault.rs:495-553 | over every run with any outcomes, nothing unvalidated stays on disk or is ever loaded |
| `Cadavault.SoundExactlyWhenRecoverable` | crates/agent/src/cadavault.rs:417-425 | a call keeps both texts validated from everywhere if and only if the old text was really read and can be put back |
| `Cadavault.HardeningPersists` | crates/agent/src/cadavault.rs:495-505 | a setting in effect stays so over every run of hardening calls, whichever fail |
| `Cadavault.LostRestoreCanLoadUnvalidated` | crates/agent/src/cadavault.rs:519-553 | after one failed restore a later roll-back can load a text that never passed validation |
| `Quarantine.ComputePercentEncode` | crates/agent/src/inquest.rs:50-61 | the byte loop computes the reference encoding |
| `Quarantine.ComputePercentDecode` | crates/agent/src/inquest.rs:63-86 | the byte loop computes the reference decoding, errors included |
| `Quarantine.PercentRoundTrip` | crates/agent/src/inquest.rs:50-86 | decoding undoes encoding for every string |
| `Quarantine.UnreservedExactly` | crates/agent/src/inquest.rs:50-61 | a character is left as it is if and only if it is a letter, a digit or one of four signs |
| `Quarantine.EscapesDecode` | crates/agent/src/inquest.rs:63-86 | two hexadecimal digits after a percent sign, in either letter case, are one byte, and so is a plus sign and one digit |
| `Quarantine.EncodedPartExactly` | crates/agent/src/inquest.rs:216-254 | the encoded part is what follows the first double underscore |
| `Quarantine.FilenameInjective` | crates/agent/src/inquest.rs:191-214 | different times or paths give different file names |
| `Quarantine.EncodingKeepsDotDot` | crates/agent/src/inquest.rs:50-61 | the encoding contains `..` if and only if the path does |
| `Quarantine.FilenameAccepted` | crates/agent-protocol/src/lib.rs:4370-4377 | the validator accepts the name if and only if the path has no `..` and the name is at most 4096 bytes |
| `Quarantine.RestoreTargetExactly` | crates/agent/src/inquest.rs:216-254 | a restore resolves to exactly the quarantined path, or is refused in exactly those two cases |
| `Quarantine.DotDotPathIsStranded` | crates/agent-protocol/src/lib.rs:3746-3751 | an accepted path that can never be restored |
| `Quarantine.WindowsDotDotPathIsStranded` | crates/agent-protocol/src/lib.rs:3763-3774 | the same for a Windows path, where only a whole segment of two dots is refused |
| `Quarantine.Host.QuarantineFile` | crates/agent/src/inquest.rs:191-214 | moves the file to the slot its time and path name, or changes nothing |
| `Quarantine.Host.RestoreQuarantinedFile` | crates/agent/src/inquest.rs:216-254 | moves the slot's file to the decoded path, or changes nothing |
| `Quarantine.QuarantinesExactly` | crates/agent/src/inquest.rs:191-214 | when a quarantine moves the file, where to, and that it touches no other file; the name decodes to the path |
| `Quarantine.RestoresExactly` | crates/agent/src/inquest.rs:216-254 | when a restore moves a file, where to, and that it touches no other file |
| `Quarantine.RestoreUndoesQuarantine` | crates/agent/src/inquest.rs:191-254 | restoring brings every file back as it was if and only if the path has no `..`, the name fits, and the slot was free |
| `Isolation.AllowListVerdict` | crates/agent/src/inquest.rs:642-663 | a default-drop chain of accept rules accepts exactly what some rule matches |
| `Isolation.NftHost.Isolate` | crates/agent/src/inquest.rs:675-700 | the states passed through: best-effort delete, then one transaction |
| `Isolation.NftHost.Deisolate` | crates/agent/src/inquest.rs:702-714 | the state after deleting the table |
| `Isolation.NftStepKeepsControlPlane` | crates/agent/src/inquest.rs:675-714 | in every state of an operation the table is well formed and accepted control-plane packets stay accepted |
| `Isolation.NftRunKeepsControlPlane` | crates/agent/src/inquest.rs:675-714 | over every run with any failures the control plane is never cut off at any point |
| `Isolation.NftRunKeepsCurrentAddress` | crates/agent/src/inquest.rs:675-714 | at every point of a run whose addresses differ, packets of the address of the operation in progress that were accepted before it still are |
| `Isolation.NftIsolationConfines` | crates/agent/src/inquest.rs:642-700 | which packets a successful isolation accepts, one by one: forwarded, loopback, established, control plane, and what an undeleted old table let through |
| `Isolation.NftDeleteOpens` | crates/agent/src/inquest.rs:675-714 | packet by packet, what deleting the table does in a de-isolation, and in an isolation that gets no further |
| `Isolation.NftLeaksExactly` | crates/agent/src/inquest.rs:675-700 | stray traffic passes afterwards if and only if the old table was not deleted and let some through |
| `Isolation.NftOneAddressNeverLeaks` | crates/agent/src/inquest.rs:675-714 | while one address is isolated for, no state of any run lets stray traffic through the table, whatever fails |
| `Isolation.UndeletedTableLeaks` | crates/agent/src/inquest.rs:675-700 | a second address over an undeleted table leaves the first one reachable |
| `Isolation.IptablesHost.Isolate` | crates/agent/src/inquest.rs:764-795 | the states passed through: IPv4 restore, then IPv6 unless the first failed |
| `Isolation.IptablesHost.Deisolate` | crates/agent/src/inquest.rs:797-818 | both families are opened, each if its restore works |
| `Isolation.IptStepKeepsControlPlane` | crates/agent/src/inquest.rs:739-818 | control-plane input and output that was accepted stays accepted between and after the two restores |
| `Isolation.IptRunKeepsControlPlane` | crates/agent/src/inquest.rs:739-818 | the same at every point of every run |
| `Isolation.IptRunKeepsCurrentAddress` | crates/agent/src/inquest.rs:739-818 | the same when the addresses of a run differ, for the address of the operation in progress |
| `Isolation.IptIsolationConfines` | crates/agent/src/inquest.rs:739-795 | a successful isolation accepts exactly loopback, established and control-plane input and output |
| `Isolation.IptIsolationByFamily` | crates/agent/src/inquest.rs:739-795 | packet by packet, what any isolation leaves, whichever restore fails |
| `Isolation.IptDeisolationByFamily` | crates/agent/src/inquest.rs:797-818 | packet by packet, what any de-isolation leaves, whichever restore fails |
| `Isolation.IptDeisolationOpens` | crates/agent/src/inquest.rs:739-818 | packet by packet, what is accepted after an isolation and a de-isolation that opened either family, both or none |
| `Isolation.IptRoundTripExactly` | crates/agent/src/inquest.rs:739-818 | isolating and de-isolating gives every packet its earlier verdict if and only if nothing was dropped before |
| `Isolation.WindowsHost.Isolate` | crates/agent/src/inquest.rs:1169-1204 | the states passed through: remove the group, allow in, allow out, block by default |
| `Isolation.WindowsHost.Deisolate` | crates/agent/src/inquest.rs:1206-1227 | the states passed through: open the default, then remove the group |
| `Isolation.WinIsolateKeepsControlPlane` | crates/agent/src/inquest.rs:1134-1204 | an accepted control-plane packet stays accepted throughout if and only if it can do without the group's own rules |
| `Isolation.WinRunKeepsControlPlane` | crates/agent/src/inquest.rs:1134-1227 | over every run with any failures, the control plane is never cut off if and only if each isolation was safe to start |
| `Isolation.WinRunKeepsCurrentAddress` | crates/agent/src/inquest.rs:1134-1227 | in a run whose addresses differ, the address of each operation stays accepted throughout it if and only if that operation was safe to start |
| `Isolation.WinFirstIsolationIsSafe` | crates/agent/src/inquest.rs:1134-1204 | isolating an open host never cuts it off |
| `Isolation.WinRepeatedIsolationCuts` | crates/agent/src/inquest.rs:1169-1204 | repeating it on an isolated host does |
| `Isolation.WinIsolationConfines` | crates/agent/src/inquest.rs:1169-1204 | afterwards exactly loopback, unblocked control-plane traffic and what other allow rules name is accepted |
| `Isolation.WinIsolationLeaves` | crates/agent/src/inquest.rs:1169-1204 | the rules and defaults any isolation leaves, however far it came |
| `Isolation.WinDeisolationOpens` | crates/agent/src/inquest.rs:1206-1227 | packet by packet, what any de-isolation accepts |
| `Isolation.WinDeisolateKeepsEverything` | crates/agent/src/inquest.rs:1206-1227 | de-isolating cuts nothing off in any state |
| `LdapDn.ComputeSplitDn` | crates/agent-protocol/src/lib.rs:3848-3884 | the loop over finished names, the current one and the escape flag computes the reference split |
| `LdapDn.CheckLdapDn` | crates/agent-protocol/src/lib.rs:3848-3884 | the validator |
| `LdapDn.JoinSplit` | crates/agent-protocol/src/lib.rs:3848-3884 | rejoining the RDNs with commas gives the input |
| `LdapDn.SplitHasShape` | crates/agent-protocol/src/lib.rs:3848-3884 | no RDN holds an unescaped comma and all but the last end cleanly |
| `LdapDn.SplitUnique` | crates/agent-protocol/src/lib.rs:3848-3884 | the split is the only way to cut the text into RDNs of that shape |
| `LdapDn.SplitConcat` | crates/agent-protocol/src/lib.rs:3848-3884 | a comma after a text with no dangling escape separates the RDNs of both sides |
| `LdapDn.ValidExactlyByParts` | crates/agent-protocol/src/lib.rs:3848-3884 | `a,b` is valid if and only if both are and the whole is within 2048 bytes |
| `LdapDn.EscapesExactly` | crates/agent-protocol/src/lib.rs:3848-3884 | an escape dangles if and only if an odd number of backslashes ends the text, and a comma is bare if and only if an even number precedes it |
| `LdapDn.RdnExactly` | crates/agent-protocol/src/lib.rs:3848-3884 | an RDN is valid if and only if it is an attribute of up to 32 letters, digits and hyphens, between blanks, then `=` and a value that is not blank |
| `LdapDn.DnExactly` | crates/agent-protocol/src/lib.rs:3848-3884 | a name is valid if and only if it is made of whole valid RDNs joined by commas, within the length, without control characters |
| `Offboard.Directory.StripGroups` | crates/agent/src/gravekeeper.rs:353-361 | removes each group that can be removed and collects exactly those |
| `Offboard.Directory.Offboard` | crates/agent/src/gravekeeper.rs:353-361 | the account and the snapshot after every combination of outcomes |
| `Offboard.Directory.AddGroups` | crates/agent/src/gravekeeper.rs:414-420 | adds back exactly the groups whose re-add works, if the account is named correctly |
| `Offboard.Directory.UndoOffboard` | crates/agent/src/gravekeeper.rs:414-420 | the account after every combination of outcomes |
| `Offboard.OffboardRefusesExactly` | crates/agent/src/gravekeeper.rs:333-363 | a snapshot is returned if and only if both names are valid, the name is the account's, and guard, disabling and move succeed; refused or not disabled, the account is as it was |
| `Offboard.UndoRefusesExactly` | crates/agent/src/gravekeeper.rs:381-426 | the same for undoing: when it succeeds, what it leaves, and that a refusal changes nothing |
| `Offboard.OffboardPartitionsGroups` | crates/agent/src/gravekeeper.rs:353-361 | captured and remaining groups partition the memberships, whichever removals fail |
| `Offboard.FailedMoveLosesGroups` | crates/agent/src/gravekeeper.rs:353-361 | a failed move returns no snapshot although the groups are gone |
| `Offboard.ScriptLeafExactly` | crates/agent/src/gravekeeper.rs:353-361 | the leaf the script cuts is the real one if and only if it holds no comma |
| `Offboard.NewDnExactly` | crates/agent/src/gravekeeper.rs:353-361 | the snapshot names the moved account if and only if the leaf holds no comma |
| `Offboard.UndoWorksExactly` | crates/agent/src/gravekeeper.rs:414-420 | undo works if and only if the leaf has no comma, there is a parent, the name fits and the groups are valid; it then restores name and groups and enables |
| `Offboard.EscapedCommaIsStranded` | crates/agent/src/gravekeeper.rs:353-361 | an account with an escaped comma in its leaf is offboarded and cannot be undone, although every command succeeds |
| `CaseReplace.ComputeReplaceCi` | crates/agent-protocol/src/lib.rs:3954-3974 | the loop over byte offsets, for any text, needle and lowercasing, panics on slices inside a character included |
| `CaseReplace.ReplacesExactlyInStep` | crates/agent-protocol/src/lib.rs:3954-3974 | for any text and lowercasing, the loop never panics and replaces every occurrence of an ASCII needle in any letter case, whatever the value, if and only if at every character it looks at the lowercased text has a slice that matches exactly where the text does |
| `CaseReplace.ReplacesWhereOffsetsKeep` | crates/agent-protocol/src/lib.rs:3954-3974 | in particular where lowercasing keeps offsets |
| `CaseReplace.LongerLowercasePanics` | crates/agent-protocol/src/lib.rs:3954-3974 | U+0130 with anything after it panics, for every needle that starts with a brace |
| `CaseReplace.ShorterLowercaseLeavesToken` | crates/agent-protocol/src/lib.rs:3954-3974 | after a three-byte character that lowercases to two bytes a token stays in the text, without a panic |
| `Naming.ExpandNamePattern` | crates/agent-protocol/src/lib.rs:3926-3951 | one pass per token in the source's order, with trimmed names and their initials, for any text; a panic in a pass ends it |
| `Templates.PassFills` | crates/agent-protocol/src/lib.rs:3926-3974 | a pass fills exactly its token's occurrences and leaves nothing for a later pass to find by accident |
| `Templates.PassesFillAll` | crates/agent-protocol/src/lib.rs:3926-3951 | passes over such text fill every token, whatever the values |
| `Templates.PassesAreSimultaneous` | crates/agent-protocol/src/lib.rs:3926-3951 | if no value can complete a token of a later pass, the passes are one simultaneous substitution, for any tokens and order |
| `TemplatesExact.LongestFirstExactly` | crates/agent-protocol/src/lib.rs:3938-3949 | with longer tokens first, that holds for all values if and only if no value can complete a token of a later pass |
| `TemplatesExact.EveryOrderExactly` | crates/agent-protocol/src/lib.rs:3938-3949 | it holds for all values in every order if and only if no value can complete another token |
| `TemplatesExact.CompletedMidShrinks` | crates/agent-protocol/src/lib.rs:3938-3974 | where values complete a token of a later pass, the passes give strictly less text than the substitution |
| `Naming.ExpansionExactly` | crates/agent-protocol/src/lib.rs:3926-3951 | the agent's own passes are one simultaneous substitution for all values if and only if no value can complete a token of a later pass |
| `Naming.PassOrderExactly` | crates/agent-protocol/src/lib.rs:3938-3949 | the order of the passes makes no difference, for any values, if and only if no value can complete another token |
| `NamesExact.NamesExactly` | crates/agent-protocol/src/lib.rs:3926-3951 | for two names and their initials the passes are the simultaneous substitution if and only if no names can complete a token |
| `NamesExact.ExpandExactly` | crates/agent-protocol/src/lib.rs:3926-3974 | for every pattern and lowercasing: if no names can complete a token, the expansion of all names that stay in step is that substitution; if some can, there are ASCII names for which it is not, unless the pattern puts those out of step |
| `NamesExact.SteadyExpandExactly` | crates/agent-protocol/src/lib.rs:3926-3974 | where lowercasing keeps offsets it never panics, and is that substitution for all names if and only if no names can complete a token |
| `NamesExact.NoStrayBraceForNames` | crates/agent-protocol/src/lib.rs:3926-3951 | a pattern of tokens and text without opening braces is among those |
| `Naming.StrayBraceIsReexpanded` | crates/agent-protocol/src/lib.rs:3926-3951 | a pattern with a stray brace whose substituted name is replaced again |
| `SamAccount.SanitizeSamAccountName` | crates/agent-protocol/src/lib.rs:3982-3993 | the pop loop cuts to twenty characters, then dots are trimmed |
| `SamAccount.FilterExactly` | crates/agent-protocol/src/lib.rs:3982-3993 | every character is kept or dropped by itself, and which ones are kept |
| `SamAccount.ForbiddenIsRefused` | crates/agent-protocol/src/lib.rs:3792-3807 | a name with a control character or one of sixteen signs is refused wherever it stands |
| `SamAccount.SanitizedIsClean` | crates/agent-protocol/src/lib.rs:3982-3993 | the result is lower case, of the kept characters, at most 20 long, with no dot at either end |
| `SamAccount.SanitizeIsIdempotent` | crates/agent-protocol/src/lib.rs:3982-3993 | sanitizing twice is sanitizing once, and gives an empty or valid name |
| `SamAccount.FindFreeName` | crates/agent/src/gravekeeper.rs:851-855 | at most 50 lookups; a name returned is the first free candidate and valid; none if and only if all 50 are taken |
| `SamAccount.CandidateIsValid` | crates/agent-protocol/src/lib.rs:3792-3807 | every candidate of a sanitized base is a valid account name |
| `SamAccount.FullBaseFailsExactly` | crates/agent/src/gravekeeper.rs:851-855 | for a base of 20 characters the search fails if and only if the base is taken |
| `SamAccount.NineteenFailsExactly` | crates/agent/src/gravekeeper.rs:851-855 | for 19 characters it fails if and only if the base and the base with each digit from 1 to 9 are taken |
| `SamAccount.CandidatesDifferExactly` | crates/agent/src/gravekeeper.rs:851-855 | the 50 candidates are pairwise different if and only if the base has at most 18 characters |
| `LdapFilter.EscapeQuery` | crates/agent/src/gravekeeper.rs:141-145 | the five chained replacements compute the one-pass escape |
| `LdapFilter.ChainIsEscapeExactly` | crates/agent/src/gravekeeper.rs:141-145 | an order of replacements is the one-pass escape for every text if and only if the backslash goes first |
| `LdapFilter.UnescapeEscape` | crates/agent/src/gravekeeper.rs:141-145 | unescaping gives back the query |
| `LdapFilter.EscapesExactly` | crates/agent/src/gravekeeper.rs:141-145 | no asterisk, parenthesis or slash is left bare, and a query changes if and only if it has one of them or a backslash |
| `LdapFilter.EscapedIsFilterValue` | crates/agent/src/gravekeeper.rs:141-145 | the escaped query is a legal filter value if and only if the query has no NUL |
| `Elevation.ElevationState.Elevate` | crates/agent/src/elevation.rs:42-56 | an accepted password opens a window, a rejected one changes nothing |
| `Elevation.ElevationState.Deescalate` | crates/agent/src/elevation.rs:60-63 | closes the window |
| `Elevation.ElevationState.IsElevated` | crates/agent/src/elevation.rs:68-81 | refreshes an open window, clears a lapsed one |
| `Elevation.ElevationState.Run` | crates/agent/src/elevation.rs:104-114 | prefixes `sudo -n` when the check finds the window open |
| `Elevation.ReplayMatchesHistory` | crates/agent/src/elevation.rs:42-81 | the state holds a window if and only if the history says one is open, with its timeout and latest use |
| `Elevation.SudoExactlyWhenElevated` | crates/agent/src/elevation.rs:68-114 | a command goes through sudo if and only if there is an accepted elevation, no later de-escalation and no idle gap of its timeout since |
| `Elevation.LapsedStaysLapsed` | crates/agent/src/elevation.rs:68-81 | once lapsed it stays lapsed until the next accepted password |
| `SelfUpdate.ParseVersionReadsPrinted` | crates/agent/src/selfupdate.rs:219-229 | a printed version reads back, with any leading `v`s and any `-` or `+` suffix |
| `SelfUpdate.ParseVersionExactly` | crates/agent/src/selfupdate.rs:219-229 | a text is read as a version if and only if, trimmed, it is any number of `v`s, three numbers below 2^64 between dots, and nothing or a suffix after `-` or `+` |
| `SelfUpdate.LessExactly` | crates/agent/src/selfupdate.rs:234-239 | versions compare as numbers in base 2^64 |
| `SelfUpdate.PrintedIsPlausible` | crates/agent/src/selfupdate.rs:209-216 | every version that can be read makes a plausible tag, with its `v` or not |
| `SelfUpdate.ReportedIsReadable` | crates/agent/src/selfupdate.rs:198-201 | a version a binary is found to report is itself a readable version |
| `SelfUpdate.PrintedIsReported` | crates/agent/src/selfupdate.rs:198-229 | a binary that prints its name and version reports exactly that version |
| `SelfUpdate.FreshInstallIsSound` | crates/agent/src/selfupdate.rs:171-195 | an agent running what is installed satisfies the invariant |
| `SelfUpdate.AgentHost.InstallAndRestart` | crates/agent/src/selfupdate.rs:442-488 | stages, checks, renames over the target and schedules the restart, stopping at the first failure |
| `SelfUpdate.AgentHost.SelfUpdate` | crates/agent/src/selfupdate.rs:89-107 | refuses implausible and older tags before anything is touched |
| `SelfUpdate.UpdateExactly` | crates/agent/src/selfupdate.rs:89-107 | for every update, when it succeeds, what is installed and what is left staged; an implausible or older tag is refused before anything is touched |
| `SelfUpdate.RestartExactly` | crates/agent/src/selfupdate.rs:442-488 | a restart runs what is installed and changes nothing else |
| `SelfUpdate.StepKeepsSound` | crates/agent/src/selfupdate.rs:171-239 | installed is never older than running, running never goes back, and the target changes only for a checked binary |
| `SelfUpdate.RunNeverDowngrades` | crates/agent/src/selfupdate.rs:442-488 | the same over every run of updates, failures and restarts, missed or not |
| `SelfUpdate.InstalledGoesBackExactly` | crates/agent/src/selfupdate.rs:234-239 | the installed version goes back if and only if the new build lies between running and installed |
| `SelfUpdate.MissedRestartGoesBack` | crates/agent/src/selfupdate.rs:442-488 | from a fresh install of any version, two successful updates without a restart between them take the installed version up and back |
| `SelfUpdate.InstalledCanGoBack` | crates/agent/src/selfupdate.rs:234-239 | a sound state and an update that takes its installed version back |
| `Enrollment.AgentHost.EnrollHost` | crates/agent/src/enroll.rs:144-215 | uses credentials that are there, else probes, sends the token and saves the answer |
| `Enrollment.AgentHost.InstallAgent` | crates/agent/src/main.rs:541-600 | the whole decision flow, with everything it does in order |
| `Enrollment.InHandExactly` | crates/agent/src/main.rs:491-501 | which token is in hand |
| `Enrollment.CredentialsAfter` | crates/agent/src/enroll.rs:144-215 | the credentials after any install: the issued ones if and only if a token was sent, accepted and saved, else none if they were moved aside, else unchanged; and what is set aside |
| `Enrollment.SucceedsExactly` | crates/agent/src/main.rs:541-600 | an install succeeds if and only if it kept credentials that can be read and parse, or saved new ones |
| `Enrollment.TraceExactly` | crates/agent/src/main.rs:541-600 | every step of every install, in order |
| `Enrollment.RerunKeepsIssued` | crates/agent/src/main.rs:541-600 | after a successful enrollment a rerun not answered with 401 sends no token and keeps the issued file |
| `Enrollment.TokenSentExactly` | crates/agent/src/main.rs:491-501 | a token is sent if and only if one is in hand, the probe succeeds, and there were no credentials or they got a 401 and were moved |
| `Enrollment.BlankAnswerEndsTheRun` | crates/agent/src/main.rs:989-1002 | an operator who types nothing spends nothing and keeps everything |
| `Enrollment.SendAndMoveAreGuarded` | crates/agent/src/enroll.rs:116-133 | a send directly follows a successful probe, a move follows a 401 with a token in hand, and at most one token is sent |
| `Enrollment.OtherAnswersKeepCredentials` | crates/agent/src/enroll.rs:104-111 | any other answer, or none, keeps the file and spends nothing |
| `Enrollment.RunsKeepEveryFile` | crates/agent/src/enroll.rs:116-133 | over every sequence of installs at increasing times, every credentials file is in use or set aside |
| `Enrollment.FilesKeptExactly` | crates/agent/src/enroll.rs:116-133 | no install at a given second can lose a file if and only if its stamp is unused or what it names is kept twice |
| `Enrollment.RerunsSpendNothing` | crates/agent/src/main.rs:541-600 | reruns answered with anything but 401 keep the state and send no token |
| `CaProof.FeedParts` | crates/agent-protocol/src/aat.rs:60-78 | the updates feed each part preceded by its length as eight bytes |
| `CaProof.FrameInjective` | crates/agent-protocol/src/aat.rs:60-78 | equal bytes come from equal parts, and as many |
| `CaProof.BigEndianValue` | crates/agent-protocol/src/aat.rs:60-78 | the bytes of a length stand for it, the most significant first |
| `CaProof.ProofLayout` | crates/agent-protocol/src/aat.rs:60-78 | the MAC input is the context, the nonce and the bundle in this order, each after its length in eight bytes |
| `CaProof.ProofInputDetermines` | crates/agent-protocol/src/aat.rs:60-78 | the MAC input determines the nonce and the bundle, an absent one counted as empty |
| `CaProof.HexReads` | crates/agent-protocol/src/aat.rs:60-78 | a proof has two lower-case hexadecimal digits for each byte, the high half first |
| `CaProof.VerifyCaProof` | crates/agent-protocol/src/aat.rs:81-89 | the fold accepts if and only if the two proofs are equal |
| `CaProof.AcceptedElsewhereIsCollision` | crates/agent-protocol/src/aat.rs:60-89 | a proof for one nonce and bundle is valid for another only if the MAC collides on two different inputs |
| `SelfUninstall.ReadArguments` | crates/agent/src/self_uninstall.rs:73-80 | reading the quoted arguments by shell rules gives exactly the arguments |
| `SelfUninstall.CommandLineRunsArguments` | crates/agent/src/self_uninstall.rs:73-80 | the whole line is a pause followed by exactly that command, for every argument list |
| `SelfUninstall.ScheduledUninstall` | crates/agent/src/self_uninstall.rs:39-50 | the scheduled command is this binary's uninstall with the credentials in use, purging exactly when asked |
| `InstallerArgs.ComputeTranslateRest` | crates/agent/src/installer_args.rs:59-136 | the loop over flags and options computes the translation, refusing at the first argument not understood |
| `InstallerLine.TranslatesExactly` | crates/agent/src/installer_args.rs:59-136 | for every argument list, read off the strings: when it is refused, and otherwise the exact command line, with the last value given for each key |
| `InstallerLine.LastValueExists` | crates/agent/src/installer_args.rs:53-57 | every key has a last value or none, so the result above covers every argument list |
| `InstallerArgs.SafeOrderIsInvariant` | crates/agent/src/installer_args.rs:59-136 | on order-safe arguments every permutation gives the same result |
| `InstallerArgs.OrderIrrelevantExactly` | crates/agent/src/installer_args.rs:59-136 | every ordering gives the same command line, or every ordering an error, if and only if the arguments are order-safe |
| `InstallerArgs.UnrepeatedKeysAreOrderSafe` | crates/agent/src/installer_args.rs:53-57 | arguments with no repeated key are order-safe |

## Left out

- A command that fails part way: a failed write, rename or move leaves everything as it was.
- Unicode case folding itself: lowercasing is a parameter, assumed to agree with ASCII lowercasing on ASCII text.
- CaseReplace.ReplacesExactlyInStep: is about needles in ASCII, which all of the tokens are; it covers every text.
- CaseReplace.ReplacesWhereOffsetsKeep: is the corollary for texts whose lowercasing keeps offsets; every other text is under the condition of `ReplacesExactlyInStep`.
- NamesExact.ExpandExactly: for patterns that names can complete, and that put even ASCII names out of step, does not say what comes out.
- LineStore.RunRefines: assumes of every entry set that it survives its own line, which the lemmas of `Grimoire` derive from the validators.
- Blocking and unblocking single addresses, and the firewall status reports; the blocklist appears as a verdict that isolation does not change.
- Files that `mv` would treat specially: destinations that are directories, and symbolic links.
- Deleting quarantined files, and the Windows side of quarantine, which shares the codec and the name rules.
- Self-update on Windows, and downloading and hashing the new binary; the binary is known by what it prints.
- Setting up the control plane's address and CA during an install, and the permissions of saved credentials.
- The directory's own rules: case-insensitive names, protected objects and failed lookups are outcomes of the guard.
- HMAC, SHA-256, TLS, sudo, systemd, sshd and PowerShell are parameters or step outcomes.
- The first argument's role in choosing between installer-style and ordinary arguments.
- Modules that validate one value and hand it to one tool: packages, services, DHCP, network settings, snapshots and reports.
