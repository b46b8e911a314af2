/** The detached uninstall: a shell command line built by quoting every
    argument, read back by the shell's own rules (sections 2.2.1 and 2.2.2 of
    POSIX XCU). */
module SelfUninstall {
  import opened Text

  // ----- The command line -------------------------------------------------

  /** `replace('\'', r"'\''")`. */
  function ReplaceQuotes(a: string): string {
    if a == [] then [] else (if a[0] == '\'' then "'\\''" else [a[0]]) + ReplaceQuotes(a[1..])
  }

  function Quote(a: string): string { "'" + (ReplaceQuotes(a) + "'") }

  function QuoteAll(args: seq<string>): seq<string> {
    if args == [] then [] else [Quote(args[0])] + QuoteAll(args[1..])
  }

  function CommandLine(args: seq<string>): string { "sleep 2; " + Join(QuoteAll(args), " ") }

  function UninstallArgs(purge: bool, credentials: string): seq<string> {
    ["uninstall", "--non-interactive", "--credentials-file", credentials]
    + (if purge then ["--purge"] else [])
  }

  // ----- How a shell reads it ---------------------------------------------

  /** Characters with a meaning of their own when not quoted, beyond those
      handled by `Read`. */
  const SPECIAL := "|&<>()$`\"\n" + "*?[]#~=%{}!"

  function Current(word: Option<string>): string { if word.Some? then word.value else [] }

  function AddWord(word: Option<string>, rest: Option<seq<seq<string>>>): Option<seq<seq<string>>> {
    if rest.None? || rest.value == [] || word.None? then rest
    else Some([[word.value] + rest.value[0]] + rest.value[1..])
  }

  function EndCommand(word: Option<string>, rest: Option<seq<seq<string>>>): Option<seq<seq<string>>> {
    if rest.None? then None else AddWord(word, Some([[]] + rest.value))
  }

  /** The simple commands in `s`, each a list of words: blanks separate words, a
      semicolon ends a command, a backslash or single quotes make characters
      literal. `word` is the word being read. `None` when a quote is left open
      or a special character stands unquoted. */
  function Read(s: string, quoted: bool, word: Option<string>): Option<seq<seq<string>>>
    decreases |s|
  {
    if s == [] then (if quoted then None else AddWord(word, Some([[]])))
    else if quoted then
      if s[0] == '\'' then Read(s[1..], false, word)
      else Read(s[1..], true, Some(Current(word) + [s[0]]))
    else if s[0] == '\'' then Read(s[1..], true, Some(Current(word)))
    else if s[0] == '\\' then
      if |s| < 2 then None
      else if s[1] == '\n' then Read(s[2..], false, word)
      else Read(s[2..], false, Some(Current(word) + [s[1]]))
    else if s[0] == ' ' || s[0] == '\t' then AddWord(word, Read(s[1..], false, None))
    else if s[0] == ';' then EndCommand(word, Read(s[1..], false, None))
    else if s[0] in SPECIAL then None
    else Read(s[1..], false, Some(Current(word) + [s[0]]))
  }

  /** Inside quotes, the replaced text and its closing quote read as the text. */
  lemma {:induction false} ReadQuoted(a: string, rest: string, w: string)
    ensures Read(ReplaceQuotes(a) + ("'" + rest), true, Some(w)) == Read(rest, false, Some(w + a))
  {
    var tail := "'" + rest;
    var s := ReplaceQuotes(a) + tail;
    if a == [] {
      assert s == tail && tail[1..] == rest && w + a == w;
    } else {
      var more := ReplaceQuotes(a[1..]) + tail;
      ReadQuoted(a[1..], rest, w + [a[0]]);
      assert w + [a[0]] + a[1..] == w + a;
      if a[0] == '\'' {
        assert s == "'\\''" + more;
        ReadEscapedQuote(more, w);
      } else {
        assert s[0] == a[0] && s[1..] == more;
      }
    }
  }

  lemma ReadEscapedQuote(more: string, w: string)
    ensures Read("'\\''" + more, true, Some(w)) == Read(more, true, Some(w + ['\'']))
  {
    var s := "'\\''" + more;
    var s1 := "\\''" + more;
    var s2 := "'" + more;
    assert s[1..] == s1 && s1[1] == '\'' && s1[2..] == s2 && s2[1..] == more;
    assert Read(s, true, Some(w)) == Read(s1, false, Some(w));
    assert Read(s1, false, Some(w)) == Read(s2, false, Some(w + ['\'']));
  }

  lemma ReadQuote(a: string, rest: string)
    ensures Read(Quote(a) + rest, false, None) == Read(rest, false, Some(a))
  {
    var s := Quote(a) + rest;
    assert s[0] == '\'' && s[1..] == ReplaceQuotes(a) + ("'" + rest);
    ReadQuoted(a, rest, []);
    assert [] + a == a;
  }

  /** A blank ends the word before it. */
  lemma ReadBlank(rest: string, word: Option<string>, words: seq<string>, more: seq<seq<string>>)
    requires Read(rest, false, None) == Some([words] + more)
    ensures Read(" " + rest, false, word) ==
            Some([(if word.Some? then [word.value] else []) + words] + more)
  {
    assert (" " + rest)[1..] == rest;
    assert ([words] + more)[1..] == more;
    assert [] + words == words;
  }

  /** A semicolon ends the word and the command before it. */
  lemma ReadSemicolon(rest: string, word: string, commands: seq<seq<string>>)
    requires Read(rest, false, None) == Some(commands)
    ensures Read(";" + rest, false, Some(word)) == Some([[word]] + commands)
  {
    assert (";" + rest)[1..] == rest;
    assert ([[]] + commands)[1..] == commands;
    assert [word] + [] == [word];
  }

  /** Splitting quoted arguments by shell rules gives exactly the arguments. */
  lemma {:induction false} ReadArguments(args: seq<string>)
    ensures Read(Join(QuoteAll(args), " "), false, None) == Some([args])
  {
    if |args| == 1 {
      var s := Quote(args[0]);
      assert Join(QuoteAll(args), " ") == s + "";
      ReadQuote(args[0], "");
      assert [args[0]] + [] == args && [args] + [] == [args];
    } else if |args| > 1 {
      var rest := Join(QuoteAll(args[1..]), " ");
      assert QuoteAll(args)[1..] == QuoteAll(args[1..]);
      assert Join(QuoteAll(args), " ") == Quote(args[0]) + (" " + rest);
      ReadQuote(args[0], " " + rest);
      assert (" " + rest)[1..] == rest;
      ReadArguments(args[1..]);
      assert [args[1..]] + [] == [args[1..]];
      ReadBlank(rest, Some(args[0]), args[1..], []);
      assert [args[0]] + args[1..] == args && [args] + [] == [args];
    }
  }

  lemma {:induction false} ReadPlain(w: string, rest: string, word: Option<string>)
    requires forall i :: 0 <= i < |w| ==> w[i] !in SPECIAL && w[i] !in "'\\ \t;"
    requires w != []
    ensures Read(w + rest, false, word) == Read(rest, false, Some(Current(word) + w))
  {
    assert w + rest == [w[0]] + (w[1..] + rest);
    ReadPlainChar(w[0], w[1..] + rest, word);
    if |w| > 1 {
      ReadPlain(w[1..], rest, Some(Current(word) + [w[0]]));
      assert Current(word) + [w[0]] + w[1..] == Current(word) + w;
    } else {
      assert w[1..] + rest == rest && [w[0]] == w;
    }
  }

  lemma ReadPlainChar(c: char, rest: string, word: Option<string>)
    requires c !in SPECIAL && c !in "'\\ \t;"
    ensures Read([c] + rest, false, word) == Read(rest, false, Some(Current(word) + [c]))
  {
    assert ([c] + rest)[1..] == rest;
  }

  lemma ReadPause(tail: string, args: seq<string>)
    requires Read(tail, false, None) == Some([args])
    ensures Read("2" + (";" + (" " + tail)), false, None) == Some([["2"], args])
  {
    assert [args] + [] == [args] && [] + args == args;
    ReadBlank(tail, None, args, []);
    ReadSemicolon(" " + tail, "2", [args]);
    ReadPlain("2", ";" + (" " + tail), None);
    assert [] + "2" == "2" && [["2"]] + [args] == [["2"], args];
  }

  /** For every argument list, empty arguments and embedded quotes included, the
      scheduled line is a pause followed by exactly that command. */
  lemma CommandLineRunsArguments(args: seq<string>)
    ensures Read(CommandLine(args), false, None) == Some([["sleep", "2"], args])
  {
    var tail := Join(QuoteAll(args), " ");
    var line := "2" + (";" + (" " + tail));
    ReadArguments(args);
    ReadPause(tail, args);
    assert [["2"], args] == [["2"]] + [args];
    ReadBlank(line, Some("sleep"), ["2"], [args]);
    ReadPlain("sleep", " " + line, None);
    assert [] + "sleep" == "sleep";
    assert ["sleep"] + ["2"] == ["sleep", "2"];
    assert [["sleep", "2"]] + [args] == [["sleep", "2"], args];
    assert CommandLine(args) == "sleep" + (" " + line);
  }

  /** The scheduled uninstall runs this binary's own `uninstall`, against the
      credentials in use, purging exactly when asked. */
  lemma ScheduledUninstall(exe: string, purge: bool, credentials: string)
    ensures Read(CommandLine([exe] + UninstallArgs(purge, credentials)), false, None) ==
            Some([["sleep", "2"],
                  [exe, "uninstall", "--non-interactive", "--credentials-file", credentials]
                  + if purge then ["--purge"] else []])
  {
    CommandLineRunsArguments([exe] + UninstallArgs(purge, credentials));
    assert [exe] + UninstallArgs(purge, credentials) ==
           [exe, "uninstall", "--non-interactive", "--credentials-file", credentials]
           + if purge then ["--purge"] else [];
  }
}
