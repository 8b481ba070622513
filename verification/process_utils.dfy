/** Per-OS escaping of one shell argument (the Drush scheme) and the
    choice between a process's error output and its standard output. */
module ProcessUtils {
  import opened PhpValues
  import opened TextPasses
  import opened ShellWords

  /** The characters the Linux escaping turns into a space: tab, line feed,
      carriage return, NUL and vertical tab. */
  const BlankedChars: seq<char> := ['\t', '\n', '\r', '\0', '\U{000B}']

  /** First Linux pass: a quote closes the quoted span, adds an escaped quote
      and reopens the span. */
  const QuoteRule: Rule := Rule('\'', "'\\''")

  /** Second Linux pass: one `str_replace` over an array of needles, which
      replaces them one after another. */
  const BlankRules: seq<Rule> := [Rule('\t', " "), Rule('\n', " "), Rule('\r', " "), Rule('\0', " "), Rule('\U{000B}', " ")]

  /** The three Windows passes, in source order: backslash, double quote, percent. */
  const WindowsRules: seq<Rule> := [Rule('\\', "\\\\"), Rule('"', "\"\""), Rule('%', "%%")]

  /** What the Linux escaping does to one character. */
  function LinuxChar(c: char): string
  {
    if c == '\'' then "'\\''"
    else if c in BlankedChars then " "
    else [c]
  }

  /** What the Windows escaping does to one character. */
  function WindowsChar(c: char): string
  {
    if c in DoubledChars then [c, c] else [c]
  }

  /** One character as the shell reads back the Linux escaping of it. */
  function BlankOut(c: char): string
  {
    if c in BlankedChars then " " else [c]
  }

  /** The quote pass and the blanking passes, as one list of rules. */
  const LinuxRules: seq<Rule> := [QuoteRule] + BlankRules

  lemma LinuxRulesDoNotReintroduce()
    ensures NoReintroduction(LinuxRules)
  {
    forall i, j | 0 <= i < j < |LinuxRules|
      ensures LinuxRules[j].needle !in LinuxRules[i].repl
    {
      assert LinuxRules[j].needle in BlankedChars;
      assert LinuxRules[i].repl == "'\\''" || LinuxRules[i].repl == " ";
    }
  }

  lemma LinuxCharIsFirstRule(c: char)
    ensures FirstRuleFor(LinuxRules, c) == LinuxChar(c)
  {
    if c != '\'' {
      assert LinuxRules[1..] == BlankRules;
      var b := BlankRules;
      assert FirstRuleFor(LinuxRules, c) == FirstRuleFor(b, c);
      assert FirstRuleFor(b, c) == if c == '\t' then " " else FirstRuleFor(b[1..], c);
      assert FirstRuleFor(b[1..], c) == if c == '\n' then " " else FirstRuleFor(b[2..], c);
      assert FirstRuleFor(b[2..], c) == if c == '\r' then " " else FirstRuleFor(b[3..], c);
      assert FirstRuleFor(b[3..], c) == if c == '\0' then " " else FirstRuleFor(b[4..], c);
      assert FirstRuleFor(b[4..], c) == if c == '\U{000B}' then " " else FirstRuleFor(b[5..], c);
      assert b[5..] == [];
    }
  }

  /** The quote pass followed by the blanking passes is one per-character map. */
  lemma LinuxPassesAreOneMap(arg: string)
    ensures ReplacePasses(Replace(arg, '\'', "'\\''"), BlankRules) == FlatMap(arg, LinuxChar)
  {
    LinuxRulesDoNotReintroduce();
    forall i | 0 <= i < |arg|
      ensures ReplacePasses([arg[i]], LinuxRules) == LinuxChar(arg[i])
    {
      PassesOnChar(arg[i], LinuxRules);
      LinuxCharIsFirstRule(arg[i]);
    }
    PassesAreCharMap(arg, LinuxRules, LinuxChar);
    assert LinuxRules[0] == QuoteRule && LinuxRules[1..] == BlankRules;
  }

  /** The three Windows passes are one per-character map. */
  lemma WindowsPassesAreOneMap(arg: string)
    ensures ReplacePasses(arg, WindowsRules) == FlatMap(arg, WindowsChar)
  {
    assert NoReintroduction(WindowsRules);
    forall i | 0 <= i < |arg|
      ensures ReplacePasses([arg[i]], WindowsRules) == WindowsChar(arg[i])
    {
      PassesOnChar(arg[i], WindowsRules);
    }
    PassesAreCharMap(arg, WindowsRules, WindowsChar);
  }

  /** Drush's Linux escaping: quotes as `'\''`, control characters blanked, all wrapped in `'…'`. */
  function EscapeLinux(arg: string): (r: string)
    ensures r == "'" + FlatMap(arg, LinuxChar) + "'"
    ensures |r| >= 2 && r[0] == '\'' && r[|r| - 1] == '\''
    ensures r[1..|r| - 1] == FlatMap(arg, LinuxChar)
  {
    var quoted := Replace(arg, '\'', "'\\''");
    var blanked := ReplacePasses(quoted, BlankRules);
    LinuxPassesAreOneMap(arg);
    "'" + blanked + "'"
  }

  /** Drush's Windows escaping: backslash, double quote and percent doubled, all wrapped in `"…"`. */
  function EscapeWindows(arg: string): (r: string)
    ensures r == "\"" + FlatMap(arg, WindowsChar) + "\""
    ensures |r| >= 2 && r[0] == '"' && r[|r| - 1] == '"'
    ensures r[1..|r| - 1] == FlatMap(arg, WindowsChar)
  {
    var backslashes := Replace(arg, '\\', "\\\\");
    var quotes := Replace(backslashes, '"', "\"\"");
    var percents := Replace(quotes, '%', "%%");
    assert percents == ReplacePasses(arg, WindowsRules);
    WindowsPassesAreOneMap(arg);
    "\"" + percents + "\""
  }

  /** `ProcessUtils::escapeshellarg`: a falsy `os` (null, "" or "0") defers
      to the host's native escaping, passed in as `native`; "windows" selects
      the Windows scheme and every other value the Linux one. */
  function EscapeShellArg(arg: string, os: Option<string>, native: string -> string): (r: string)
    ensures FalsyOrNull(os) ==> r == native(arg)
    ensures os == Some("windows") ==> r == EscapeWindows(arg)
    ensures !FalsyOrNull(os) && os != Some("windows") ==> r == EscapeLinux(arg)
  {
    if FalsyOrNull(os) then native(arg)
    else if os.value == "windows" then EscapeWindows(arg)
    else EscapeLinux(arg)
  }

  /** `ProcessUtils::getOutput` over the two captured streams: the error
      output unless it is falsy, else the standard output. */
  function GetOutput(stdout: string, stderr: string): (r: string)
    ensures r == stdout || r == stderr
    ensures !Falsy(stderr) ==> r == stderr
    ensures Falsy(stderr) ==> r == stdout
    ensures Falsy(r) <==> Falsy(stdout) && Falsy(stderr)
  {
    if Falsy(stderr) then stdout else stderr
  }

  // Linux escaping

  lemma {:induction false} LinuxInteriorLength(arg: string)
    ensures |FlatMap(arg, LinuxChar)| == |arg| + 3 * Count(arg, '\'')
  {
    if arg != [] {
      LinuxInteriorLength(arg[1..]);
    }
  }

  /** Every quote grows by three characters; the wrapping quotes add two. */
  lemma LinuxLength(arg: string)
    ensures |EscapeLinux(arg)| == |arg| + 3 * Count(arg, '\'') + 2
  {
    LinuxInteriorLength(arg);
  }

  lemma {:induction false} LinuxInteriorHasNoBlanked(arg: string)
    ensures forall i | 0 <= i < |FlatMap(arg, LinuxChar)| :: FlatMap(arg, LinuxChar)[i] !in BlankedChars
  {
    if arg != [] {
      LinuxInteriorHasNoBlanked(arg[1..]);
      var head, tail := LinuxChar(arg[0]), FlatMap(arg[1..], LinuxChar);
      assert forall i | 0 <= i < |head| :: head[i] !in BlankedChars;
      assert FlatMap(arg, LinuxChar) == head + tail;
    }
  }

  /** No tab, line feed, carriage return, NUL or vertical tab survives. */
  lemma LinuxHasNoControlChars(arg: string)
    ensures forall i | 0 <= i < |EscapeLinux(arg)| :: EscapeLinux(arg)[i] !in BlankedChars
  {
    var r := EscapeLinux(arg);
    LinuxInteriorHasNoBlanked(arg);
    forall i | 0 <= i < |r|
      ensures r[i] !in BlankedChars
    {
      if 0 < i < |r| - 1 {
        assert r[i] == r[1..|r| - 1][i - 1];
      }
    }
  }

  /** The shell reads `'\''` inside a quoted span as one literal quote. */
  lemma ReadEscapedQuote(t: string)
    ensures ReadQuotedWord("'\\''" + t, true) == Prepend('\'', ReadQuotedWord(t, true))
  {
    var s := "'\\''" + t;
    var u := s[1..];
    assert u == ['\\', '\'', '\''] + t;
    var v := u[2..];
    assert v == ['\''] + t && v[1..] == t;
    assert ReadQuotedWord(v, false) == ReadQuotedWord(t, true);
    assert ReadQuotedWord(u, false) == Prepend('\'', ReadQuotedWord(v, false));
    assert ReadQuotedWord(s, true) == ReadQuotedWord(u, false);
  }

  lemma ReadQuotedChar(d: char, t: string)
    requires d != '\''
    ensures ReadQuotedWord([d] + t, true) == Prepend(d, ReadQuotedWord(t, true))
  {
    assert ([d] + t)[1..] == t;
  }

  lemma {:induction false} LinuxReadBackInterior(arg: string)
    ensures ReadQuotedWord(FlatMap(arg, LinuxChar) + "'", true) == Some(FlatMap(arg, BlankOut))
  {
    if arg == [] {
      assert FlatMap(arg, LinuxChar) + "'" == "'";
    } else {
      var c := arg[0];
      var t := FlatMap(arg[1..], LinuxChar) + "'";
      LinuxReadBackInterior(arg[1..]);
      assert FlatMap(arg, LinuxChar) + "'" == LinuxChar(c) + t;
      if c == '\'' {
        ReadEscapedQuote(t);
      } else {
        ReadQuotedChar(BlankOut(c)[0], t);
        assert LinuxChar(c) == [BlankOut(c)[0]];
      }
    }
  }

  lemma {:induction false} BlankOutKeeps(arg: string)
    requires forall i | 0 <= i < |arg| :: arg[i] !in BlankedChars
    ensures FlatMap(arg, BlankOut) == arg
  {
    if arg != [] {
      BlankOutKeeps(arg[1..]);
    }
  }

  /** A POSIX shell reads the Linux escaping back as one word: the argument
      itself, with the blanked control characters as spaces. */
  lemma LinuxShellReadsBack(arg: string)
    ensures ReadQuotedWord(EscapeLinux(arg), false) == Some(FlatMap(arg, BlankOut))
  {
    var r := EscapeLinux(arg);
    var inner := FlatMap(arg, LinuxChar);
    assert r == "'" + inner + "'" by {
      assert r == r[..1] + r[1..|r| - 1] + r[|r| - 1..];
    }
    assert r[1..] == inner + "'";
    assert ReadQuotedWord(r, false) == ReadQuotedWord(r[1..], true);
    LinuxReadBackInterior(arg);
  }

  /** An argument without those control characters is read back exactly. */
  lemma LinuxShellReadsBackExactly(arg: string)
    requires forall i | 0 <= i < |arg| :: arg[i] !in BlankedChars
    ensures ReadQuotedWord(EscapeLinux(arg), false) == Some(arg)
  {
    LinuxShellReadsBack(arg);
    BlankOutKeeps(arg);
  }

  // Windows escaping

  lemma {:induction false} WindowsInteriorLength(arg: string)
    ensures |FlatMap(arg, WindowsChar)| == |arg| + Count(arg, '\\') + Count(arg, '"') + Count(arg, '%')
  {
    if arg != [] {
      WindowsInteriorLength(arg[1..]);
    }
  }

  /** Each backslash, double quote and percent grows by one character; the wrapping quotes add two. */
  lemma WindowsLength(arg: string)
    ensures |EscapeWindows(arg)| == |arg| + Count(arg, '\\') + Count(arg, '"') + Count(arg, '%') + 2
  {
    WindowsInteriorLength(arg);
  }

  lemma {:induction false} WindowsInteriorDoubled(arg: string, c: char)
    requires c in DoubledChars
    ensures Doubled(FlatMap(arg, WindowsChar), c)
  {
    if arg != [] {
      WindowsInteriorDoubled(arg[1..], c);
      var head := WindowsChar(arg[0]);
      assert Doubled(head, c) by {
        if |head| == 2 {
          assert head[2..] == [];
        } else {
          assert head[1..] == [];
        }
      }
      DoubledAppend(head, FlatMap(arg[1..], WindowsChar), c);
    }
  }

  /** Inside the outer quotes every percent (and every backslash and double
      quote) comes as an adjacent pair, so no lone `%` is left to start a
      variable expansion. */
  lemma WindowsSpecialsDoubled(arg: string, c: char)
    requires c in DoubledChars
    ensures Doubled(EscapeWindows(arg)[1..|EscapeWindows(arg)| - 1], c)
  {
    WindowsInteriorDoubled(arg, c);
  }

  lemma {:induction false} WindowsUndoubleInterior(arg: string)
    ensures Undouble(FlatMap(arg, WindowsChar)) == Some(arg)
  {
    if arg != [] {
      var c := arg[0];
      var t := FlatMap(arg[1..], WindowsChar);
      WindowsUndoubleInterior(arg[1..]);
      var s := FlatMap(arg, WindowsChar);
      assert s == WindowsChar(c) + t;
      if c in DoubledChars {
        assert s[2..] == t;
      } else {
        assert s[1..] == t;
      }
      assert arg == [c] + arg[1..];
    }
  }

  /** The Windows escaping loses nothing: undoing the doubling inside the
      outer quotes gives back the argument. */
  lemma WindowsRoundTrip(arg: string)
    ensures UnquoteDoubled(EscapeWindows(arg)) == Some(arg)
  {
    WindowsUndoubleInterior(arg);
  }

  // Dispatch

  /** For a truthy `os` the result is quoted, with double quotes exactly
      when `os` is "windows" and single quotes otherwise. */
  lemma DispatchQuoteStyle(arg: string, os: Option<string>, native: string -> string)
    requires !FalsyOrNull(os)
    ensures var r := EscapeShellArg(arg, os, native);
      && |r| >= 2 && r[0] == r[|r| - 1]
      && (r[0] == '"' <==> os == Some("windows"))
      && (r[0] == '\'' <==> os != Some("windows"))
  {
  }

  // Worked examples

  /** The empty argument on both schemes. */
  lemma EscapeEmptyExamples()
    ensures EscapeLinux("") == "''"
    ensures EscapeWindows("") == "\"\""
  {
  }

  lemma QuoteInterior()
    ensures "'" + FlatMap("it's", LinuxChar) + "'" == "'it'\\''s'"
  {
    assert "it's"[1..] == "t's" && "t's"[1..] == "'s" && "'s"[1..] == "s";
    assert FlatMap("s", LinuxChar) == "s";
    assert FlatMap("'s", LinuxChar) == "'\\''s";
  }

  /** An embedded quote leaves the quoted span, is escaped and reopens it. */
  lemma EscapeQuoteExample()
    ensures EscapeLinux("it's") == "'it'\\''s'"
  {
    QuoteInterior();
  }

  lemma TabInterior()
    ensures "'" + FlatMap("a\tb", LinuxChar) + "'" == "'a b'"
  {
    assert "a\tb"[1..] == "\tb" && "\tb"[1..] == "b" && "b"[1..] == "";
    assert FlatMap("b", LinuxChar) == "b";
    assert FlatMap("\tb", LinuxChar) == " b";
  }

  /** A tab becomes one space inside the quotes. */
  lemma EscapeTabExample()
    ensures EscapeLinux("a\tb") == "'a b'"
  {
    TabInterior();
  }

  lemma PercentInterior()
    ensures "\"" + FlatMap("100%", WindowsChar) + "\"" == "\"100%%\""
  {
    assert "100%"[1..] == "00%" && "00%"[1..] == "0%" && "0%"[1..] == "%" && "%"[1..] == "";
    assert FlatMap("%", WindowsChar) == "%%";
    assert FlatMap("0%", WindowsChar) == "0%%";
    assert FlatMap("00%", WindowsChar) == "00%%";
  }

  /** A percent is doubled inside the double quotes. */
  lemma EscapePercentExample()
    ensures EscapeWindows("100%") == "\"100%%\""
  {
    PercentInterior();
  }

  lemma GetOutputExamples()
    ensures GetOutput("out", "") == "out"
    ensures GetOutput("out", "err") == "err"
    ensures GetOutput("", "") == ""
    ensures GetOutput("out", "0") == "out"
    ensures GetOutput("0", "") == "0"
  {
  }
}
