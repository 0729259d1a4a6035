/** The gnatprove command lines (`run_manual`, `run_automatic`,
    `run_options`), as the strings handed to the shell.  Alongside them, the
    way a shell splits such a string into arguments, so that the argument
    vector each command produces can be stated. */
module Commands {
  import opened Text

  const ProjectFile := "sparklib_gen.gpr"

  // ---------------------------------------------------------------------
  // Decimal rendering of the numeric options
  // ---------------------------------------------------------------------

  function Digit(d: nat): char
    requires d < 10
  {
    "0123456789"[d]
  }

  /** What an f-string makes of a non-negative integer: its decimal digits,
      with no leading zero. */
  function NatToString(n: nat): (s: string)
    ensures |s| >= 1
    ensures forall k :: 0 <= k < |s| ==> '0' <= s[k] <= '9'
    ensures (s[0] == '0') == (n == 0)
  {
    if n < 10 then [Digit(n)] else NatToString(n / 10) + [Digit(n % 10)]
  }

  /** The number a string of decimal digits denotes. */
  function DecimalValue(s: string): nat
    requires forall k :: 0 <= k < |s| ==> '0' <= s[k] <= '9'
  {
    if s == [] then 0 else DecimalValue(s[..|s| - 1]) * 10 + (s[|s| - 1] as int - '0' as int)
  }

  /** Reading the digits back gives the number: the rendering loses nothing. */
  lemma {:induction false} NatToStringRoundTrip(n: nat)
    ensures DecimalValue(NatToString(n)) == n
  {
    if n >= 10 {
      var s := NatToString(n);
      assert s[..|s| - 1] == NatToString(n / 10);
      NatToStringRoundTrip(n / 10);
    }
  }

  /** So different numbers are rendered differently. */
  lemma NatToStringInjective(m: nat, n: nat)
    requires NatToString(m) == NatToString(n)
    ensures m == n
  {
    NatToStringRoundTrip(m);
    NatToStringRoundTrip(n);
  }

  // ---------------------------------------------------------------------
  // Words of a command line
  // ---------------------------------------------------------------------

  /** The characters a shell splits unquoted words on. */
  predicate IsSep(c: char)
  {
    c == ' ' || c == '\t' || c == '\n'
  }

  /** No separator occurs in `w`. */
  predicate NoSep(w: string)
  {
    forall k :: 0 <= k < |w| ==> !IsSep(w[k])
  }

  /** A word: non-empty, with no separator in it. */
  predicate IsWord(w: string)
  {
    |w| > 0 && NoSep(w)
  }

  /** The length of the word that starts `s`. */
  function WordLen(s: string): (n: nat)
    ensures n <= |s|
  {
    if s == [] || IsSep(s[0]) then 0 else 1 + WordLen(s[1..])
  }

  /** The words of a command line, as the shell splits it (no quoting or
      other metacharacters occur in these commands). */
  function Words(s: string): seq<string>
    decreases |s|
  {
    if s == [] then []
    else if IsSep(s[0]) then Words(s[1..])
    else var n := WordLen(s); [s[..n]] + Words(s[n..])
  }

  /** Words joined with single spaces: the command line that runs them. */
  function Join(ws: seq<string>): string
  {
    if ws == [] then "" else if |ws| == 1 then ws[0] else ws[0] + " " + Join(ws[1..])
  }

  lemma {:induction false} WordLenOfWord(w: string, t: string)
    requires NoSep(w)
    requires t == [] || IsSep(t[0])
    ensures WordLen(w + t) == |w|
  {
    if w != [] {
      assert (w + t)[1..] == w[1..] + t;
      assert !IsSep(w[0]);
      WordLenOfWord(w[1..], t);
    } else {
      assert w + t == t;
    }
  }

  /** A word followed by the rest of a line splits into that word and the
      words of the rest. */
  lemma WordsCons(w: string, t: string)
    requires IsWord(w)
    requires t == [] || IsSep(t[0])
    ensures Words(w + t) == [w] + Words(t)
  {
    WordLenOfWord(w, t);
    assert (w + t)[..|w|] == w;
    assert (w + t)[|w|..] == t;
  }

  /** A separator in front of a line adds no word. */
  lemma WordsSkipSep(x: string)
    ensures Words(" " + x) == Words(x)
  {
    assert (" " + x)[1..] == x;
  }

  /** Joined words followed by the rest of a line split into those words and
      the words of the rest. */
  lemma {:induction false} WordsOfJoinThen(ws: seq<string>, t: string)
    requires ws != [] && forall i :: 0 <= i < |ws| ==> IsWord(ws[i])
    requires t == [] || IsSep(t[0])
    ensures Words(Join(ws) + t) == ws + Words(t)
  {
    assert IsWord(ws[0]);
    if |ws| == 1 {
      assert Join(ws) == ws[0];
      WordsCons(ws[0], t);
    } else {
      var j := Join(ws[1..]);
      var rest := " " + (j + t);
      assert Join(ws) == ws[0] + " " + j;
      assert Join(ws) + t == ws[0] + rest;
      WordsCons(ws[0], rest);
      WordsSkipSep(j + t);
      assert forall i :: 0 <= i < |ws[1..]| ==> IsWord(ws[1..][i]);
      WordsOfJoinThen(ws[1..], t);
      assert ws == [ws[0]] + ws[1..];
    }
  }

  /** Splitting undoes joining. */
  lemma WordsOfJoin(ws: seq<string>)
    requires forall i :: 0 <= i < |ws| ==> IsWord(ws[i])
    ensures Words(Join(ws)) == ws
  {
    if ws != [] {
      WordsOfJoinThen(ws, "");
      assert Join(ws) + "" == Join(ws);
    }
  }

  /** A word alone on a line (after a separator) is the only word. */
  lemma WordsOfLastWord(w: string)
    requires IsWord(w)
    ensures Words(" " + w) == [w]
  {
    WordsSkipSep(w);
    WordsCons(w, "");
    assert w + "" == w;
  }

  /** Joining two non-empty lists is joining each and putting one space
      between them. */
  lemma {:induction false} JoinAppend(a: seq<string>, b: seq<string>)
    requires a != [] && b != []
    ensures Join(a + b) == Join(a) + " " + Join(b)
  {
    assert (a + b)[0] == a[0];
    assert (a + b)[1..] == a[1..] + b;
    if |a| > 1 {
      JoinAppend(a[1..], b);
    } else {
      assert a[1..] + b == b;
    }
  }

  // ---------------------------------------------------------------------
  // The three builders
  // ---------------------------------------------------------------------

  /** The words of the fixed part of `run_manual`'s command.  It is written
      as two literals with nothing between them, `...-U --output=oneline`
      and `--prover=coq --report=provers`, so `--output=oneline` and
      `--prover=coq` form one word. */
  const ManualFlags := ["gnatprove", "-j0", "-P", ProjectFile, "-U",
                        "--output=oneline" + "--prover=coq", "--report=provers"]

  /** The argument `run_manual` builds from a check, after the option. */
  function CheckArg(check: string): string
  {
    if ':' in check then "--limit-line=" + check else check
  }

  /** `run_manual(check_to_prove, option)`: the check is passed as a unit
      name, or as `--limit-line=` when it names a line (it contains `:`);
      `option` is written directly before it. */
  function RunManual(check: string, option: string := ""): string
  {
    if ':' !in check then Join(ManualFlags) + " " + option + check
    else Join(ManualFlags) + " " + option + "--limit-line=" + check
  }

  /** The words of the fixed part of `run_automatic`'s command. */
  const AutomaticFlags := ["gnatprove", "-P", ProjectFile, "--counterexamples=off", "--output=oneline", "-j0"]

  /** The words of ` --timeout=<t>` when a timeout is given, of nothing
      otherwise. */
  function TimeoutWords(timeout: Option<nat>): seq<string>
  {
    match timeout
    case None => []
    case Some(t) => ["--timeout=" + NatToString(t)]
  }

  /** `run_automatic(prover, level=4, timeout=None)`: the fixed flags, then
      `--prover=` and `--level=`, and `--timeout=` only when a timeout is
      given, separated by single spaces. */
  function RunAutomatic(prover: string, level: nat := 4, timeout: Option<nat> := None): string
  {
    Join(AutomaticFlags + ["--prover=" + prover, "--level=" + NatToString(level)] + TimeoutWords(timeout))
  }

  /** The words of the fixed part of `run_options`' command. */
  const OptionsFlags := ["gnatprove", "-P", ProjectFile, "--counterexamples=off", "-j0"]

  /** `run_options(opt)`. */
  function RunOptions(opt: string): string
  {
    Join(OptionsFlags) + " " + opt
  }

  lemma ManualFlagsAreWords()
    ensures forall i :: 0 <= i < |ManualFlags| ==> IsWord(ManualFlags[i])
  {
  }

  lemma AutomaticFlagsAreWords()
    ensures forall i :: 0 <= i < |AutomaticFlags| ==> IsWord(AutomaticFlags[i])
  {
  }

  lemma OptionsFlagsAreWords()
    ensures forall i :: 0 <= i < |OptionsFlags| ==> IsWord(OptionsFlags[i])
  {
  }

  /** The arguments of `run_manual`, for a check and an option that contain
      no separator: the fixed flags (with the glued
      `--output=oneline--prover=coq`) and one more argument, the option
      glued to `--limit-line=<check>` exactly when the check contains `:`,
      to the bare check otherwise. */
  lemma ManualWords(check: string, option: string)
    requires NoSep(check) && NoSep(option) && option + check != []
    ensures Words(RunManual(check, option)) ==
            ManualFlags + [option + (if ':' in check then "--limit-line=" + check else check)]
  {
    var arg := if ':' in check then "--limit-line=" + check else check;
    var last := option + arg;
    ManualFlagsAreWords();
    assert NoSep(arg);
    assert NoSep(last);
    assert RunManual(check, option) == Join(ManualFlags) + (" " + last);
    WordsOfJoinThen(ManualFlags, " " + last);
    WordsOfLastWord(last);
  }

  /** The arguments of `run_automatic`, for a prover list without
      separators: counterexamples are always off, the prover and the level
      are always given, and `--timeout=` appears exactly when a timeout is
      given. */
  lemma AutomaticWords(prover: string, level: nat, timeout: Option<nat>)
    requires NoSep(prover)
    ensures Words(RunAutomatic(prover, level, timeout)) ==
            AutomaticFlags + ["--prover=" + prover, "--level=" + NatToString(level)] + TimeoutWords(timeout)
  {
    var ws := AutomaticFlags + ["--prover=" + prover, "--level=" + NatToString(level)] + TimeoutWords(timeout);
    AutomaticFlagsAreWords();
    assert IsWord("--prover=" + prover) && IsWord("--level=" + NatToString(level));
    match timeout {
      case None =>
      case Some(t) => assert IsWord("--timeout=" + NatToString(t));
    }
    assert forall i :: 0 <= i < |ws| ==> IsWord(ws[i]);
    WordsOfJoin(ws);
  }

  /** The defaults of `run_automatic`: level 4 and no timeout. */
  lemma AutomaticDefaults(prover: string)
    requires NoSep(prover)
    ensures Words(RunAutomatic(prover)) == AutomaticFlags + ["--prover=" + prover, "--level=4"]
  {
    AutomaticWords(prover, 4, None);
    assert NatToString(4) == "4";
    assert "--level=" + NatToString(4) == "--level=4";
    var ws := AutomaticFlags + ["--prover=" + prover, "--level=4"];
    assert ws + TimeoutWords(None) == ws;
  }

  /** The arguments of `run_options`: the fixed flags and then the words of
      the option string. */
  lemma OptionsWords(opt: string)
    ensures Words(RunOptions(opt)) == OptionsFlags + Words(opt)
  {
    OptionsFlagsAreWords();
    assert RunOptions(opt) == Join(OptionsFlags) + (" " + opt);
    WordsOfJoinThen(OptionsFlags, " " + opt);
    WordsSkipSep(opt);
  }

  /** The command of `run_manual` is the fixed flags, a space, and the
      option glued to the check's argument. */
  lemma RunManualShape(check: string, option: string)
    ensures RunManual(check, option) == Join(ManualFlags) + (" " + (option + CheckArg(check)))
  {
    var j := Join(ManualFlags);
    if ':' in check {
      assert j + " " + option + "--limit-line=" + check == j + (" " + (option + ("--limit-line=" + check)));
    } else {
      assert j + " " + option + check == j + (" " + (option + check));
    }
  }

  /** Whatever the check and the option, the command of `run_manual` splits
      into the fixed flags followed by the words of what is written after
      them. */
  lemma ManualLead(check: string, option: string)
    ensures Words(RunManual(check, option)) == ManualFlags + Words(option + CheckArg(check))
  {
    var last := option + CheckArg(check);
    RunManualShape(check, option);
    ManualFlagsAreWords();
    WordsOfJoinThen(ManualFlags, " " + last);
    WordsSkipSep(last);
  }

  /** A trailing `\n` on the check stays at the end of its argument. */
  lemma CheckArgNewline(check: string)
    ensures CheckArg(check + "\n") == CheckArg(check) + "\n"
  {
    assert (':' in check + "\n") == (':' in check);
  }

  /** A check read from `manual_proof.in` keeps its `\n`: the shell ends the
      command there, and the arguments are those of the check without it. */
  lemma ManualWordsFromFile(check: string, option: string)
    requires NoSep(check) && NoSep(option) && option + check != []
    ensures Words(RunManual(check + "\n", option)) == ManualFlags + [option + CheckArg(check)]
  {
    ManualLead(check + "\n", option);
    FileCheckWords(check, option);
  }

  /** What follows the fixed flags for a check read from the file: one
      word, the line break dropped. */
  lemma FileCheckWords(check: string, option: string)
    requires NoSep(check) && NoSep(option) && option + check != []
    ensures Words(option + CheckArg(check + "\n")) == [option + CheckArg(check)]
  {
    var last := option + CheckArg(check);
    CheckArgNewline(check);
    assert option + CheckArg(check + "\n") == last + "\n";
    assert NoSep(CheckArg(check));
    WordsCons(last, "\n");
    assert "\n"[1..] == "";
  }

  /** Whatever the prover list, level and timeout, the command of
      `run_automatic` splits into the fixed flags followed by the words of
      the rest. */
  /** The command of `run_automatic` is the fixed flags, a space, and the
      prover, level and timeout arguments. */
  lemma RunAutomaticShape(prover: string, level: nat, timeout: Option<nat>)
    ensures RunAutomatic(prover, level, timeout) ==
            Join(AutomaticFlags) + (" " + Join(["--prover=" + prover, "--level=" + NatToString(level)] + TimeoutWords(timeout)))
  {
    var rest := ["--prover=" + prover, "--level=" + NatToString(level)] + TimeoutWords(timeout);
    assert AutomaticFlags + ["--prover=" + prover, "--level=" + NatToString(level)] + TimeoutWords(timeout) == AutomaticFlags + rest;
    JoinAppend(AutomaticFlags, rest);
  }

  lemma AutomaticLead(prover: string, level: nat, timeout: Option<nat>)
    ensures Words(RunAutomatic(prover, level, timeout)) ==
            AutomaticFlags + Words(" " + Join(["--prover=" + prover, "--level=" + NatToString(level)] + TimeoutWords(timeout)))
  {
    RunAutomaticShape(prover, level, timeout);
    AutomaticFlagsAreWords();
    WordsOfJoinThen(AutomaticFlags, " " + Join(["--prover=" + prover, "--level=" + NatToString(level)] + TimeoutWords(timeout)));
  }

  /** Every command starts with `gnatprove` and names the project file
      right after `-P`, whatever its arguments. */
  lemma CommandsNameProject(check: string, option: string, prover: string, level: nat, timeout: Option<nat>, opt: string)
    ensures var m := Words(RunManual(check, option));
            |m| >= |ManualFlags| && m[..|ManualFlags|] == ManualFlags &&
            m[0] == "gnatprove" && m[2] == "-P" && m[3] == ProjectFile
    ensures var a := Words(RunAutomatic(prover, level, timeout));
            |a| >= |AutomaticFlags| && a[..|AutomaticFlags|] == AutomaticFlags &&
            a[0] == "gnatprove" && a[1] == "-P" && a[2] == ProjectFile
    ensures var o := Words(RunOptions(opt));
            |o| >= |OptionsFlags| && o[..|OptionsFlags|] == OptionsFlags &&
            o[0] == "gnatprove" && o[1] == "-P" && o[2] == ProjectFile
  {
    ManualLead(check, option);
    AutomaticLead(prover, level, timeout);
    OptionsWords(opt);
  }
}
