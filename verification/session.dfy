/** The orchestration of a regeneration run (`kill_and_regenerate`,
    `choose_mode`, `diff_all`) as a trace of abstract actions, together with
    the choice of the worklist of checks and the derivation of the `.ctx` and
    `.diff` file names from a `.v` file name. */
module Session {
  import opened Text
  import opened Commands

  // ---------------------------------------------------------------------
  // Lines of a text file
  // ---------------------------------------------------------------------

  /** The length of the first line of `text`, its `\n` included. */
  function LineLen(text: string): (n: nat)
    requires text != []
    ensures 1 <= n <= |text|
  {
    if text[0] == '\n' || |text| == 1 then 1 else 1 + LineLen(text[1..])
  }

  /** The lines a text-mode file iteration yields: each keeps its `\n`, and
      the last one has none when the text does not end with a line break. */
  function LinesOf(text: string): seq<string>
    decreases |text|
  {
    if text == [] then [] else var n := LineLen(text); [text[..n]] + LinesOf(text[n..])
  }

  /** Lines written one after the other. */
  function Concat(lines: seq<string>): string
  {
    if lines == [] then "" else lines[0] + Concat(lines[1..])
  }

  /** A line: non-empty, with a `\n` at its end and nowhere else, except that
      the last line of a file may lack the final `\n`. */
  predicate LineShaped(line: string, last: bool)
  {
    line != [] &&
    (forall k :: 0 <= k < |line| - 1 ==> line[k] != '\n') &&
    (!last ==> line[|line| - 1] == '\n')
  }

  lemma {:induction false} LineLenSpec(text: string)
    requires text != []
    ensures LineShaped(text[..LineLen(text)], LineLen(text) == |text|)
  {
    if text[0] != '\n' && |text| > 1 {
      LineLenSpec(text[1..]);
      assert text[..LineLen(text)] == [text[0]] + text[1..][..LineLen(text[1..])];
    }
  }

  /** Reading a file line by line loses nothing and splits it at its line
      breaks only. */
  lemma {:induction false} LinesOfSpec(text: string)
    ensures Concat(LinesOf(text)) == text
    ensures forall i :: 0 <= i < |LinesOf(text)| ==> LineShaped(LinesOf(text)[i], i == |LinesOf(text)| - 1)
    decreases |text|
  {
    if text != [] {
      var n := LineLen(text);
      var ls := LinesOf(text);
      LineLenSpec(text);
      LinesOfSpec(text[n..]);
      assert ls[1..] == LinesOf(text[n..]);
      assert text == text[..n] + text[n..];
      forall i | 0 <= i < |ls|
        ensures LineShaped(ls[i], i == |ls| - 1)
      {
        if i > 0 {
          assert ls[i] == LinesOf(text[n..])[i - 1];
        } else if n < |text| {
          assert LinesOf(text[n..]) != [];
        }
      }
    }
  }

  /** The first line of a text that starts with a whole line is that line. */
  lemma {:induction false} LineLenOfLine(line: string, rest: string)
    requires LineShaped(line, rest == [])
    ensures LineLen(line + rest) == |line|
    decreases |line|
  {
    var text := line + rest;
    assert text[0] == line[0];
    if |line| > 1 {
      assert text[1..] == line[1..] + rest;
      LineLenOfLine(line[1..], rest);
    }
  }

  /** Writing lines and reading the file back gives the same lines, when
      each is a line (a `\n` at its end and nowhere else, except possibly
      for the last). */
  lemma {:induction false} ConcatLinesOf(ls: seq<string>)
    requires forall i :: 0 <= i < |ls| ==> LineShaped(ls[i], i == |ls| - 1)
    ensures LinesOf(Concat(ls)) == ls
  {
    if ls != [] {
      var rest := Concat(ls[1..]);
      var text := Concat(ls);
      assert text == ls[0] + rest;
      assert LineShaped(ls[0], rest == []);
      LineLenOfLine(ls[0], rest);
      assert text[..|ls[0]|] == ls[0];
      assert text[|ls[0]|..] == rest;
      assert forall i :: 0 <= i < |ls[1..]| ==> ls[1..][i] == ls[i + 1];
      ConcatLinesOf(ls[1..]);
      assert ls == [ls[0]] + ls[1..];
    }
  }

  // ---------------------------------------------------------------------
  // The worklist
  // ---------------------------------------------------------------------

  /** Python truthiness of the `check` argument: given and non-empty. */
  predicate Truthy(check: Option<string>)
  {
    check.Some? && check.value != ""
  }

  /** The checks to prove: the given check alone when it is truthy, otherwise
      the lines of `manual_proof.in` (`manualProof` is its text, `None` when
      the file does not exist, which aborts the run). */
  function Worklist(check: Option<string>, manualProof: Option<string>): Option<seq<string>>
  {
    if Truthy(check) then Some([check.value])
    else match manualProof
      case None => None
      case Some(text) => Some(LinesOf(text))
  }

  /** The loop that fills `list_of_check`. */
  method BuildWorklist(check: Option<string>, manualProof: Option<string>) returns (w: Option<seq<string>>)
    ensures w == Worklist(check, manualProof)
  {
    var list: seq<string> := [];
    if Truthy(check) {
      list := list + [check.value];
      assert list == [check.value];
    } else {
      if manualProof.None? {
        return None;
      }
      var lines := LinesOf(manualProof.value);
      var k := 0;
      while k < |lines|
        invariant 0 <= k <= |lines|
        invariant list == lines[..k]
      {
        list := list + [lines[k]];
        k := k + 1;
      }
      assert lines[..k] == lines;
      assert list == LinesOf(manualProof.value);
    }
    return Some(list);
  }

  /** The worklist read from the file is the file's text cut at its line
      breaks, each check keeping its `\n`; a given check is used alone and
      the file is not needed. */
  lemma WorklistSpec(check: Option<string>, manualProof: Option<string>)
    ensures Truthy(check) ==> Worklist(check, manualProof) == Some([check.value])
    ensures !Truthy(check) ==> (Worklist(check, manualProof).None? <==> manualProof.None?)
    ensures !Truthy(check) && manualProof.Some? ==>
              var w := Worklist(check, manualProof).value;
              Concat(w) == manualProof.value &&
              forall i :: 0 <= i < |w| ==> LineShaped(w[i], i == |w| - 1)
  {
    if !Truthy(check) && manualProof.Some? {
      LinesOfSpec(manualProof.value);
    }
  }


  // ---------------------------------------------------------------------
  // The trace of a regeneration run
  // ---------------------------------------------------------------------

  /** A call of one of the three command builders. */
  datatype Command =
    | Manual(check: string)
    | Automatic(prover: string, level: nat, timeout: Option<nat>)
    | Options(opt: string)

  /** The command line such a call hands to the shell. */
  function CommandLine(c: Command): string
  {
    match c
    case Manual(check) => RunManual(check)
    case Automatic(prover, level, timeout) => RunAutomatic(prover, level, timeout)
    case Options(opt) => RunOptions(opt)
  }

  /** What a regeneration run does, in order: `RemoveTree` removes a
      directory when it exists, `Make` is `make <target>` handed to the shell,
      `Prove` a command-builder call. */
  datatype Action =
    | RemoveTree(path: string)
    | MakeDirs(path: string)
    | Make(target: string)
    | SetEnv(name: string, value: string)
    | Prove(cmd: Command)
    | DiffAll(genCtx: bool)
    | DeleteGlob(pattern: string)

  /** The level-1 run that registers the Coq proofs in the session. */
  const CoqSession := Automatic("cvc5", 1, None)
  /** The full prover ensemble at the default level, with a timeout of 100. */
  const FullSweep := Automatic("cvc5,z3,alt-ergo,colibri", 4, Some(100))
  /** The summary of all proved checks. */
  const Summary := Options("--output-msg-only --report=provers")

  /** Removing the previous sessions and temporary files, `make clean`, and
      marking the library as not installed. */
  const Cleanup := [RemoveTree("./proof/sessions"), RemoveTree("./temp"), MakeDirs("./temp"),
                    Make("clean"), SetEnv("SPARKLIB_INSTALLED", "False")]

  /** The `run_manual` calls for a worklist, one per check. */
  function ManualCommands(w: seq<string>): (cmds: seq<Command>)
    ensures |cmds| == |w|
  {
    seq(|w|, i requires 0 <= i < |w| => Manual(w[i]))
  }

  /** One `run_manual` per check of the worklist. */
  function ManualPass(w: seq<string>): (p: seq<Action>)
    ensures |p| == |w|
  {
    seq(|w|, i requires 0 <= i < |w| => Prove(Manual(w[i])))
  }

  /** The drift report, `make clean; make generate`, and the level-1 run. */
  const Middle := [DiffAll(false), Make("clean"), Make("generate"), Prove(CoqSession)]

  /** The full sweep, the summary, and the removal of shapes and backup files. */
  const Final := [Prove(FullSweep), Prove(Summary),
                  DeleteGlob("proof/sessions/*/why3shapes*"), DeleteGlob("proof/sessions/*/*.bak")]

  /** The actions of `kill_and_regenerate` for a worklist. */
  function Regeneration(w: seq<string>): seq<Action>
  {
    Cleanup + ManualPass(w) + Middle + ManualPass(w) + Final
  }

  /** `kill_and_regenerate(check)`: `None` when the worklist cannot be read,
      in which case nothing has been done. */
  function KillAndRegenerate(check: Option<string>, manualProof: Option<string>): Option<seq<Action>>
  {
    match Worklist(check, manualProof)
    case None => None
    case Some(w) => Some(Regeneration(w))
  }

  /** `kill_and_regenerate` step by step. */
  method KillAndRegenerateSteps(check: Option<string>, manualProof: Option<string>)
    returns (trace: Option<seq<Action>>)
    ensures trace == KillAndRegenerate(check, manualProof)
  {
    var w := BuildWorklist(check, manualProof);
    if w.None? {
      return None;
    }
    var list := w.value;
    var t := Cleanup;
    var k := 0;
    while k < |list|
      invariant 0 <= k <= |list|
      invariant t == Cleanup + ManualPass(list[..k])
    {
      t := t + [Prove(Manual(list[k]))];
      k := k + 1;
    }
    assert list[..k] == list;
    t := t + Middle;
    k := 0;
    while k < |list|
      invariant 0 <= k <= |list|
      invariant t == Cleanup + ManualPass(list) + Middle + ManualPass(list[..k])
    {
      t := t + [Prove(Manual(list[k]))];
      k := k + 1;
    }
    assert list[..k] == list;
    return Some(t + Final);
  }

  /** `choose_mode`: no argument reads the worklist from the file, one
      argument is the check, and with more arguments nothing happens. */
  function ChooseMode(argv: seq<string>, manualProof: Option<string>): Option<seq<Action>>
  {
    if |argv| == 1 then KillAndRegenerate(None, manualProof)
    else if |argv| == 2 then KillAndRegenerate(Some(argv[1]), manualProof)
    else Some([])
  }

  // ---------------------------------------------------------------------
  // Properties of the trace
  // ---------------------------------------------------------------------

  /** The command-builder calls of a trace, in order. */
  function Proofs(t: seq<Action>): (cmds: seq<Command>)
    ensures |cmds| <= |t|
  {
    if t == [] then [] else (if t[0].Prove? then [t[0].cmd] else []) + Proofs(t[1..])
  }

  lemma {:induction false} ProofsAppend(a: seq<Action>, b: seq<Action>)
    ensures Proofs(a + b) == Proofs(a) + Proofs(b)
  {
    if a != [] {
      assert (a + b)[1..] == a[1..] + b;
      ProofsAppend(a[1..], b);
    } else {
      assert a + b == b;
    }
  }

  lemma {:induction false} ProofsOfManualPass(w: seq<string>)
    ensures Proofs(ManualPass(w)) == ManualCommands(w)
  {
    if w != [] {
      assert ManualPass(w) == [Prove(Manual(w[0]))] + ManualPass(w[1..]);
      assert ManualCommands(w) == [Manual(w[0])] + ManualCommands(w[1..]);
      ProofsAppend([Prove(Manual(w[0]))], ManualPass(w[1..]));
      ProofsOfManualPass(w[1..]);
    }
  }

  lemma ProofsCons(a: Action, t: seq<Action>)
    ensures Proofs([a] + t) == (if a.Prove? then [a.cmd] else []) + Proofs(t)
  {
    assert ([a] + t)[1..] == t;
  }

  /** The fixed parts prove only the level-1 run, the sweep and the summary. */
  lemma ProofsOfFixedParts()
    ensures Proofs(Cleanup) == []
    ensures Proofs(Middle) == [CoqSession]
    ensures Proofs(Final) == [FullSweep, Summary]
  {
    ProofsCons(Cleanup[4], []);
    ProofsCons(Cleanup[3], Cleanup[4..]);
    ProofsCons(Cleanup[2], Cleanup[3..]);
    ProofsCons(Cleanup[1], Cleanup[2..]);
    ProofsCons(Cleanup[0], Cleanup[1..]);
    ProofsCons(Middle[3], []);
    ProofsCons(Middle[2], Middle[3..]);
    ProofsCons(Middle[1], Middle[2..]);
    ProofsCons(Middle[0], Middle[1..]);
    ProofsCons(Final[3], []);
    ProofsCons(Final[2], Final[3..]);
    ProofsCons(Final[1], Final[2..]);
    ProofsCons(Final[0], Final[1..]);
  }

  /** The proofs of a regeneration run: the manual pass, the level-1 run
      that records the Coq proofs, the manual pass again, the full sweep and
      the summary. */
  lemma RegenerationProofs(w: seq<string>)
    ensures Proofs(Regeneration(w)) ==
            ManualCommands(w) + [CoqSession] + ManualCommands(w) + [FullSweep, Summary]
  {
    var p := ManualPass(w);
    ProofsAppend(Cleanup + p + Middle + p, Final);
    ProofsAppend(Cleanup + p + Middle, p);
    ProofsAppend(Cleanup + p, Middle);
    ProofsAppend(Cleanup, p);
    ProofsOfManualPass(w);
    ProofsOfFixedParts();
  }

  /** The proving before `make generate`: the first manual pass. */
  lemma ProofsBeforeGenerate(w: seq<string>)
    ensures var g := |Cleanup| + |w| + 2;
            g <= |Regeneration(w)| && Proofs(Regeneration(w)[..g]) == ManualCommands(w)
  {
    var p := ManualPass(w);
    assert Regeneration(w)[..|Cleanup| + |w| + 2] == Cleanup + p + [DiffAll(false), Make("clean")];
    ProofsAppend(Cleanup + p, [DiffAll(false), Make("clean")]);
    ProofsAppend(Cleanup, p);
    ProofsOfManualPass(w);
    ProofsCons(Make("clean"), []);
    ProofsCons(DiffAll(false), [Make("clean")]);
    ProofsOfFixedParts();
  }

  /** The proving after `make generate`: the level-1 run, the second manual
      pass, the sweep and the summary. */
  lemma ProofsAfterGenerate(w: seq<string>)
    ensures var g := |Cleanup| + |w| + 2;
            g < |Regeneration(w)| &&
            Proofs(Regeneration(w)[g + 1..]) == [CoqSession] + ManualCommands(w) + [FullSweep, Summary]
  {
    var p := ManualPass(w);
    assert Regeneration(w)[|Cleanup| + |w| + 3..] == [Prove(CoqSession)] + p + Final;
    ProofsAppend([Prove(CoqSession)] + p, Final);
    ProofsAppend([Prove(CoqSession)], p);
    ProofsCons(Prove(CoqSession), []);
    ProofsOfManualPass(w);
    ProofsOfFixedParts();
  }

  /** The phase order: `make generate` comes right after a `make clean` and
      right before the level-1 run; the manual pass over the worklist is the
      only proving before it, and it is repeated after the level-1 run. */
  lemma RegenerationPhases(w: seq<string>)
    ensures var t := Regeneration(w); var g := |Cleanup| + |w| + 2;
            g + 1 < |t| &&
            t[g - 1] == Make("clean") && t[g] == Make("generate") && t[g + 1] == Prove(CoqSession) &&
            Proofs(t[..g]) == ManualCommands(w) &&
            Proofs(t[g + 1..]) == [CoqSession] + ManualCommands(w) + [FullSweep, Summary]
  {
    ProofsBeforeGenerate(w);
    ProofsAfterGenerate(w);
  }

  /** A manual pass only proves. */
  lemma ManualPassOnlyProves(w: seq<string>, a: Action)
    requires !a.Prove?
    ensures a !in ManualPass(w)
  {
  }

  /** `make generate` happens once. */
  lemma GenerateOnce(w: seq<string>)
    ensures var t := Regeneration(w); var g := |Cleanup| + |w| + 2;
            g < |t| && t[g] == Make("generate") &&
            Make("generate") !in t[..g] && Make("generate") !in t[g + 1..]
  {
    var t := Regeneration(w);
    var p := ManualPass(w);
    var d := |Cleanup| + |w|;
    ManualPassOnlyProves(w, Make("generate"));
    assert t[..d + 2] == Cleanup + p + Middle[..2];
    assert t[d + 3..] == Middle[3..] + p + Final;
  }

  /** `diff_all` runs once, with `False`: drift is reported and no context
      file is merged. */
  lemma DiffAllOnceWithoutMerge(w: seq<string>)
    ensures var t := Regeneration(w); var d := |Cleanup| + |w|;
            d < |t| && t[d] == DiffAll(false) &&
            DiffAll(false) !in t[..d] && DiffAll(false) !in t[d + 1..] && DiffAll(true) !in t
  {
    var t := Regeneration(w);
    var p := ManualPass(w);
    var d := |Cleanup| + |w|;
    ManualPassOnlyProves(w, DiffAll(false));
    ManualPassOnlyProves(w, DiffAll(true));
    assert t[..d] == Cleanup + p;
    assert t[d + 1..] == Middle[1..] + p + Final;
  }

  /** The run ends with the full sweep at timeout 100, the summary, and the
      removal of the shapes and backup files. */
  lemma RegenerationEnds(w: seq<string>)
    ensures var t := Regeneration(w);
            |t| >= 4 && t[|t| - 4..] == Final &&
            var ps := Proofs(t); |ps| >= 2 && ps[|ps| - 2..] == [FullSweep, Summary]
  {
    RegenerationProofs(w);
    var r := ManualCommands(w) + [CoqSession] + ManualCommands(w);
    assert (r + [FullSweep, Summary])[|r|..] == [FullSweep, Summary];
  }

  /** An empty `manual_proof.in` proves nothing by hand: only the level-1
      run, the sweep and the summary remain. */
  lemma EmptyWorklist(w: seq<string>)
    requires |w| == 0
    ensures Proofs(Regeneration(w)) == [CoqSession, FullSweep, Summary]
  {
    RegenerationProofs(w);
    assert ManualCommands(w) == [];
  }

  /** An empty `manual_proof.in` gives an empty worklist. */
  lemma EmptyFile()
    ensures Worklist(None, Some("")) == Some([])
  {
  }

  /** Each mode of `choose_mode`: the file is needed only without argument
      (or with an empty one), an argument is proved alone, and with more than
      one argument nothing is done. */
  lemma ChooseModeCases(argv: seq<string>, manualProof: Option<string>)
    ensures |argv| == 1 ==> (ChooseMode(argv, manualProof).None? <==> manualProof.None?)
    ensures |argv| == 2 && argv[1] != "" ==> ChooseMode(argv, manualProof) == Some(Regeneration([argv[1]]))
    ensures |argv| == 2 && argv[1] == "" ==> ChooseMode(argv, manualProof) == ChooseMode(argv[..1], manualProof)
    ensures |argv| != 1 && |argv| != 2 ==> ChooseMode(argv, manualProof) == Some([])
  {
  }

  /** The check ends the `run_manual` command line; a check read from the
      file therefore brings its `\n` into the command. */
  lemma RunManualEndsWithCheck(check: string)
    ensures EndsWith(CommandLine(Manual(check)), check)
  {
    var base := if ':' in check then Join(ManualFlags) + " " + "" + "--limit-line=" else Join(ManualFlags) + " " + "";
    assert RunManual(check) == base + check;
    assert (base + check)[|base + check| - |check|..] == check;
  }

  // ---------------------------------------------------------------------
  // File names
  // ---------------------------------------------------------------------

  /** What `os.path.join(a, b)` puts before a relative `b`. */
  function DirPrefix(a: string): (d: string)
    ensures d == [] || d[|d| - 1] == '/'
  {
    if a == [] || a[|a| - 1] == '/' then a else a + "/"
  }

  /** `os.path.join(a, b)` on POSIX. */
  function PathJoin(a: string, b: string): (p: string)
    ensures EndsWith(p, b)
  {
    if b != [] && b[0] == '/' then b else DirPrefix(a) + b
  }

  /** No directory separator in `name`, as for the names `os.walk` lists. */
  predicate SlashFree(name: string)
  {
    forall k :: 0 <= k < |name| ==> name[k] != '/'
  }

  /** The position after the last `/` of `p`, or 0. */
  function NameStart(p: string): (i: nat)
    ensures i <= |p|
  {
    if p == [] then 0 else if p[|p| - 1] == '/' then |p| else NameStart(p[..|p| - 1])
  }

  /** `os.path.basename(p)`. */
  function Basename(p: string): string
  {
    p[NameStart(p)..]
  }

  /** `s[:-n]` for a positive `n`: empty when `s` is not longer than `n`. */
  function DropLast(s: string, n: nat): (r: string)
    requires n > 0
    ensures |r| == if |s| >= n then |s| - n else 0
    ensures r == s[..|r|]
  {
    if |s| >= n then s[..|s| - n] else ""
  }

  /** The context file beside the `.v` file `name` of directory `root`. */
  function CtxPath(root: string, name: string): string
  {
    PathJoin(root, DropLast(name, 2) + ".ctx")
  }

  /** Where `diff_file` writes the drift of a context file. */
  function DiffPath(ctx: string): string
  {
    PathJoin("./temp", DropLast(Basename(ctx), 4) + ".diff")
  }

  lemma {:induction false} NameStartOfSlashFree(d: string, b: string)
    requires d == [] || d[|d| - 1] == '/'
    requires SlashFree(b)
    ensures NameStart(d + b) == |d|
    decreases |b|
  {
    if b != [] {
      var db := d + b;
      assert db[..|db| - 1] == d + b[..|b| - 1];
      NameStartOfSlashFree(d, b[..|b| - 1]);
    } else {
      assert d + b == d;
    }
  }

  /** The base name of a joined path is the joined name. */
  lemma BasenameOfJoin(root: string, name: string)
    requires SlashFree(name)
    ensures Basename(PathJoin(root, name)) == name
  {
    NameStartOfSlashFree(DirPrefix(root), name);
  }

  /** `foo.v` gives `foo.ctx` in the same directory and `./temp/foo.diff`,
      whatever the directory. */
  lemma NameChain(root: string, stem: string)
    requires SlashFree(stem)
    ensures CtxPath(root, stem + ".v") == PathJoin(root, stem + ".ctx")
    ensures DiffPath(CtxPath(root, stem + ".v")) == "./temp/" + stem + ".diff"
  {
    assert DropLast(stem + ".v", 2) == stem;
    var c := stem + ".ctx";
    assert SlashFree(c);
    BasenameOfJoin(root, c);
    assert DropLast(c, 4) == stem;
  }

  /** Two `.v` files of the same name in different directories report their
      drift into the same `.diff` file. */
  lemma DiffPathIgnoresDirectory(root1: string, root2: string, stem: string)
    requires SlashFree(stem)
    ensures DiffPath(CtxPath(root1, stem + ".v")) == DiffPath(CtxPath(root2, stem + ".v"))
  {
    NameChain(root1, stem);
    NameChain(root2, stem);
  }

  /** The context file sits beside the `.v` file: same path, `.ctx` in place
      of `.v`. */
  lemma CtxBesideV(root: string, name: string)
    requires SlashFree(name) && EndsWith(name, ".v")
    ensures EndsWith(PathJoin(root, name), ".v")
    ensures CtxPath(root, name) == DropLast(PathJoin(root, name), 2) + ".ctx"
  {
    var d := DirPrefix(root);
    var stem := DropLast(name, 2);
    assert PathJoin(root, name) == d + name;
    EndsWithAppend(d, name, ".v");
    assert (d + name)[..|d + name| - 2] == d + stem;
    assert stem + ".ctx" != [] && (stem + ".ctx")[0] != '/';
  }

  // ---------------------------------------------------------------------
  // The plan of `diff_all`
  // ---------------------------------------------------------------------

  /** A step of `diff_all` on one `.v` file: report the drift of its context
      file, and (only when regenerating) merge it into the context file. */
  datatype FileStep = DiffFile(ctx: string, v: string) | CopyFile(ctx: string, v: string)

  /** The steps for one file `name` of directory `root`. */
  function FileSteps(root: string, name: string, genCtx: bool): seq<FileStep>
  {
    if !EndsWith(name, ".v") then []
    else
      var ctx := CtxPath(root, name);
      var v := PathJoin(root, name);
      [DiffFile(ctx, v)] + (if genCtx then [CopyFile(ctx, v)] else [])
  }

  /** The steps of `diff_all` for the files of one directory. */
  function DirSteps(root: string, names: seq<string>, genCtx: bool): seq<FileStep>
  {
    if names == [] then [] else FileSteps(root, names[0], genCtx) + DirSteps(root, names[1..], genCtx)
  }

  /** The steps of `diff_all(genCtx)` over a walk of `./proof`, given as the
      directories it visits, each with the names of its files. */
  function DiffAllSteps(walk: seq<(string, seq<string>)>, genCtx: bool): seq<FileStep>
  {
    if walk == [] then [] else DirSteps(walk[0].0, walk[0].1, genCtx) + DiffAllSteps(walk[1..], genCtx)
  }

  /** A step concerns a `.v` file and the context file beside it, and it is
      a merge only when regenerating. */
  predicate GoodStep(s: FileStep, genCtx: bool)
  {
    EndsWith(s.v, ".v") && s.ctx == DropLast(s.v, 2) + ".ctx" && (s.CopyFile? ==> genCtx)
  }

  lemma FileStepsShape(root: string, name: string, genCtx: bool)
    requires SlashFree(name)
    ensures forall i :: 0 <= i < |FileSteps(root, name, genCtx)| ==> GoodStep(FileSteps(root, name, genCtx)[i], genCtx)
  {
    if EndsWith(name, ".v") {
      CtxBesideV(root, name);
    }
  }

  lemma {:induction false} DirStepsShape(root: string, names: seq<string>, genCtx: bool)
    requires forall j :: 0 <= j < |names| ==> SlashFree(names[j])
    ensures forall i :: 0 <= i < |DirSteps(root, names, genCtx)| ==> GoodStep(DirSteps(root, names, genCtx)[i], genCtx)
  {
    if names != [] {
      FileStepsShape(root, names[0], genCtx);
      DirStepsShape(root, names[1..], genCtx);
      var f := FileSteps(root, names[0], genCtx);
      var r := DirSteps(root, names[1..], genCtx);
      assert forall i :: 0 <= i < |r| ==> (f + r)[|f| + i] == r[i];
    }
  }

  /** What the walk leads `diff_all` to do: only `.v` files are visited, each
      with the context file beside it, and with `False` nothing is merged. */
  lemma {:induction false} DiffAllStepsShape(walk: seq<(string, seq<string>)>, genCtx: bool)
    requires forall d, j :: 0 <= d < |walk| && 0 <= j < |walk[d].1| ==> SlashFree(walk[d].1[j])
    ensures forall i :: 0 <= i < |DiffAllSteps(walk, genCtx)| ==> GoodStep(DiffAllSteps(walk, genCtx)[i], genCtx)
  {
    if walk != [] {
      DirStepsShape(walk[0].0, walk[0].1, genCtx);
      DiffAllStepsShape(walk[1..], genCtx);
      var d := DirSteps(walk[0].0, walk[0].1, genCtx);
      var r := DiffAllSteps(walk[1..], genCtx);
      assert forall i :: 0 <= i < |r| ==> (d + r)[|d| + i] == r[i];
    }
  }

  /** With `True`, every `.v` file is diffed and then merged into its context
      file, one file after the other. */
  lemma FileStepsRegenerate(root: string, name: string)
    requires EndsWith(name, ".v")
    ensures FileSteps(root, name, true) ==
            [DiffFile(CtxPath(root, name), PathJoin(root, name)), CopyFile(CtxPath(root, name), PathJoin(root, name))]
  {
  }
}
