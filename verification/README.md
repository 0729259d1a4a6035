# SPARKlib proof-session generator, modelled in Dafny

`generate_session.py` regenerates the Coq proof sessions of SPARKlib. It
copies the library sources to `src2` and rewrites every file so that bodies
marked `--  #BODYMODE` are analysed. Then it runs gnatprove in a fixed
sequence of phases:

- it cleans the previous sessions;
- it runs the manual Coq checks to create the Coq files;
- it reports drift between the generated `.v` scripts and the stored `.ctx`
  contexts;
- it regenerates;
- it re-runs the manual checks;
- it sweeps with the automatic provers;
- it summarises.

This project models the logic of that script:

- **Text** (`text.dfy`): ASCII whitespace (`\s` without Unicode), ASCII case
  folding, case-insensitive literals and maximal whitespace runs.
- **Merge** (`merge.dfy`): `copy_file`.
  - The new context is the `.v` script up to its first line starting with
    `intros`, then the old context from its first line starting with
    `intros` or `#`.
  - `Merge` is the take-while/drop-while specification.
  - `CopyHeader`/`AppendBody`/`MergeLines` are the two loops with the latch
    `b`, each proved equal to that specification.
- **BodyMode** (`body_mode.dfy`): `preprocess_sparklib_source_file`.
  - The two regular expressions are hand-written matchers over a pattern
    given as data (`Item`).
  - Rule A turns the `Off` of `SPARK_Mode => Off --  #BODYMODE` into `On`.
  - Rule B replaces a whole-line `pragma SPARK_Mode (Off); --  #BODYMODE` by
    its line terminator.
  - Lines keep their own terminator. `PreprocessLines` is the per-line loop.
- **Commands** (`commands.dfy`): `run_manual`, `run_automatic` and
  `run_options` as the exact command strings handed to the shell.
  - It keeps the glued `--output=oneline--prover=coq` word and the `option`
    written directly before the check.
  - `Words` is the shell's split of a command line into arguments, so the
    argument vector of each command can be stated.
- **Session** (`session.dfy`): `kill_and_regenerate` and `choose_mode` as a
  trace of abstract actions.
  - The worklist comes from the argument or from the lines of
    `manual_proof.in`.
  - The `.v` → `.ctx` → `.diff` name derivation is included.
  - `diff_all` is modelled as a plan of per-file steps.
- **Files** (`files.dfy`): a `Workspace` class whose `files` map, from path
  to lines, is updated in place.
  - `copy_file`'s temporary-file protocol.
  - Preprocessing of one file and of all copied files.

A Rule B line is replaced by `\r\n` or `\n` and by nothing else. A Rule B
line ending in a lone `\r` is therefore written as nothing, and its line break
disappears (`BodyMode.RewriteLineTerminator`). Line slots are kept only for
lines ending in `\n` or `\r\n` (`BodyMode.RewriteAllKeepsLineBreaks`).

## Model

| member | source | states |
|---|---|---|
| Merge.ScriptHeaderSpec | generate_session.py:55-60 | The copied script header is a prefix of the `.v` lines. None of its lines starts with `intros`, and it stops exactly at the first such line (or at the end). |
| Merge.ContextBodySpec | generate_session.py:61-66 | The kept context is a suffix of the old `.ctx` lines. No line before it starts with `intros` or `#`, and it starts with such a line unless it is empty. |
| Merge.ScriptHeaderAt | generate_session.py:55-60 | The header is the prefix up to any position that is the first `intros` line (uniqueness of the cut). |
| Merge.ContextBodyAt | generate_session.py:61-66 | The kept body is the suffix from any position that is the first `intros`/`#` line (uniqueness of the cut). |
| Merge.CopyHeader | generate_session.py:55-60 | The first loop, with its `break` on `line[:6] == "intros"`, writes exactly the script header. |
| Merge.AppendBody | generate_session.py:53-66 | The second loop with the latch `b`: `b` is set by the first `intros`/`#` line and never reset. What is appended is exactly the context from that line on. |
| Merge.MergeLines | generate_session.py:48-66 | The two loops together produce `Merge(ctx, v)`: the script header followed by the kept context. |
| Merge.ContextBodySkipsHeader | generate_session.py:61-66 | Lines that cannot start a body, put in front of a context, do not change what is kept of it. |
| Merge.MergeTwiceIsMerge | generate_session.py:55-66 | Merging the merged lines again with the same script is a fixed point when no header line starts with `#`. |
| Merge.MergeTwiceWithHashHeader | generate_session.py:57-66 | Without that proviso the second merge keeps the `#` header line twice (concrete witness). |
| Merge.MergeBoundaryExample | generate_session.py:55-66 | The script contributes what precedes its `intros`, the context what follows its own `intros` (concrete lines). |
| Merge.MergeEdgeCases | generate_session.py:55-66 | With no `intros` line all of `.v` is copied. With no `intros`/`#` line nothing of `.ctx` is kept. The result is never longer than both inputs together. |
| Merge.MergeColumnZeroAndHash | generate_session.py:57 | `intros` counts only in column 0, and a `#` line of the script does not stop the header. |
| Merge.NotBodyStart | generate_session.py:63 | A line whose first character is neither `i` nor `#` does not start the kept context. |
| BodyMode.MarkerBefore | generate_session.py:211 | The end-anchored marker `--  #BODYMODE` followed by trailing whitespace, read from the end of the line, lies inside the line. |
| BodyMode.EnableAt | generate_session.py:210-211 | A Rule A match starting at a position gives the position of its `Off`, inside the line with room for the three letters. |
| BodyMode.FindEnable | generate_session.py:210-232 | The leftmost Rule A match (the search of `re.subn`) gives an `Off` position at or after the search start, inside the line. |
| BodyMode.EnableAtTail | generate_session.py:210-211 | A Rule A match has `off` (any case) at its position, and the end-anchored marker starts right after it. |
| BodyMode.FindEnableTail | generate_session.py:210-232 | Likewise for the leftmost match found by the search. |
| BodyMode.FindEnableComplete | generate_session.py:210-232 | The search misses no match: when Rule A matches at any position from the search start on, the search finds a match, and the `Off` it finds is that match's. |
| BodyMode.RemoveTail | generate_session.py:217-219 | On a Rule B line the character before the whitespace preceding the marker is `;`. |
| BodyMode.RulesDisjoint | generate_session.py:210-220 | No line matches both rules, so at most one rule fires per line. |
| BodyMode.RuleAEdit | generate_session.py:232-238 | Rule A changes only the `Off` token (any case) into `On`. The text before it (with the `=>` spacing) and everything after it (marker, trailing whitespace, terminator) are kept. |
| BodyMode.RuleBEdit | generate_session.py:242-253 | A Rule B line is written as `\r\n` if it ends so, as `\n` if it ends so, and as nothing otherwise. |
| BodyMode.AspectFound | generate_session.py:210-237 | In any line where `SPARK_Mode => Off --  #BODYMODE` is written and only whitespace follows it, Rule A fires and the line is written with `On` in place of that `Off`. |
| BodyMode.RuleAFires | generate_session.py:210-238 | Every line made of any text, `SPARK_Mode => Off --  #BODYMODE` and trailing whitespace (such as its line break) is written as the same text with `On`, and nothing else changed. |
| BodyMode.PragmaFound | generate_session.py:217-243 | A line made of leading whitespace, `pragma SPARK_Mode (Off); --  #BODYMODE` and trailing whitespace matches Rule B. |
| BodyMode.RuleBFires | generate_session.py:217-253 | Such a pragma line ending in `\n` or `\r\n` matches Rule B and is written as that line break alone. |
| BodyMode.AllWsHasNoMarker | generate_session.py:210-220 | A line of whitespace only (such as what Rule B writes) matches neither rule. |
| BodyMode.MarkerAfterEdit | generate_session.py:232 | After Rule A's edit, the end-anchored marker is found right after `On`. |
| BodyMode.NeitherRuleAfterN | generate_session.py:210-220 | A line whose marker follows an `n` matches neither rule; both rules need `f` or `;` there. |
| BodyMode.EnabledLineIsStable | generate_session.py:210-238 | The output of Rule A matches neither rule. |
| BodyMode.RewriteLineIdempotent | generate_session.py:227-257 | Rewriting a rewritten line changes nothing. |
| BodyMode.TerminatorOfSuffix | generate_session.py:244-249 | The terminator of a line is decided by its last two characters. |
| BodyMode.RewriteLineTerminator | generate_session.py:232-257 | Every line keeps its terminator, except that a Rule B line ending in a lone `\r` is written as the empty string. |
| BodyMode.PreprocessLines | generate_session.py:225-257 | The loop's output has one entry per input line, each the rewrite of that line (`RewriteLine`: Rule A, else Rule B, else unchanged); `RewriteAll` names that list as the file's rewrite. |
| BodyMode.RewriteAllIdempotent | generate_session.py:225-257 | Running the preprocessing (`RewriteAll`, the line-by-line rewrite) on its own output changes nothing. |
| BodyMode.RewriteAllKeepsLineBreaks | generate_session.py:244-249 | In the file's rewrite (`RewriteAll`) every line ending in `\n` or `\r\n` is written with the same terminator, so such files keep their line count and numbering. |
| Commands.NatToString | generate_session.py:36-39 | The f-string rendering of a level or timeout is a non-empty digit string, starting with `0` only for 0. |
| Commands.NatToStringRoundTrip | generate_session.py:36-39 | The digits read back give the number. |
| Commands.NatToStringInjective | generate_session.py:36-39 | Different levels or timeouts give different strings. |
| Commands.WordsOfJoinThen | generate_session.py:13-16 | The shell splits words joined by single spaces, followed by a separator-led rest, back into those words and the words of the rest. |
| Commands.WordsOfJoin | generate_session.py:13-16 | Splitting undoes joining for words without separators. |
| Commands.JoinAppend | generate_session.py:34-39 | Building a command from two runs of words joins each and puts one space between them. |
| Commands.ManualFlagsAreWords | generate_session.py:23-25 | The fixed part of `run_manual` consists of separator-free words, including the glued `--output=oneline--prover=coq`. |
| Commands.AutomaticFlagsAreWords | generate_session.py:34-36 | The fixed part of `run_automatic` consists of separator-free words. |
| Commands.OptionsFlagsAreWords | generate_session.py:44 | The fixed part of `run_options` consists of separator-free words. |
| Commands.ManualWords | generate_session.py:22-30 | The arguments of `run_manual` are the fixed flags and one more argument. That argument is `option` glued to `--limit-line=<check>` exactly when the check contains `:`, and to the bare check otherwise. |
| Commands.RunManualShape | generate_session.py:22-30 | The `run_manual` command is the fixed flags, one space, and `option` glued to the check's argument (`CheckArg`: `--limit-line=<check>` exactly when the check contains `:`). |
| Commands.ManualLead | generate_session.py:22-30 | For any check and option, the arguments of `run_manual` are the fixed flags followed by the words of `option` glued to the check's argument. |
| Commands.CheckArgNewline | generate_session.py:27-30 | The `\n` of a check read from the file stays at the end of its argument. |
| Commands.FileCheckWords | generate_session.py:27-30 | For a check read from the file, what follows the fixed flags is one word, the line break dropped. |
| Commands.ManualWordsFromFile | generate_session.py:22-30 | For a check read from `manual_proof.in` (ending in `\n`), the arguments of `run_manual` are the fixed flags and the same one argument as for the bare check. |
| Commands.RunAutomaticShape | generate_session.py:33-40 | The `run_automatic` command is the fixed flags, one space, and the prover, level and optional timeout arguments joined by single spaces. |
| Commands.AutomaticLead | generate_session.py:33-40 | For any prover list, level and timeout, the arguments of `run_automatic` are the fixed flags followed by the words of the rest. |
| Commands.AutomaticWords | generate_session.py:33-40 | The arguments of `run_automatic` always include `--counterexamples=off`, `--prover=` and `--level=`, and include `--timeout=` exactly when a timeout is given. |
| Commands.AutomaticDefaults | generate_session.py:33-40 | By default the level is 4 and there is no timeout argument. |
| Commands.OptionsWords | generate_session.py:43-45 | The arguments of `run_options` are the fixed flags followed by the words of `opt`. |
| Commands.CommandsNameProject | generate_session.py:19-45 | Whatever their arguments, the three commands start with their fixed flags: `gnatprove` first and `sparklib_gen.gpr` right after `-P`. |
| Session.LinesOfSpec | generate_session.py:130-132 | Iterating a file yields lines whose concatenation is the file. Each line is non-empty, ends with its only `\n`, and only the last may lack it. |
| Session.BuildWorklist | generate_session.py:126-132 | The loop that fills `list_of_check` yields the worklist specification (argument, or file lines, or abort). |
| Session.WorklistSpec | generate_session.py:126-132 | A truthy check is the worklist alone. Otherwise the run aborts exactly when `manual_proof.in` is missing, and the worklist is the file's text cut after each `\n`, each check keeping its `\n`. |
| Session.KillAndRegenerateSteps | generate_session.py:125-187 | Building the trace step by step gives `KillAndRegenerate`: cleanup, manual pass, drift report, clean, generate, level-1 run, manual pass, sweep, summary, deletions; or nothing when the worklist cannot be read. |
| Session.ProofsAppend | generate_session.py:125-187 | The proving calls of two trace segments are those of each, in order. |
| Session.ProofsOfManualPass | generate_session.py:153-154 | A manual pass (`ManualPass`, one `Prove` action per worklist entry) proves exactly the worklist in order: one `run_manual` per entry (`ManualCommands`). |
| Session.ProofsCons | generate_session.py:125-187 | An action followed by a trace proves what the action proves and then what the trace proves. |
| Session.ProofsOfFixedParts | generate_session.py:137-187 | The fixed phases prove only the level-1 run, the sweep at timeout 100 and the summary. |
| Session.RegenerationProofs | generate_session.py:153-181 | The proving calls of a run: manual pass, `run_automatic("cvc5", level=1)`, manual pass again, full sweep with timeout 100, `run_options`. |
| Session.ProofsBeforeGenerate | generate_session.py:153-164 | Before `make generate` the only proving is the first manual pass. |
| Session.ProofsAfterGenerate | generate_session.py:163-181 | After `make generate` come the level-1 run, the second manual pass, the sweep and the summary. |
| Session.RegenerationPhases | generate_session.py:153-170 | `make generate` comes right after `make clean` and right before the level-1 run. The manual pass is repeated on both sides of it. |
| Session.ManualPassOnlyProves | generate_session.py:153-154 | A manual pass (`ManualPass`) contains no action other than proving. |
| Session.GenerateOnce | generate_session.py:163-164 | `make generate` happens exactly once. |
| Session.DiffAllOnceWithoutMerge | generate_session.py:157 | `diff_all` runs exactly once and with `False`; `diff_all(True)` never runs. |
| Session.RegenerationEnds | generate_session.py:176-187 | The trace ends with the full sweep, the summary and the two deletions; the last two proving calls are the sweep and the summary. |
| Session.EmptyWorklist | generate_session.py:153-181 | With an empty worklist, only the level-1 run, the sweep and the summary are proved. |
| Session.EmptyFile | generate_session.py:130-132 | An empty `manual_proof.in` gives an empty worklist. |
| Session.ChooseModeCases | generate_session.py:190-195 | With no argument the run aborts exactly when the file is missing. A non-empty argument is proved alone. An empty argument behaves like none. With more arguments nothing happens. |
| Session.RunManualEndsWithCheck | generate_session.py:27-30 | The check ends the `run_manual` command, so a check read from the file brings its `\n` into the command. |
| Session.DirPrefix | generate_session.py:101-118 | What `os.path.join` puts before a relative name is empty or ends with `/`. |
| Session.PathJoin | generate_session.py:101-118 | A joined path ends with the joined name. |
| Session.DropLast | generate_session.py:101-118 | `s[:-n]` is the prefix of `s` that is `n` shorter, or empty. |
| Session.BasenameOfJoin | generate_session.py:101 | The base name of a directory joined with a name without `/` is that name. |
| Session.NameChain | generate_session.py:101-118 | `foo.v` gives `foo.ctx` in the same directory, and `./temp/foo.diff` whatever the directory. |
| Session.DiffPathIgnoresDirectory | generate_session.py:101-103 | Two `.v` files of the same name in different directories write their drift into the same `.diff` file. |
| Session.CtxBesideV | generate_session.py:117-119 | The context file is the `.v` path with `.ctx` in place of `.v`. |
| Session.FileStepsShape | generate_session.py:116-122 | Each step for a file concerns a `.v` file and the context beside it, and merges only when `gen_ctx` is set. |
| Session.DirStepsShape | generate_session.py:116-122 | The same for all the files of a directory. |
| Session.DiffAllStepsShape | generate_session.py:115-122 | The same for the whole walk of `./proof`; with `False` every step is a diff and none a merge. |
| Session.FileStepsRegenerate | generate_session.py:117-122 | With `True` every `.v` file is diffed and then merged into its context. |
| Session.LineLenOfLine | generate_session.py:130-132 | The first line read from a text that starts with a whole line is that line. |
| Session.ConcatLinesOf | generate_session.py:130-132 | Writing whole lines and reading the file back gives the same lines. |
| Files.MergeReReadIsMerge | generate_session.py:48-69 | When every merged line is a whole line, merging the context file again after it is written and read back gives the same file. |
| Files.ReReadGluesHeader | generate_session.py:48-69 | A one-line script header without a line break is glued to the kept `intros` line when the file is read back, and a second merge then drops the kept context. |
| Files.TempName | generate_session.py:52 | The temporary file is never the context file itself. |
| Files.Workspace.CopyFile | generate_session.py:48-69 | The temporary file is emptied before the script is read. A missing script leaves it empty. A missing context leaves it holding the header. Otherwise the context file holds the merge and the temporary file is gone; no other file changes. |
| Files.Workspace.Preprocess | generate_session.py:222-267 | A present file is replaced by its rewrite; a missing file ends with nothing changed. |
| Files.Workspace.PreprocessAll | generate_session.py:289-291 | Every listed path that is a file is rewritten and every other path (a directory) is skipped: the files become `Preprocessed(old files, paths)`, that is exactly the listed files rewritten once and the others unchanged. |
| Files.ProcessedStep | generate_session.py:289-291 | Rewriting one more file, even a second time, keeps "exactly the listed files rewritten once". |
| Files.PreprocessedKeys | generate_session.py:289-291 | Preprocessing creates and removes no file. |
| Files.PreprocessedSpec | generate_session.py:289-291 | After preprocessing a list, each listed file is rewritten once in effect, whatever the repetitions, and the others are unchanged. |

## Left out

- `run`: echoing a command and `os.system` (lines 13-16). Commands are returned as strings, and in the trace they are `Prove` actions.
- `print` output: the banners of `kill_and_regenerate` and the deletion messages.
- `diff_file` drift detection (lines 72-105), because it depends on `difflib.unified_diff`. Only its output name (line 101) is modelled.
  - Its normalisation `str(filter(...))` yields the filter object's text, not the stripped line. This is not modelled either.
- `shutil.rmtree`, `os.makedirs`, the environment variable and the glob deletions (137-143, 182-187). These are abstract trace actions, with no file-system effect.
  - `RemoveTree` stands for "remove if the directory exists".
- Writing `sparklib_gen.gpr`, copying `src` to `src2`, and the cleanup in `finally` (270-297). The recursive listing of `src2`, directories included, is taken as the `paths` given to `PreprocessAll`; a directory is a path that is not in `files`.
- The random name of the `tempfile.mkstemp` file and the move over the source file (222, 260). The rewritten lines replace the file directly.
- The exception handlers that print and call `sys.exit(1)` (262-267). A missing file is `ok == false`, or `None` for a missing `manual_proof.in`.
- Splitting a source file into lines with `newline=""` (on `\n`, `\r\n` and `\r`). Files are given as lines that keep their terminators.
  - For `manual_proof.in` the split is modelled (`Session.LinesOf`), on text whose line endings Python has already translated to `\n`.
- Python's Unicode `\s` and its non-ASCII case folding in `re.IGNORECASE`. `\s` is ASCII whitespace, and folding is ASCII folding.
- The order in which `os.walk` visits directories and files. It is an input of `DiffAllSteps`.
- Commands.ManualWords: states the exact arguments only for a check and an option without blanks, tabs or newlines (with a final `\n` in `ManualWordsFromFile`). For other checks only the fixed flags are stated (`ManualLead`, `CommandsNameProject`).
  - `Session.RunManualEndsWithCheck` states where the `\n` of a check read from the file goes.
- Merge.MergeTwiceIsMerge: is a statement on line sequences. On the file, it holds when every merged line is a whole line (`Files.MergeReReadIsMerge`), and not otherwise (`Files.ReReadGluesHeader`).
- Commands.Words: models the shell's splitting on blanks, tabs and newlines only. Quoting and other shell metacharacters do not occur in these commands.
- Negative levels and timeouts: they are `nat`, since the script passes only 1, 4 and 100.
