/** The in-place replacements the script makes on files: the merge of a
    context file (`copy_file`) through a temporary file, and the rewriting of
    the copied library sources (`preprocess_sparklib_source_file`).  A file
    system is a map from path to the lines of the file. */
module Files {
  import opened Merge
  import opened BodyMode
  import Session

  /** The temporary file `copy_file` builds beside the context file. */
  function TempName(ctx: string): (temp: string)
    ensures temp != ctx
  {
    ctx + "___tmp.tmp"
  }

  /** Merging the context file again, after it has been written and read
      back, is still a fixed point when every merged line is a whole line. */
  lemma MergeReReadIsMerge(ctx: seq<string>, v: seq<string>)
    requires forall k :: 0 <= k < |ScriptHeader(v)| ==> !StartsWithHash(ScriptHeader(v)[k])
    requires var m := Merge.Merge(ctx, v);
             forall i :: 0 <= i < |m| ==> Session.LineShaped(m[i], i == |m| - 1)
    ensures Merge.Merge(Session.LinesOf(Session.Concat(Merge.Merge(ctx, v))), v) == Merge.Merge(ctx, v)
  {
    Session.ConcatLinesOf(Merge.Merge(ctx, v));
    MergeTwiceIsMerge(ctx, v);
  }

  /** Without whole lines it is not: a one-line script header `h` without
      line break, merged with a context whose body is one `intros` line, is
      glued to that line when the file is read back, and the second merge
      then drops the kept context. */
  lemma ReReadGluesHeader(h: string, body: string)
    requires h != [] && h[0] != 'i' && h[0] != '#'
    requires forall k :: 0 <= k < |h| ==> h[k] != '\n'
    requires IsIntros(body) && Session.LineShaped(body, false)
    ensures Merge.Merge([body], [h]) == [h, body]
    ensures Session.LinesOf(Session.Concat(Merge.Merge([body], [h]))) == [h + body]
    ensures Merge.Merge([h + body], [h]) == [h]
  {
    NotBodyStart(h);
    NotBodyStart(h + body);
    assert (h + body)[0] == h[0];
    assert ScriptHeader([h]) == [h] by {
      assert [h][1..] == [];
    }
    assert ContextBody([body]) == [body];
    assert ContextBody([h + body]) == [] by {
      assert [h + body][1..] == [];
    }
    assert Session.Concat([body]) == body by {
      assert [body][1..] == [];
      assert body + "" == body;
    }
    assert Session.Concat([h, body]) == h + body by {
      assert [h, body][1..] == [body];
    }
    assert Session.LineShaped(h + body, true) by {
      assert forall k :: 0 <= k < |h + body| - 1 ==> (h + body)[k] == (if k < |h| then h[k] else body[k - |h|]);
    }
    Session.ConcatLinesOf([h + body]);
    assert Session.Concat([h + body]) == h + body by {
      assert [h + body][1..] == [];
      assert h + body + "" == h + body;
    }
  }

  /** `files` is `before` with exactly the files of `done` rewritten. */
  predicate Processed(before: map<string, seq<string>>, files: map<string, seq<string>>, done: seq<string>)
  {
    files.Keys == before.Keys &&
    forall p :: p in files ==> files[p] == if p in done then RewriteAll(before[p]) else before[p]
  }

  /** Rewriting one more file, possibly one rewritten already, keeps that
      relation. */
  lemma ProcessedStep(before: map<string, seq<string>>, files: map<string, seq<string>>, done: seq<string>, q: string)
    requires Processed(before, files, done) && q in files
    ensures Processed(before, files[q := RewriteAll(files[q])], done + [q])
  {
    if q in done {
      RewriteAllIdempotent(before[q]);
    }
    var after := files[q := RewriteAll(files[q])];
    forall p | p in after
      ensures after[p] == if p in done + [q] then RewriteAll(before[p]) else before[p]
    {
      assert (p in done + [q]) == (p in done || p == q);
    }
  }

  /** The files after preprocessing the listed paths one after the other;
      a path that is not a file is skipped. */
  function Preprocessed(m: map<string, seq<string>>, paths: seq<string>): map<string, seq<string>>
  {
    if paths == [] then m
    else
      var prev := Preprocessed(m, paths[..|paths| - 1]);
      var q := paths[|paths| - 1];
      if q in prev then prev[q := RewriteAll(prev[q])] else prev
  }

  lemma {:induction false} PreprocessedKeys(m: map<string, seq<string>>, paths: seq<string>)
    ensures Preprocessed(m, paths).Keys == m.Keys
  {
    if paths != [] {
      PreprocessedKeys(m, paths[..|paths| - 1]);
    }
  }

  /** Preprocessing a list of files rewrites each listed file once in
      effect, whatever the repetitions, and leaves the other files alone. */
  lemma {:induction false} PreprocessedSpec(m: map<string, seq<string>>, paths: seq<string>)
    ensures Processed(m, Preprocessed(m, paths), paths)
  {
    if paths == [] {
    } else {
      var init := paths[..|paths| - 1];
      var q := paths[|paths| - 1];
      PreprocessedSpec(m, init);
      assert paths == init + [q];
      if q in Preprocessed(m, init) {
        ProcessedStep(m, Preprocessed(m, init), init, q);
      } else {
        assert q !in m;
        var r := Preprocessed(m, paths);
        forall p | p in r
          ensures r[p] == if p in paths then RewriteAll(m[p]) else m[p]
        {
          assert (p in paths) == (p in init || p == q);
        }
      }
    }
  }

  class Workspace {
    var files: map<string, seq<string>>

    constructor(initial: map<string, seq<string>>)
      ensures files == initial
    {
      files := initial;
    }

    /** `copy_file(ctx, v)`.  The temporary file is opened for writing (so
        emptied) before the script is read, so a script that is the
        temporary file itself reads as empty.  A missing script leaves the
        empty temporary file behind; a missing context file leaves it
        holding the copied header; otherwise the context file is replaced
        by the merge and the temporary file is gone. */
    method CopyFile(ctx: string, v: string) returns (ok: bool)
      modifies this
      ensures var temp := TempName(ctx);
              var found := v in old(files) || v == temp;
              var script := if v == temp then [] else if v in old(files) then old(files)[v] else [];
              (ok <==> found && ctx in old(files)) &&
              (!found ==> files == old(files)[temp := []]) &&
              (found && ctx !in old(files) ==> files == old(files)[temp := ScriptHeader(script)]) &&
              (ok ==> files == (old(files) - {temp})[ctx := Merge.Merge(old(files)[ctx], script)])
    {
      var temp := TempName(ctx);
      files := files[temp := []];
      if v !in files {
        return false;
      }
      var header := CopyHeader(files[v]);
      files := files[temp := header];
      if ctx !in files {
        return false;
      }
      var merged := AppendBody(header, files[ctx]);
      files := files[temp := merged];
      files := files - {ctx};
      files := (files - {temp})[ctx := files[temp]];
      return true;
    }

    /** `preprocess_sparklib_source_file(path)`: the file's lines are
        rewritten one by one and the result replaces the file; a missing
        file ends the run with nothing changed. */
    method Preprocess(path: string) returns (ok: bool)
      modifies this
      ensures ok <==> path in old(files)
      ensures ok ==> files == old(files)[path := RewriteAll(old(files)[path])]
      ensures !ok ==> files == old(files)
    {
      if path !in files {
        return false;
      }
      var out := PreprocessLines(files[path]);
      assert out == RewriteAll(files[path]);
      files := files[path := out];
      return true;
    }

    /** The preprocessing of the listing of the copied sources: every path
        that names a file is rewritten, any other path (a directory) is
        skipped. */
    method PreprocessAll(paths: seq<string>)
      modifies this
      ensures files == Preprocessed(old(files), paths)
      ensures Processed(old(files), files, paths)
    {
      ghost var before := files;
      var i := 0;
      while i < |paths|
        invariant 0 <= i <= |paths|
        invariant files == Preprocessed(before, paths[..i])
      {
        var p := paths[i];
        assert paths[..i + 1][..i] == paths[..i];
        if p in files {
          var _ := Preprocess(p);
        }
        i := i + 1;
      }
      assert paths[..i] == paths;
      PreprocessedSpec(before, paths);
    }
  }
}
