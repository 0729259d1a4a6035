/** The context/script merge (`copy_file`): the new `.ctx` file is the
    generated `.v` script up to its first `intros` line, followed by the old
    `.ctx` file from its first `intros` or `#` line onwards.  Lines are
    strings that keep their own terminator, as Python's line iteration
    yields them. */
module Merge {

  /** `line[:6] == "intros"`: the tactic starts in column 0. */
  predicate IsIntros(line: string)
  {
    |line| >= 6 && line[..6] == "intros"
  }

  /** `line[:1] == "#"`. */
  predicate StartsWithHash(line: string)
  {
    |line| >= 1 && line[..1] == "#"
  }

  /** A line from which the old context file is kept. */
  predicate IsBodyStart(line: string)
  {
    IsIntros(line) || StartsWithHash(line)
  }

  /** The lines of the `.v` script before its first `intros` line
      (a take-while). */
  function ScriptHeader(v: seq<string>): (h: seq<string>)
  {
    if v == [] || IsIntros(v[0]) then [] else [v[0]] + ScriptHeader(v[1..])
  }

  /** The lines of the old `.ctx` file from its first `intros` or `#` line to
      the end (a drop-while). */
  function ContextBody(ctx: seq<string>): (b: seq<string>)
  {
    if ctx == [] || IsBodyStart(ctx[0]) then ctx else ContextBody(ctx[1..])
  }

  /** The header is a prefix of the script that contains no `intros` line
      and stops at the first one, if any. */
  lemma {:induction false} ScriptHeaderSpec(v: seq<string>)
    ensures |ScriptHeader(v)| <= |v| && ScriptHeader(v) == v[..|ScriptHeader(v)|]
    ensures forall k :: 0 <= k < |ScriptHeader(v)| ==> !IsIntros(v[k])
    ensures |ScriptHeader(v)| == |v| || IsIntros(v[|ScriptHeader(v)|])
  {
    if v != [] && !IsIntros(v[0]) {
      ScriptHeaderSpec(v[1..]);
    }
  }

  /** The kept body is a suffix of the context, no line before it is a
      boundary, and it starts with one unless it is empty. */
  lemma {:induction false} ContextBodySpec(ctx: seq<string>)
    ensures |ContextBody(ctx)| <= |ctx| && ContextBody(ctx) == ctx[|ctx| - |ContextBody(ctx)|..]
    ensures forall k :: 0 <= k < |ctx| - |ContextBody(ctx)| ==> !IsBodyStart(ctx[k])
    ensures ContextBody(ctx) == [] || IsBodyStart(ContextBody(ctx)[0])
  {
    if ctx != [] && !IsBodyStart(ctx[0]) {
      ContextBodySpec(ctx[1..]);
    }
  }

  /** The content of the `.ctx` file after the merge. */
  function Merge(ctx: seq<string>, v: seq<string>): seq<string>
  {
    ScriptHeader(v) + ContextBody(ctx)
  }

  /** A line whose first character is neither `i` nor `#` is not a boundary. */
  lemma NotBodyStart(line: string)
    requires |line| > 0 && line[0] != 'i' && line[0] != '#'
    ensures !IsBodyStart(line)
  {
    if |line| >= 6 {
      assert line[..6][0] != "intros"[0];
    }
    assert line[..1][0] != "#"[0];
  }

  /** The header is the prefix of the script up to its first `intros` line. */
  lemma {:induction false} ScriptHeaderAt(v: seq<string>, i: nat)
    requires i <= |v|
    requires forall k :: 0 <= k < i ==> !IsIntros(v[k])
    requires i == |v| || IsIntros(v[i])
    ensures ScriptHeader(v) == v[..i]
  {
    if i > 0 {
      assert !IsIntros(v[0]);
      ScriptHeaderAt(v[1..], i - 1);
      assert v[..i] == [v[0]] + v[1..][..i - 1];
    }
  }

  /** The kept body is the suffix of the context from its first boundary line. */
  lemma {:induction false} ContextBodyAt(ctx: seq<string>, start: nat)
    requires start <= |ctx|
    requires forall k :: 0 <= k < start ==> !IsBodyStart(ctx[k])
    requires start == |ctx| || IsBodyStart(ctx[start])
    ensures ContextBody(ctx) == ctx[start..]
  {
    if start > 0 {
      assert !IsBodyStart(ctx[0]);
      ContextBodyAt(ctx[1..], start - 1);
      assert ctx[1..][start - 1..] == ctx[start..];
    }
  }

  /** The first loop of `copy_file`: the script is copied until its first
      `intros` line. */
  method CopyHeader(v: seq<string>) returns (out: seq<string>)
    ensures out == ScriptHeader(v)
  {
    out := [];
    var i := 0;
    while i < |v|
      invariant 0 <= i <= |v|
      invariant out == v[..i]
      invariant forall k :: 0 <= k < i ==> !IsIntros(v[k])
    {
      if IsIntros(v[i]) {
        break;
      }
      out := out + [v[i]];
      i := i + 1;
    }
    ScriptHeaderAt(v, i);
  }

  /** The second loop of `copy_file`: the latch `b` is set by the first
      `intros` or `#` line of the context and never reset, and every line
      from there on is appended to what has been written. */
  method AppendBody(written: seq<string>, ctx: seq<string>) returns (out: seq<string>)
    ensures out == written + ContextBody(ctx)
  {
    out := written;
    var b := false;
    ghost var start := 0;
    var j := 0;
    while j < |ctx|
      invariant 0 <= j <= |ctx|
      invariant !b ==> out == written && forall k :: 0 <= k < j ==> !IsBodyStart(ctx[k])
      invariant b ==> start < j && IsBodyStart(ctx[start]) && out == written + ctx[start..j]
      invariant b ==> forall k :: 0 <= k < start ==> !IsBodyStart(ctx[k])
    {
      var line := ctx[j];
      if IsBodyStart(line) {
        if !b {
          start := j;
        }
        b := true;
      }
      if b {
        out := out + [line];
      }
      j := j + 1;
    }
    if b {
      ContextBodyAt(ctx, start);
    } else {
      ContextBodyAt(ctx, |ctx|);
    }
  }

  /** The two loops of `copy_file` together: the content that replaces the
      `.ctx` file. */
  method MergeLines(ctx: seq<string>, v: seq<string>) returns (out: seq<string>)
    ensures out == Merge(ctx, v)
  {
    out := CopyHeader(v);
    out := AppendBody(out, ctx);
  }

  /** No line that the merge keeps from the script can start a body. */
  lemma {:induction false} ContextBodySkipsHeader(h: seq<string>, rest: seq<string>)
    requires forall k :: 0 <= k < |h| ==> !IsBodyStart(h[k])
    ensures ContextBody(h + rest) == ContextBody(rest)
  {
    if h != [] {
      assert (h + rest)[0] == h[0];
      assert !IsBodyStart(h[0]);
      assert ContextBody(h + rest) == ContextBody((h + rest)[1..]);
      assert (h + rest)[1..] == h[1..] + rest;
      ContextBodySkipsHeader(h[1..], rest);
    } else {
      assert h + rest == rest;
    }
  }

  /** Merging again with the same script is a fixed point, as long as no line
      of the script's header starts with `#`. */
  lemma MergeTwiceIsMerge(ctx: seq<string>, v: seq<string>)
    requires forall k :: 0 <= k < |ScriptHeader(v)| ==> !StartsWithHash(ScriptHeader(v)[k])
    ensures Merge(Merge(ctx, v), v) == Merge(ctx, v)
  {
    var h := ScriptHeader(v);
    ScriptHeaderSpec(v);
    ContextBodySpec(ctx);
    ContextBodySkipsHeader(h, ContextBody(ctx));
    var b := ContextBody(ctx);
    if b != [] {
      assert ContextBody(b) == b;
    }
  }

  /** Without that proviso the second merge restarts the kept context inside
      the copied header, so the header appears twice. */
  lemma MergeTwiceWithHashHeader()
    ensures Merge(["intros y.\n"], ["# c\n", "intros x.\n"]) == ["# c\n", "intros y.\n"]
    ensures Merge(Merge(["intros y.\n"], ["# c\n", "intros x.\n"]), ["# c\n", "intros x.\n"])
            == ["# c\n", "# c\n", "intros y.\n"]
  {
    var v := ["# c\n", "intros x.\n"];
    assert !IsIntros(v[0]) && IsIntros(v[1]);
    assert StartsWithHash(v[0]);
    assert v[1..][1..] == [];
    assert ScriptHeader(v) == ["# c\n"];
  }

  /** The boundary example: the script contributes what
      precedes its own `intros`, the context what follows its own. */
  lemma MergeBoundaryExample()
    ensures Merge(["old1", "intros y.", "tacA."], ["decl1", "decl2", "intros x.", "tac1."])
            == ["decl1", "decl2", "intros y.", "tacA."]
  {
    var v := ["decl1", "decl2", "intros x.", "tac1."];
    var ctx := ["old1", "intros y.", "tacA."];
    assert !IsIntros(v[0]) && !IsIntros(v[1]) && IsIntros(v[2]);
    assert v[1..][1..] == v[2..];
    assert ScriptHeader(v) == ["decl1", "decl2"];
    NotBodyStart(ctx[0]);
    assert IsBodyStart(ctx[1]);
    assert ContextBody(ctx) == ctx[1..];
  }

  /** Edge cases of the merge: with no `intros` line the whole script is
      copied; with no `intros`/`#` line nothing of the context is kept; the
      result is never longer than the two inputs together. */
  lemma MergeEdgeCases(ctx: seq<string>, v: seq<string>)
    ensures (forall k :: 0 <= k < |v| ==> !IsIntros(v[k])) ==> Merge(ctx, v) == v + ContextBody(ctx)
    ensures (forall k :: 0 <= k < |ctx| ==> !IsBodyStart(ctx[k])) ==> Merge(ctx, v) == ScriptHeader(v)
    ensures |Merge(ctx, v)| <= |ctx| + |v|
  {
    ScriptHeaderSpec(v);
    ContextBodySpec(ctx);
    if forall k :: 0 <= k < |v| ==> !IsIntros(v[k]) {
      ScriptHeaderAt(v, |v|);
    }
    if forall k :: 0 <= k < |ctx| ==> !IsBodyStart(ctx[k]) {
      ContextBodyAt(ctx, |ctx|);
    }
  }

  /** `intros` counts only in column 0, and a `#` line in the script does not
      end the copied header. */
  lemma MergeColumnZeroAndHash()
    ensures ScriptHeader(["  intros x.\n", "# note\n", "intros y.\n"]) == ["  intros x.\n", "# note\n"]
  {
    var v := ["  intros x.\n", "# note\n", "intros y.\n"];
    assert v[0][..6][0] != "intros"[0];
    assert v[1][..6][0] != "intros"[0];
    assert !IsIntros(v[0]) && !IsIntros(v[1]) && IsIntros(v[2]);
    assert v[1..][1..] == v[2..];
  }
}
