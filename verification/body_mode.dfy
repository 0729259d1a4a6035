/** The body-mode source rewriter (`preprocess_sparklib_source_file`).  A
    source file is read with its line endings untouched, so every line keeps
    its own terminator (`\n`, `\r\n` or `\r`; the last line may have none).
    Two case-insensitive patterns, anchored at the end of the line by the
    marker comment, are matched by hand:

      Rule A  `SPARK_Mode\s*=>\s*Off\s*--  #BODYMODE\s*$`, searched anywhere
              in the line; its `Off` becomes `On`.
      Rule B  `^\s*pragma\s+SPARK_Mode\s*\(\s*Off\s*\)\s*;\s*--  #BODYMODE\s*$`;
              the line is replaced by its terminator alone.

    `\s` is ASCII whitespace and case folding is ASCII folding. */
module BodyMode {
  import opened Text

  // The literal parts of the two patterns, in lower case since they are
  // compared with ASCII case folding.  The marker comment `--  #BODYMODE`
  // contains exactly two literal spaces.
  const Marker := "--  #bodymode"
  const SparkMode := "spark_mode"
  const Arrow := "=>"
  const Off := "off"
  const Pragma := "pragma"

  // ---------------------------------------------------------------------
  // The patterns as data
  // ---------------------------------------------------------------------

  /** One element of a pattern: `\s*`, `\s+`, or a literal matched with
      ASCII case folding.  Every whitespace run in both patterns is followed
      by a literal that starts with a non-whitespace character or by the end
      of the line, so matching each run greedily finds exactly the matches
      the backtracking engine finds. */
  datatype Item = Spaces | Spaces1 | Word(w: string)

  /** One item matched at position `i`: where the match continues. */
  function Step(s: string, i: nat, item: Item): (r: Option<nat>)
    requires i <= |s|
    ensures r.Some? ==> i <= r.value <= |s|
  {
    match item
    case Spaces => Some(SkipWs(s, i))
    case Spaces1 => var j := SkipWs(s, i); if j > i then Some(j) else None
    case Word(w) => if LitAt(s, i, w) then Some(i + |w|) else None
  }

  /** A sequence of items matched from position `i`. */
  function Scan(s: string, i: nat, items: seq<Item>): (r: Option<nat>)
    requires i <= |s|
    ensures r.Some? ==> i <= r.value <= |s|
    decreases |items|
  {
    if items == [] then Some(i)
    else match Step(s, i, items[0])
      case None => None
      case Some(j) => Scan(s, j, items[1..])
  }

  /** Matching `p + q` is matching `p`, then `q` from where `p` ended. */
  lemma {:induction false} ScanAppend(s: string, i: nat, p: seq<Item>, q: seq<Item>)
    requires i <= |s|
    ensures Scan(s, i, p + q) == (match Scan(s, i, p) case None => None case Some(j) => Scan(s, j, q))
    decreases |p|
  {
    if p == [] {
      assert p + q == q;
    } else {
      assert (p + q)[0] == p[0];
      assert (p + q)[1..] == p[1..] + q;
      match Step(s, i, p[0])
      case None =>
      case Some(j) => ScanAppend(s, j, p[1..], q);
    }
  }

  /** `SPARK_Mode\s*=>\s*`, the first group of Rule A. */
  const LeadA := [Word(SparkMode), Spaces, Word(Arrow), Spaces]

  /** `Off\s*--  #BODYMODE\s*$`: the `Off` and the second group of Rule A. */
  const TailA := [Word(Off), Spaces, Word(Marker), Spaces]

  /** `^\s*pragma\s+SPARK_Mode\s*\(\s*Off\s*\)\s*`, the start of Rule B. */
  const LeadB := [Spaces, Word(Pragma), Spaces1, Word(SparkMode), Spaces, Word("("),
                  Spaces, Word(Off), Spaces, Word(")"), Spaces]

  /** `;\s*--  #BODYMODE\s*$`, the end of Rule B. */
  const TailB := [Word(";"), Spaces, Word(Marker), Spaces]

  /** Rule B as one list of items. */
  const RuleB := LeadB + TailB

  // ---------------------------------------------------------------------
  // The common tail of both patterns, read from the end of the line
  // ---------------------------------------------------------------------

  /** When the line, stripped of trailing whitespace, ends with the marker:
      the end of the text that precedes the marker and the whitespace before
      it. */
  function MarkerBefore(s: string): (r: Option<nat>)
    ensures r.Some? ==> r.value + |Marker| <= |s|
  {
    var e := TrimEnd(s);
    if e >= |Marker| && LitAt(s, e - |Marker|, Marker) then Some(SkipWsBack(s, e - |Marker|)) else None
  }

  /** Where the marker stands and what precedes it determine `MarkerBefore`. */
  lemma MarkerBeforeIs(s: string, x: nat, m: nat)
    requires x <= m && m + |Marker| <= |s| && LitAt(s, m, Marker)
    requires forall k :: x <= k < m ==> IsWs(s[k])
    requires forall k :: m + |Marker| <= k < |s| ==> IsWs(s[k])
    requires x == 0 || !IsWs(s[x - 1])
    ensures MarkerBefore(s) == Some(x)
  {
    LitAtSolid(s, m, Marker, 12);
    SkipWsBackIs(s, m + 13, |s|);
    SkipWsBackIs(s, x, m);
  }

  /** Both patterns end in `w\s*--  #BODYMODE\s*$` (`w` is `Off` in Rule A,
      `;` in Rule B).  The last character of `w` is not whitespace, so a line
      that matches such a tail at `y` is one whose marker, read from the end,
      is preceded by `w` at `y`. */
  lemma MarkedTail(s: string, y: nat, w: string)
    requires y <= |s| && |w| > 0 && !IsWs(w[|w| - 1])
    requires Scan(s, y, [Word(w), Spaces, Word(Marker), Spaces]) == Some(|s|)
    ensures LitAt(s, y, w)
    ensures MarkerBefore(s) == Some(y + |w|)
  {
    var items := [Word(w), Spaces, Word(Marker), Spaces];
    assert items[1..][1..][1..] == [Spaces];
    assert LitAt(s, y, w);
    var m := SkipWs(s, y + |w|);
    assert Scan(s, y + |w|, items[1..]) == Some(|s|);
    assert Scan(s, m, items[1..][1..]) == Some(|s|);
    assert LitAt(s, m, Marker);
    assert Scan(s, m + |Marker|, items[1..][1..][1..]) == Some(|s|);
    SkipWsRun(s, y + |w|);
    SkipWsRun(s, m + |Marker|);
    LitAtSolid(s, y, w, |w| - 1);
    MarkerBeforeIs(s, y + |w|, m);
  }

  // ---------------------------------------------------------------------
  // Rule A, as the regular-expression engine finds it: left to right
  // ---------------------------------------------------------------------

  /** Rule A tried at position `i`: the position of `Off` when the pattern
      matches from there. */
  function EnableAt(s: string, i: nat): (r: Option<nat>)
    requires i <= |s|
    ensures r.Some? ==> i <= r.value && r.value + |Off| <= |s|
  {
    match Scan(s, i, LeadA)
    case None => None
    case Some(o) => if Scan(s, o, TailA) == Some(|s|) then Some(o) else None
  }

  /** The search `re.subn` performs: the leftmost position from `i` on where
      Rule A matches, giving the position of its `Off`. */
  function FindEnable(s: string, i: nat): (r: Option<nat>)
    ensures r.Some? ==> i <= r.value && r.value + |Off| <= |s|
    decreases |s| + 1 - i
  {
    if i > |s| then None
    else match EnableAt(s, i)
      case Some(o) => Some(o)
      case None => FindEnable(s, i + 1)
  }

  /** A Rule A match always runs to the end of the line, and its `Off` is
      the token just before the marker. */
  lemma EnableAtTail(s: string, i: nat)
    requires i <= |s| && EnableAt(s, i).Some?
    ensures LitAt(s, EnableAt(s, i).value, Off)
    ensures Lower(s[EnableAt(s, i).value + 2]) == 'f'
    ensures MarkerBefore(s) == Some(EnableAt(s, i).value + 3)
  {
    var o := EnableAt(s, i).value;
    MarkedTail(s, o, Off);
    assert Lower(s[o + 2]) == Off[2];
  }

  /** So wherever the search finds Rule A, the `Off` it rewrites is the one
      that reading the line from its end determines: there is at most one
      match to replace. */
  lemma {:induction false} FindEnableTail(s: string, i: nat)
    requires FindEnable(s, i).Some?
    ensures LitAt(s, FindEnable(s, i).value, Off)
    ensures Lower(s[FindEnable(s, i).value + 2]) == 'f'
    ensures MarkerBefore(s) == Some(FindEnable(s, i).value + 3)
    decreases |s| + 1 - i
  {
    assert i <= |s|;
    match EnableAt(s, i)
    case Some(o) =>
      assert FindEnable(s, i) == Some(o);
      EnableAtTail(s, i);
    case None =>
      assert FindEnable(s, i) == FindEnable(s, i + 1);
      FindEnableTail(s, i + 1);
  }

  /** The search misses no match: when Rule A matches at any position from
      `i` on, the search from `i` finds it, and finds the same `Off` (all
      matches share the `Off` that precedes the end-anchored marker). */
  lemma {:induction false} FindEnableComplete(s: string, i: nat, j: nat)
    requires i <= j <= |s| && EnableAt(s, j).Some?
    ensures FindEnable(s, i) == EnableAt(s, j)
    decreases j - i
  {
    match EnableAt(s, i)
    case Some(o) =>
      assert FindEnable(s, i) == Some(o);
      EnableAtTail(s, i);
      EnableAtTail(s, j);
    case None =>
      assert FindEnable(s, i) == FindEnable(s, i + 1);
      FindEnableComplete(s, i + 1, j);
  }

  /** Matching the items of a pattern from its `n`-th on is matching the
      `n`-th, then the rest from where it ended. */
  lemma ScanNext(s: string, i: nat, items: seq<Item>, n: nat)
    requires i <= |s| && n < |items|
    ensures Scan(s, i, items[n..]) ==
            (match Step(s, i, items[n]) case None => None case Some(j) => Scan(s, j, items[n + 1..]))
  {
    assert items[n..][0] == items[n];
    assert items[n..][1..] == items[n + 1..];
  }

  // ---------------------------------------------------------------------
  // Rule B
  // ---------------------------------------------------------------------

  /** `pattern_to_remove.match(line)`: the whole pattern matched from the
      start of the line, running to its end. */
  predicate MatchesRemove(s: string)
  {
    Scan(s, 0, RuleB) == Some(|s|)
  }

  /** Read from its end, a Rule B line has `;` just before the whitespace
      that precedes the marker. */
  lemma RemoveTail(s: string)
    requires MatchesRemove(s)
    ensures MarkerBefore(s).Some? && MarkerBefore(s).value >= 1
    ensures s[MarkerBefore(s).value - 1] == ';'
  {
    ScanAppend(s, 0, LeadB, TailB);
    var y := Scan(s, 0, LeadB).value;
    MarkedTail(s, y, ";");
    assert Lower(s[y + 0]) == ";"[0];
  }

  /** At most one rule fires on a line: a Rule B line never matches Rule A
      (there the marker follows `;`, in Rule A it follows `Off`). */
  lemma RulesDisjoint(s: string)
    requires MatchesRemove(s)
    ensures FindEnable(s, 0).None?
  {
    if FindEnable(s, 0).Some? {
      FindEnableTail(s, 0);
      RemoveTail(s);
      assert false;
    }
  }

  // ---------------------------------------------------------------------
  // The per-line rewrite
  // ---------------------------------------------------------------------

  /** The terminator a line ends with, as `str.endswith` distinguishes them. */
  function Terminator(line: string): string
  {
    if EndsWith(line, "\r\n") then "\r\n"
    else if EndsWith(line, "\n") then "\n"
    else if EndsWith(line, "\r") then "\r"
    else ""
  }

  /** What is written for a Rule B line: `\r\n` or `\n` when the line ends so,
      nothing otherwise (last line without terminator, or a lone `\r`). */
  function RemovedLine(line: string): string
  {
    if EndsWith(line, "\r\n") then "\r\n"
    else if EndsWith(line, "\n") then "\n"
    else ""
  }

  /** What the loop writes for one line: Rule A first, then Rule B, else the
      line unchanged. */
  function RewriteLine(line: string): string
  {
    match FindEnable(line, 0)
    case Some(o) => line[..o] + "On" + line[o + 3..]
    case None => if MatchesRemove(line) then RemovedLine(line) else line
  }

  /** Rule A changes only the `Off` token, in whatever letter case, into
      `On`: the text before it (including the `=>` spacing) and after it
      (the marker, the trailing whitespace and the terminator) are kept, and
      the token is the one that precedes the end-anchored marker. */
  lemma RuleAEdit(line: string)
    requires FindEnable(line, 0).Some?
    ensures var o := FindEnable(line, 0).value;
            var out := RewriteLine(line);
            && LitAt(line, o, Off)
            && MarkerBefore(line) == Some(o + 3)
            && |out| == |line| - 1
            && out[..o] == line[..o]
            && out[o..o + 2] == "On"
            && out[o + 2..] == line[o + 3..]
  {
    FindEnableTail(line, 0);
  }

  /** A Rule B line is written as `\r\n` when it ends so, as `\n` when it
      ends so, and as nothing otherwise; Rule A never takes precedence over
      it. */
  lemma RuleBEdit(line: string)
    requires MatchesRemove(line)
    ensures RewriteLine(line) == if EndsWith(line, "\r\n") then "\r\n" else if EndsWith(line, "\n") then "\n" else ""
  {
    RulesDisjoint(line);
  }

  // ---------------------------------------------------------------------
  // Both rules fire on the lines they are written for
  // ---------------------------------------------------------------------

  /** The marked aspect, as written in the library, and what Rule A makes
      of it. */
  const AspectOff := "SPARK_Mode" + " " + "=>" + " " + "Off" + " " + "--  #BODYMODE"
  const AspectOn := "SPARK_Mode" + " " + "=>" + " " + "On" + " " + "--  #BODYMODE"

  /** The marked pragma, as written in the library. */
  const PragmaOff := "pragma" + " " + "SPARK_Mode" + " " + "(" + "Off" + ")" + ";" + " " + "--  #BODYMODE"

  /** A literal found in a text `t` is found at the same place wherever `t`
      is copied. */
  lemma LitAtCopy(s: string, p: nat, t: string, k: nat, w: string)
    requires p + |t| <= |s| && s[p..p + |t|] == t && LitAt(t, k, w)
    ensures LitAt(s, p + k, w)
  {
    forall j | 0 <= j < |w|
      ensures Lower(s[p + k + j]) == w[j]
    {
      assert s[p + k + j] == s[p..p + |t|][k + j];
    }
  }

  lemma AspectOffWords()
    ensures LitAt(AspectOff, 0, SparkMode) && LitAt(AspectOff, 11, Arrow)
    ensures LitAt(AspectOff, 14, Off) && LitAt(AspectOff, 18, Marker)
  {
  }

  /** The marked aspect written at `p`, as the matcher sees it: its words,
      the blanks between them, and the non-blanks that end those blanks. */
  predicate AspectAt(s: string, p: nat)
  {
    p + |AspectOff| <= |s| &&
    LitAt(s, p, SparkMode) && IsWs(s[p + 10]) && !IsWs(s[p + 11]) &&
    LitAt(s, p + 11, Arrow) && IsWs(s[p + 13]) && !IsWs(s[p + 14]) &&
    LitAt(s, p + 14, Off) && IsWs(s[p + 17]) && !IsWs(s[p + 18]) &&
    LitAt(s, p + 18, Marker)
  }

  lemma AspectText(s: string, p: nat)
    requires p + |AspectOff| <= |s| && s[p..p + |AspectOff|] == AspectOff
    ensures AspectAt(s, p)
  {
    AspectOffWords();
    LitAtCopy(s, p, AspectOff, 0, SparkMode);
    LitAtCopy(s, p, AspectOff, 11, Arrow);
    LitAtCopy(s, p, AspectOff, 14, Off);
    LitAtCopy(s, p, AspectOff, 18, Marker);
    assert s[p + 10] == AspectOff[10] && s[p + 11] == AspectOff[11];
    assert s[p + 13] == AspectOff[13] && s[p + 14] == AspectOff[14];
    assert s[p + 17] == AspectOff[17] && s[p + 18] == AspectOff[18];
  }

  /** Where the marked aspect is written, `SPARK_Mode\s*=>\s*` matches up
      to its `Off`. */
  lemma AspectLead(s: string, p: nat)
    requires AspectAt(s, p)
    ensures Scan(s, p, LeadA) == Some(p + 14)
  {
    SkipWsIs(s, p + 10, p + 11);
    SkipWsIs(s, p + 13, p + 14);
    assert LeadA[0..] == LeadA;
    ScanNext(s, p, LeadA, 0);
    ScanNext(s, p + 10, LeadA, 1);
    ScanNext(s, p + 11, LeadA, 2);
    ScanNext(s, p + 13, LeadA, 3);
    assert LeadA[4..] == [];
  }

  /** From its `Off`, a marked aspect followed only by whitespace matches the
      tail of Rule A. */
  lemma AspectTail(s: string, p: nat)
    requires AspectAt(s, p)
    requires forall k :: p + |AspectOff| <= k < |s| ==> IsWs(s[k])
    ensures Scan(s, p + 14, TailA) == Some(|s|)
  {
    SkipWsIs(s, p + 17, p + 18);
    SkipWsIs(s, p + 31, |s|);
    assert TailA[0..] == TailA;
    ScanNext(s, p + 14, TailA, 0);
    ScanNext(s, p + 17, TailA, 1);
    ScanNext(s, p + 18, TailA, 2);
    ScanNext(s, p + 31, TailA, 3);
    assert TailA[4..] == [];
  }

  /** Rule A matches where a marked aspect starts, whatever precedes it,
      when only whitespace follows it; the search then rewrites its `Off`. */
  lemma AspectFound(s: string, p: nat)
    requires p + |AspectOff| <= |s| && s[p..p + |AspectOff|] == AspectOff
    requires forall k :: p + |AspectOff| <= k < |s| ==> IsWs(s[k])
    ensures RewriteLine(s) == s[..p + 14] + "On" + s[p + 17..]
  {
    AspectText(s, p);
    AspectLead(s, p);
    AspectTail(s, p);
    assert EnableAt(s, p) == Some(p + 14);
    FindEnableComplete(s, 0, p);
  }

  /** Putting `On` in place of the `Off` of a marked aspect gives the
      enabled aspect. */
  lemma AspectOffToOn(pre: string, post: string)
    ensures var s := pre + AspectOff + post;
            s[..|pre| + 14] + "On" + s[|pre| + 17..] == pre + AspectOn + post
  {
    var s := pre + AspectOff + post;
    var x := pre + ("SPARK_Mode" + " " + "=>" + " ");
    var y := " " + "--  #BODYMODE" + post;
    assert s == x + "Off" + y;
    assert s[..|pre| + 14] == x;
    assert s[|pre| + 17..] == y;
  }

  /** Rule A fires on every line that ends with the marked aspect (and
      trailing whitespace, such as the line break): its `Off` becomes `On`
      and nothing else changes, whatever text precedes it. */
  lemma RuleAFires(pre: string, post: string)
    requires forall k :: 0 <= k < |post| ==> IsWs(post[k])
    ensures RewriteLine(pre + AspectOff + post) == pre + AspectOn + post
  {
    var s := pre + AspectOff + post;
    var p := |pre|;
    assert s[p..p + |AspectOff|] == AspectOff;
    assert forall k :: p + |AspectOff| <= k < |s| ==> s[k] == post[k - p - |AspectOff|];
    AspectFound(s, p);
    AspectOffToOn(pre, post);
  }

  lemma PragmaOffWords()
    ensures LitAt(PragmaOff, 0, Pragma) && LitAt(PragmaOff, 7, SparkMode)
    ensures LitAt(PragmaOff, 18, "(") && LitAt(PragmaOff, 19, Off) && LitAt(PragmaOff, 22, ")")
    ensures LitAt(PragmaOff, 23, ";") && LitAt(PragmaOff, 25, Marker)
  {
  }

  /** The marked pragma written at `q`, as the matcher sees it. */
  predicate PragmaAt(s: string, q: nat)
  {
    q + |PragmaOff| <= |s| &&
    LitAt(s, q, Pragma) && !IsWs(s[q]) && IsWs(s[q + 6]) && !IsWs(s[q + 7]) &&
    LitAt(s, q + 7, SparkMode) && IsWs(s[q + 17]) && !IsWs(s[q + 18]) &&
    LitAt(s, q + 18, "(") && !IsWs(s[q + 19]) && LitAt(s, q + 19, Off) &&
    !IsWs(s[q + 22]) && LitAt(s, q + 22, ")") && !IsWs(s[q + 23]) &&
    LitAt(s, q + 23, ";") && IsWs(s[q + 24]) && !IsWs(s[q + 25]) &&
    LitAt(s, q + 25, Marker)
  }

  lemma PragmaText(s: string, q: nat)
    requires q + |PragmaOff| <= |s| && s[q..q + |PragmaOff|] == PragmaOff
    ensures PragmaAt(s, q)
  {
    PragmaOffWords();
    LitAtCopy(s, q, PragmaOff, 0, Pragma);
    LitAtCopy(s, q, PragmaOff, 7, SparkMode);
    LitAtCopy(s, q, PragmaOff, 18, "(");
    LitAtCopy(s, q, PragmaOff, 19, Off);
    LitAtCopy(s, q, PragmaOff, 22, ")");
    LitAtCopy(s, q, PragmaOff, 23, ";");
    LitAtCopy(s, q, PragmaOff, 25, Marker);
    assert s[q] == PragmaOff[0] && s[q + 6] == PragmaOff[6] && s[q + 7] == PragmaOff[7];
    assert s[q + 17] == PragmaOff[17] && s[q + 18] == PragmaOff[18] && s[q + 19] == PragmaOff[19];
    assert s[q + 22] == PragmaOff[22] && s[q + 23] == PragmaOff[23];
    assert s[q + 24] == PragmaOff[24] && s[q + 25] == PragmaOff[25];
  }

  /** After leading whitespace, `pragma\s+SPARK_Mode` matches the start of
      the marked pragma. */
  lemma PragmaStart(s: string, q: nat)
    requires PragmaAt(s, q)
    requires forall k :: 0 <= k < q ==> IsWs(s[k])
    ensures Scan(s, 0, RuleB) == Scan(s, q + 17, RuleB[4..])
  {
    SkipWsIs(s, 0, q);
    SkipWsIs(s, q + 6, q + 7);
    assert RuleB[0..] == RuleB;
    ScanNext(s, 0, RuleB, 0);
    ScanNext(s, q, RuleB, 1);
    ScanNext(s, q + 6, RuleB, 2);
    ScanNext(s, q + 7, RuleB, 3);
  }

  /** `\s*\(\s*Off\s*\)\s*` matches the parenthesised `Off` of the marked
      pragma. */
  lemma PragmaMiddle(s: string, q: nat)
    requires PragmaAt(s, q)
    ensures Scan(s, q + 17, RuleB[4..]) == Scan(s, q + 23, RuleB[11..])
  {
    SkipWsIs(s, q + 17, q + 18);
    SkipWsIs(s, q + 19, q + 19);
    SkipWsIs(s, q + 22, q + 22);
    SkipWsIs(s, q + 23, q + 23);
    ScanNext(s, q + 17, RuleB, 4);
    ScanNext(s, q + 18, RuleB, 5);
    ScanNext(s, q + 19, RuleB, 6);
    ScanNext(s, q + 19, RuleB, 7);
    ScanNext(s, q + 22, RuleB, 8);
    ScanNext(s, q + 22, RuleB, 9);
    ScanNext(s, q + 23, RuleB, 10);
  }

  /** From its `;`, a marked pragma followed only by whitespace matches the
      end of Rule B. */
  lemma PragmaEnd(s: string, q: nat)
    requires PragmaAt(s, q)
    requires forall k :: q + |PragmaOff| <= k < |s| ==> IsWs(s[k])
    ensures Scan(s, q + 23, RuleB[11..]) == Some(|s|)
  {
    SkipWsIs(s, q + 24, q + 25);
    SkipWsIs(s, q + 38, |s|);
    ScanNext(s, q + 23, RuleB, 11);
    ScanNext(s, q + 24, RuleB, 12);
    ScanNext(s, q + 25, RuleB, 13);
    ScanNext(s, q + 38, RuleB, 14);
    assert RuleB[15..] == [];
  }

  /** Rule B matches a line made of leading whitespace, the marked pragma
      and trailing whitespace. */
  lemma PragmaFound(s: string, q: nat)
    requires q + |PragmaOff| <= |s| && s[q..q + |PragmaOff|] == PragmaOff
    requires forall k :: 0 <= k < q ==> IsWs(s[k])
    requires forall k :: q + |PragmaOff| <= k < |s| ==> IsWs(s[k])
    ensures MatchesRemove(s)
  {
    PragmaText(s, q);
    PragmaStart(s, q);
    PragmaMiddle(s, q);
    PragmaEnd(s, q);
  }

  /** Rule B fires on every marked pragma alone on its line (with any
      indentation): a line ending in `\n` or `\r\n` is written as that line
      break alone. */
  lemma RuleBFires(lead: string, post: string)
    requires forall k :: 0 <= k < |lead| ==> IsWs(lead[k])
    requires post == "\n" || post == "\r\n"
    ensures MatchesRemove(lead + PragmaOff + post)
    ensures RewriteLine(lead + PragmaOff + post) == post
  {
    var s := lead + PragmaOff + post;
    var q := |lead|;
    assert s[q..q + |PragmaOff|] == PragmaOff;
    assert forall k :: 0 <= k < q ==> s[k] == lead[k];
    assert forall k :: q + |PragmaOff| <= k < |s| ==> s[k] == post[k - q - |PragmaOff|];
    PragmaFound(s, q);
    RuleBEdit(s);
    var x := lead + PragmaOff;
    assert x[|x| - 1] == PragmaOff[|PragmaOff| - 1] == 'E';
    LineBreakOf(x, post);
  }

  /** Whatever precedes it, unless it is a `\r`, the line break at the end
      of a line is the one Rule B writes. */
  lemma LineBreakOf(x: string, post: string)
    requires x != [] && x[|x| - 1] != '\r'
    requires post == "\n" || post == "\r\n"
    ensures (if EndsWith(x + post, "\r\n") then "\r\n" else if EndsWith(x + post, "\n") then "\n" else "") == post
  {
    var s := x + post;
    assert s[|s| - 1] == '\n';
    assert s[|s| - 1..] == "\n";
    if post == "\n" {
      assert s[|s| - 2] == x[|x| - 1];
      assert s[|s| - 2..][0] != "\r\n"[0];
    } else {
      assert s[|s| - 2..] == post;
    }
  }

  lemma AllWsHasNoMarker(s: string)
    requires forall k :: 0 <= k < |s| ==> IsWs(s[k])
    ensures MarkerBefore(s).None?
    ensures FindEnable(s, 0).None?
    ensures !MatchesRemove(s)
  {
    SkipWsBackIs(s, 0, |s|);
    if FindEnable(s, 0).Some? {
      FindEnableTail(s, 0);
    }
    if MatchesRemove(s) {
      RemoveTail(s);
    }
  }

  /** Turning `Off` into `On` moves the end of the line one place left and
      leaves `On` just before the marker. */
  lemma MarkerAfterEdit(line: string, o: nat)
    requires LitAt(line, o, Off) && MarkerBefore(line) == Some(o + 3)
    ensures MarkerBefore(line[..o] + "On" + line[o + 3..]) == Some(o + 2)
  {
    var out := line[..o] + "On" + line[o + 3..];
    var m := TrimEnd(line) - 13;
    assert LitAt(line, m, Marker);
    SkipWsBackRun(line, |line|);
    SkipWsBackRun(line, m);
    assert forall j :: o + 2 <= j < |out| ==> out[j] == line[j + 1];
    assert LitAt(out, m - 1, Marker) by {
      forall k | 0 <= k < 13
        ensures Lower(out[m - 1 + k]) == Marker[k]
      {
        assert out[m - 1 + k] == line[m + k];
      }
    }
    assert out[o + 1] == 'n';
    MarkerBeforeIs(out, o + 2, m - 1);
  }

  /** A line whose marker, read from the end, follows an `n` matches
      neither rule. */
  lemma NeitherRuleAfterN(s: string)
    requires MarkerBefore(s).Some? && MarkerBefore(s).value >= 1
    requires s[MarkerBefore(s).value - 1] == 'n'
    ensures FindEnable(s, 0).None?
    ensures !MatchesRemove(s)
  {
    if FindEnable(s, 0).Some? {
      FindEnableTail(s, 0);
      assert false;
    }
    if MatchesRemove(s) {
      RemoveTail(s);
    }
  }

  /** After Rule A the marker is preceded by `On`, so neither rule fires. */
  lemma EnabledLineIsStable(line: string)
    requires FindEnable(line, 0).Some?
    ensures FindEnable(RewriteLine(line), 0).None?
    ensures !MatchesRemove(RewriteLine(line))
  {
    var o := FindEnable(line, 0).value;
    var out := line[..o] + "On" + line[o + 3..];
    assert RewriteLine(line) == out;
    FindEnableTail(line, 0);
    MarkerAfterEdit(line, o);
    assert out[o + 1] == 'n';
    NeitherRuleAfterN(out);
  }

  /** Rewriting a line twice is rewriting it once. */
  lemma RewriteLineIdempotent(line: string)
    ensures RewriteLine(RewriteLine(line)) == RewriteLine(line)
  {
    if FindEnable(line, 0).Some? {
      EnabledLineIsStable(line);
    } else if MatchesRemove(line) {
      AllWsHasNoMarker(RemovedLine(line));
    }
  }

  lemma TerminatorOfSuffix(x: string, t: string)
    requires |t| >= 2
    ensures Terminator(x + t) == Terminator(t)
  {
    EndsWithAppend(x, t, "\r\n");
    EndsWithAppend(x, t, "\n");
    EndsWithAppend(x, t, "\r");
  }

  /** Every line keeps its terminator, except a Rule B line ending in a lone
      `\r`: nothing at all is written for it. */
  lemma RewriteLineTerminator(line: string)
    ensures Terminator(line) != "\r" ==> Terminator(RewriteLine(line)) == Terminator(line)
    ensures Terminator(line) == "\r" && MatchesRemove(line) ==> RewriteLine(line) == ""
    ensures Terminator(line) == "\r" && !MatchesRemove(line) ==> Terminator(RewriteLine(line)) == "\r"
  {
    match FindEnable(line, 0)
    case Some(o) =>
      FindEnableTail(line, 0);
      assert line == line[..o + 3] + line[o + 3..];
      TerminatorOfSuffix(line[..o + 3], line[o + 3..]);
      TerminatorOfSuffix(line[..o] + "On", line[o + 3..]);
      if MatchesRemove(line) {
        RulesDisjoint(line);
      }
    case None =>
  }

  // ---------------------------------------------------------------------
  // The whole file
  // ---------------------------------------------------------------------

  /** What the loop writes, line by line. */
  function RewriteAll(lines: seq<string>): (out: seq<string>)
    ensures |out| == |lines|
    ensures forall i :: 0 <= i < |lines| ==> out[i] == RewriteLine(lines[i])
  {
    seq(|lines|, i requires 0 <= i < |lines| => RewriteLine(lines[i]))
  }

  /** The loop of `preprocess_sparklib_source_file`: each line is tried
      against Rule A, then Rule B, and what is written for it is appended to
      the output that later replaces the file. */
  method PreprocessLines(lines: seq<string>) returns (out: seq<string>)
    ensures |out| == |lines|
    ensures forall i :: 0 <= i < |lines| ==> out[i] == RewriteLine(lines[i])
  {
    out := [];
    for i := 0 to |lines|
      invariant |out| == i
      invariant forall k :: 0 <= k < i ==> out[k] == RewriteLine(lines[k])
    {
      out := out + [RewriteLine(lines[i])];
    }
  }

  /** Running the rewriter on its own output changes nothing. */
  lemma RewriteAllIdempotent(lines: seq<string>)
    ensures RewriteAll(RewriteAll(lines)) == RewriteAll(lines)
  {
    forall i | 0 <= i < |lines|
      ensures RewriteAll(RewriteAll(lines))[i] == RewriteAll(lines)[i]
    {
      RewriteLineIdempotent(lines[i]);
    }
  }

  /** Line slots are preserved: every line that ends in `\n` or `\r\n` is
      written with the same terminator, so a file whose lines all end so has
      as many lines after the rewrite as before, and each at its old number. */
  lemma RewriteAllKeepsLineBreaks(lines: seq<string>)
    ensures forall i :: 0 <= i < |lines| && Terminator(lines[i]) in {"\n", "\r\n"} ==>
              Terminator(RewriteAll(lines)[i]) == Terminator(lines[i])
  {
    forall i | 0 <= i < |lines| && Terminator(lines[i]) in {"\n", "\r\n"}
      ensures Terminator(RewriteAll(lines)[i]) == Terminator(lines[i])
    {
      RewriteLineTerminator(lines[i]);
    }
  }
}
