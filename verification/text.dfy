/** Character and string helpers shared by the rewriter, the merger and the
    command builders: ASCII whitespace, ASCII case folding, case-insensitive
    literal matching and maximal whitespace runs in both directions. */
module Text {

  datatype Option<T> = None | Some(value: T)

  /** The characters of Python's `\s` restricted to ASCII: space, tab,
      line feed, carriage return, vertical tab and form feed. */
  predicate IsWs(c: char)
  {
    c == ' ' || '\t' <= c <= '\r'
  }

  /** ASCII lower-casing, the folding `re.IGNORECASE` applies to ASCII letters. */
  function Lower(c: char): char
  {
    if 'A' <= c <= 'Z' then (c as int + 32) as char else c
  }

  /** `lit`, written in lower case, occurs at position `i` of `s` when the
      case of ASCII letters is ignored. */
  predicate LitAt(s: string, i: nat, lit: string)
  {
    i + |lit| <= |s| && forall k :: 0 <= k < |lit| ==> Lower(s[i + k]) == lit[k]
  }

  predicate StartsWith(s: string, prefix: string)
  {
    |prefix| <= |s| && s[..|prefix|] == prefix
  }

  predicate EndsWith(s: string, suffix: string)
  {
    |suffix| <= |s| && s[|s| - |suffix|..] == suffix
  }

  /** Whether a string ends with a suffix depends only on its last characters. */
  lemma EndsWithAppend(x: string, t: string, suffix: string)
    requires |suffix| <= |t|
    ensures EndsWith(x + t, suffix) == EndsWith(t, suffix)
  {
    assert (x + t)[|x + t| - |suffix|..] == t[|t| - |suffix|..];
  }

  /** The end of the maximal run of whitespace that starts at `i`
      (what a greedy `\s*` consumes from there). */
  function SkipWs(s: string, i: nat): (j: nat)
    requires i <= |s|
    ensures i <= j <= |s|
    decreases |s| - i
  {
    if i == |s| || !IsWs(s[i]) then i else SkipWs(s, i + 1)
  }

  /** The start of the maximal run of whitespace that ends just before `j`. */
  function SkipWsBack(s: string, j: nat): (i: nat)
    requires j <= |s|
    ensures i <= j
  {
    if j == 0 || !IsWs(s[j - 1]) then j else SkipWsBack(s, j - 1)
  }

  /** The length of `s` once its trailing whitespace is stripped. */
  function TrimEnd(s: string): (e: nat)
    ensures e <= |s|
  {
    SkipWsBack(s, |s|)
  }

  /** `SkipWs` skips whitespace only, and all of it. */
  lemma {:induction false} SkipWsRun(s: string, i: nat)
    requires i <= |s|
    ensures forall k :: i <= k < SkipWs(s, i) ==> IsWs(s[k])
    ensures SkipWs(s, i) == |s| || !IsWs(s[SkipWs(s, i)])
    decreases |s| - i
  {
    if i < |s| && IsWs(s[i]) {
      SkipWsRun(s, i + 1);
    }
  }

  /** `SkipWsBack` skips whitespace only, and all of it. */
  lemma {:induction false} SkipWsBackRun(s: string, j: nat)
    requires j <= |s|
    ensures forall k :: SkipWsBack(s, j) <= k < j ==> IsWs(s[k])
    ensures SkipWsBack(s, j) == 0 || !IsWs(s[SkipWsBack(s, j) - 1])
  {
    if j > 0 && IsWs(s[j - 1]) {
      SkipWsBackRun(s, j - 1);
    }
  }

  /** A whitespace run is determined by where it starts and where the first
      non-whitespace character after it stands. */
  lemma {:induction false} SkipWsIs(s: string, i: nat, j: nat)
    requires i <= j <= |s|
    requires forall k :: i <= k < j ==> IsWs(s[k])
    requires j == |s| || !IsWs(s[j])
    ensures SkipWs(s, i) == j
    decreases j - i
  {
    if i < j {
      SkipWsIs(s, i + 1, j);
    }
  }

  /** Likewise for a run read backwards from `j`. */
  lemma {:induction false} SkipWsBackIs(s: string, i: nat, j: nat)
    requires i <= j <= |s|
    requires forall k :: i <= k < j ==> IsWs(s[k])
    requires i == 0 || !IsWs(s[i - 1])
    ensures SkipWsBack(s, j) == i
    decreases j - i
  {
    if i < j {
      SkipWsBackIs(s, i, j - 1);
    }
  }

  /** A character matched case-insensitively against a literal character that
      is not whitespace is not whitespace either. */
  lemma LitAtSolid(s: string, i: nat, lit: string, k: nat)
    requires LitAt(s, i, lit)
    requires k < |lit|
    requires !IsWs(lit[k])
    ensures !IsWs(s[i + k])
  {
    assert Lower(s[i + k]) == lit[k];
  }
}
