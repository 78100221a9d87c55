/** Optional values, as Python's `None` or a present value. */
module Options {

  /** Python's `None` versus a present value. */
  datatype Option<+T> = None | Some(value: T)
}

/** Small string vocabulary shared by the diagnostic pipeline: character
    classes, prefix/suffix tests, leftmost search and the ASCII-only case
    folding that Python 2's `re.IGNORECASE` applies. */
module Text {
  import opened Options

  predicate IsDigit(c: char) {
    '0' <= c <= '9'
  }

  predicate NotColon(c: char) {
    c != ':'
  }

  predicate NotNewline(c: char) {
    c != '\n'
  }

  predicate AllDigits(s: string) {
    forall i :: 0 <= i < |s| ==> IsDigit(s[i])
  }

  /** Every character fits the 7-bit ASCII range: exactly the strings that
      Python 2's `str()` can encode with its default codec. */
  predicate IsAscii(s: string) {
    forall i :: 0 <= i < |s| ==> s[i] as int < 128
  }

  /** Lower-casing as Python 2's regular-expression engine does it without
      the UNICODE flag: only the ASCII letters fold. */
  function AsciiLower(c: char): char {
    if 'A' <= c <= 'Z' then (c as int + 32) as char else c
  }

  predicate StartsWith(s: string, prefix: string) {
    |prefix| <= |s| && s[..|prefix|] == prefix
  }

  predicate EndsWith(s: string, suffix: string) {
    |suffix| <= |s| && s[|s| - |suffix|..] == suffix
  }

  /** Value of a run of decimal digits, as Python's `int()` reads it
      (leading zeros allowed). */
  function DecimalValue(digits: string): nat
    requires AllDigits(digits)
  {
    if |digits| == 0 then 0
    else 10 * DecimalValue(digits[..|digits| - 1]) + (digits[|digits| - 1] as int - '0' as int)
  }

  /** End of the longest run of characters satisfying `keep` that starts at
      `i`: the greedy repetition of a character class. */
  function SkipWhile(s: string, i: nat, keep: char -> bool): (j: nat)
    requires i <= |s|
    ensures i <= j <= |s|
    ensures forall k :: i <= k < j ==> keep(s[k])
    ensures j == |s| || !keep(s[j])
    decreases |s| - i
  {
    if i == |s| || !keep(s[i]) then i else SkipWhile(s, i + 1, keep)
  }

  /** A maximal run is unique, so any position that ends one is where
      `SkipWhile` stops. */
  lemma SkipWhileStopsAt(s: string, i: nat, keep: char -> bool, j: nat)
    requires i <= j <= |s|
    requires forall k :: i <= k < j ==> keep(s[k])
    requires j == |s| || !keep(s[j])
    ensures SkipWhile(s, i, keep) == j
  {
  }

  /** `SkipWhile` from `i` runs exactly over `run` when `run` sits at `i`,
      every character of it satisfies `keep`, and the character after it
      does not. */
  lemma SkipWhileOverRun(s: string, i: nat, run: string, keep: char -> bool)
    requires i + |run| <= |s| && s[i..i + |run|] == run
    requires forall k :: 0 <= k < |run| ==> keep(run[k])
    requires i + |run| == |s| || !keep(s[i + |run|])
    ensures SkipWhile(s, i, keep) == i + |run|
  {
    forall k | i <= k < i + |run| ensures keep(s[k]) {
      assert s[k] == run[k - i];
    }
    SkipWhileStopsAt(s, i, keep, i + |run|);
  }

  /** Leftmost position in `[from, limit)` that satisfies `p`. */
  function FirstFrom(from: nat, limit: nat, p: nat -> bool): (r: Option<nat>)
    ensures r.Some? ==> from <= r.value < limit && p(r.value)
    ensures forall i :: from <= i < limit && p(i) ==> r.Some? && r.value <= i
    decreases limit - from
  {
    if from >= limit then None
    else if p(from) then Some(from)
    else FirstFrom(from + 1, limit, p)
  }

  /** `lowered` (a pattern already in lower case, as the regex compiler
      stores it) occurs at `i` when case is ignored the ASCII way. */
  predicate MatchesFoldedAt(s: string, i: nat, lowered: string) {
    i + |lowered| <= |s| && forall k :: 0 <= k < |lowered| ==> AsciiLower(s[i + k]) == lowered[k]
  }

  /** `re.search(pattern, s, flags=re.IGNORECASE) is not None` for a pattern
      made of literal characters. */
  function ContainsFolded(s: string, lowered: string): (r: bool)
    ensures r <==> exists i: nat :: MatchesFoldedAt(s, i, lowered)
  {
    ContainsFoldedFrom(s, lowered, 0)
  }

  /** The search from offset `i` on, one start position at a time. */
  function ContainsFoldedFrom(s: string, lowered: string, i: nat): (r: bool)
    ensures r <==> exists j: nat :: i <= j && MatchesFoldedAt(s, j, lowered)
    decreases |s| + 1 - i
  {
    if i > |s| then false
    else MatchesFoldedAt(s, i, lowered) || ContainsFoldedFrom(s, lowered, i + 1)
  }
}
