/** The compiler-output pattern `^...*?:(\d+):0: ([^:]*): (.*)`, applied
    with `re.match` (anchored at the start of the line, not at its end), as
    an explicit matcher.

    The pattern reads: two characters, then the lazily shortest run of
    further characters, then `:`, a run of ASCII digits (the 1-based line
    number), the literal `:0: ` (the column must be exactly `0`), a run of
    non-colon characters (the token), `: `, and everything up to the first
    line break (the description). `.` never matches a line break, so the
    text before the first `:` of the match holds none. */
module ErrorPattern {
  import opened Options
  import opened Text

  /** The three capture groups, and `at`, the offset of the `:` that opens
      the line number (where the lazy prefix stopped). */
  datatype Captures = Captures(at: nat, lineNumber: string, token: string, description: string)

  /** Offsets of the pieces after the opening `:`: where the `:0: ` after
      the line number starts, where the `: ` after the token starts, where
      the description starts, and where the match ends. */
  function NumberEnd(c: Captures): nat { c.at + 1 + |c.lineNumber| }
  function TokenEnd(c: Captures): nat { NumberEnd(c) + 4 + |c.token| }
  function DescriptionStart(c: Captures): nat { TokenEnd(c) + 2 }
  function MatchEnd(c: Captures): nat { DescriptionStart(c) + |c.description| }

  /** The literal `:0: ` starts at `i`. */
  predicate ColumnZeroAt(line: string, i: nat) {
    i + 4 <= |line| && line[i] == ':' && line[i + 1] == '0' && line[i + 2] == ':' && line[i + 3] == ' '
  }

  /** The literal `: ` starts at `i`. */
  predicate ColonSpaceAt(line: string, i: nat) {
    i + 2 <= |line| && line[i] == ':' && line[i + 1] == ' '
  }

  /** The pattern's language: `line` can be read as the match `c`, laid out
      as `<prefix>:<lineNumber>:0: <token>: <description>` with `c.at` the
      offset of the first `:` shown, the prefix (at least two characters)
      taken by `...*?`, and whatever follows the description starting with
      a line break. */
  ghost predicate IsMatchAt(line: string, c: Captures) {
    && 2 <= c.at
    && MatchEnd(c) <= |line|
    && (forall i :: 0 <= i < c.at ==> line[i] != '\n')
    && line[c.at] == ':'
    && line[c.at + 1..NumberEnd(c)] == c.lineNumber
    && ColumnZeroAt(line, NumberEnd(c))
    && line[NumberEnd(c) + 4..TokenEnd(c)] == c.token
    && ColonSpaceAt(line, TokenEnd(c))
    && line[DescriptionStart(c)..MatchEnd(c)] == c.description
    && |c.lineNumber| > 0
    && AllDigits(c.lineNumber)
    && (forall i :: 0 <= i < |c.token| ==> c.token[i] != ':')
    && (forall i :: 0 <= i < |c.description| ==> c.description[i] != '\n')
    && (MatchEnd(c) == |line| || line[MatchEnd(c)] == '\n')
  }

  /** The pattern's suffix after the prefix, with the prefix ending at `p`;
      each repetition is greedy, and the maximal run is the only one the
      next literal accepts, so there is nothing to backtrack into. */
  function TryAt(line: string, p: nat): Option<Captures>
  {
    if p < |line| && line[p] == ':' then
      var q := SkipWhile(line, p + 1, IsDigit);
      if q > p + 1 && ColumnZeroAt(line, q) then
        var t := SkipWhile(line, q + 4, NotColon);
        if t + 1 < |line| && line[t + 1] == ' ' then
          var e := SkipWhile(line, t + 2, NotNewline);
          var c := Captures(p, line[p + 1..q], line[q + 4..t], line[t + 2..e]);
          Some(c)
        else
          None
      else
        None
    else
      None
  }

  /** Whatever `TryAt` returns is a reading of the pattern at `p`, provided
      the prefix before `p` has no line break. */
  lemma TryAtSound(line: string, p: nat)
    requires 2 <= p
    requires forall i :: 0 <= i < p && i < |line| ==> line[i] != '\n'
    ensures TryAt(line, p).Some? ==> TryAt(line, p).value.at == p && IsMatchAt(line, TryAt(line, p).value)
  {
    if TryAt(line, p).Some? {
      ScansYieldMatch(line, TryAt(line, p).value);
    }
  }

  /** The captures the scans cut out do form a reading of the pattern. */
  lemma ScansYieldMatch(line: string, c: Captures)
    requires 2 <= c.at
    requires forall i :: 0 <= i < c.at && i < |line| ==> line[i] != '\n'
    requires c.at < |line| && line[c.at] == ':'
    requires NumberEnd(c) == SkipWhile(line, c.at + 1, IsDigit) > c.at + 1
    requires ColumnZeroAt(line, NumberEnd(c))
    requires TokenEnd(c) == SkipWhile(line, NumberEnd(c) + 4, NotColon)
    requires TokenEnd(c) + 1 < |line| && line[TokenEnd(c) + 1] == ' '
    requires MatchEnd(c) == SkipWhile(line, DescriptionStart(c), NotNewline)
    requires c.lineNumber == line[c.at + 1..NumberEnd(c)]
    requires c.token == line[NumberEnd(c) + 4..TokenEnd(c)]
    requires c.description == line[DescriptionStart(c)..MatchEnd(c)]
    ensures IsMatchAt(line, c)
  {
    forall i | 0 <= i < |c.lineNumber| ensures IsDigit(c.lineNumber[i]) {
      assert c.lineNumber[i] == line[c.at + 1 + i];
    }
    forall i | 0 <= i < |c.token| ensures c.token[i] != ':' {
      assert c.token[i] == line[NumberEnd(c) + 4 + i];
    }
    forall i | 0 <= i < |c.description| ensures c.description[i] != '\n' {
      assert c.description[i] == line[DescriptionStart(c) + i];
    }
  }

  /** When some reading `c` of the pattern starts at `p`, each greedy
      scan stops exactly where `c` puts the next literal: the digit run
      ends at the `:0: `, ... */
  lemma NumberScanFollowsMatch(line: string, c: Captures)
    requires IsMatchAt(line, c)
    ensures SkipWhile(line, c.at + 1, IsDigit) == NumberEnd(c)
  {
    SkipWhileOverRun(line, c.at + 1, c.lineNumber, IsDigit);
  }

  /** ... the non-colon run ends at the `: `, ... */
  lemma TokenScanFollowsMatch(line: string, c: Captures)
    requires IsMatchAt(line, c)
    ensures SkipWhile(line, NumberEnd(c) + 4, NotColon) == TokenEnd(c)
  {
    SkipWhileOverRun(line, NumberEnd(c) + 4, c.token, NotColon);
  }

  /** ... and the description runs to the line break or the end. */
  lemma DescriptionScanFollowsMatch(line: string, c: Captures)
    requires IsMatchAt(line, c)
    ensures SkipWhile(line, DescriptionStart(c), NotNewline) == MatchEnd(c)
  {
    SkipWhileOverRun(line, DescriptionStart(c), c.description, NotNewline);
  }

  /** Any reading of the pattern at `c.at` is the one `TryAt` finds:
      for a fixed prefix the match is unique. */
  lemma TryAtFinds(line: string, c: Captures)
    requires IsMatchAt(line, c)
    ensures TryAt(line, c.at) == Some(c)
  {
    var p, q, t, e := c.at, NumberEnd(c), TokenEnd(c), MatchEnd(c);
    NumberScanFollowsMatch(line, c);
    TokenScanFollowsMatch(line, c);
    DescriptionScanFollowsMatch(line, c);
    assert Captures(p, line[p + 1..q], line[q + 4..t], line[t + 2..e]) == c;
    TryAtAccepts(line, p, q, t, e);
  }

  /** `TryAt` on a line where every scan succeeds. */
  lemma TryAtAccepts(line: string, p: nat, q: nat, t: nat, e: nat)
    requires p < |line| && line[p] == ':'
    requires q == SkipWhile(line, p + 1, IsDigit) > p + 1
    requires ColumnZeroAt(line, q)
    requires t == SkipWhile(line, q + 4, NotColon)
    requires t + 1 < |line| && line[t + 1] == ' '
    requires e == SkipWhile(line, t + 2, NotNewline)
    ensures TryAt(line, p) == Some(Captures(p, line[p + 1..q], line[q + 4..t], line[t + 2..e]))
  {
  }

  /** Every reading at `p` is the one `TryAt` finds. */
  lemma TryAtFindsAll(line: string, p: nat)
    ensures forall c: Captures :: c.at == p && IsMatchAt(line, c) ==> TryAt(line, p) == Some(c)
  {
    forall c: Captures | c.at == p && IsMatchAt(line, c) {
      TryAtFinds(line, c);
    }
  }

  /** For a fixed prefix length the pattern can be read in at most one way. */
  lemma ReadingIsUnique(line: string, c1: Captures, c2: Captures)
    requires IsMatchAt(line, c1) && IsMatchAt(line, c2)
    requires c1.at == c2.at
    ensures c1 == c2
  {
    TryAtFinds(line, c1);
    TryAtFinds(line, c2);
  }

  /** The lazy `.*?` tries prefix ends `p`, `p + 1`, ... and stops at the
      first that lets the rest match, or at a line break it cannot cross. */
  function MatchFrom(line: string, p: nat): (r: Option<Captures>)
    requires 2 <= p <= |line|
    requires forall i :: 0 <= i < p ==> line[i] != '\n'
    ensures r.Some? ==> p <= r.value.at && IsMatchAt(line, r.value)
    ensures forall c: Captures :: p <= c.at && IsMatchAt(line, c) ==> r.Some? && r.value.at <= c.at
    decreases |line| - p
  {
    TryAtSound(line, p);
    TryAtFindsAll(line, p);
    if p == |line| then None
    else if TryAt(line, p).Some? then TryAt(line, p)
    else if line[p] == '\n' then None
    else MatchFrom(line, p + 1)
  }

  /** `errorPattern.match(line)`: the reading with the shortest prefix, or
      `None` when the line cannot be read as a diagnostic at all. */
  function Match(line: string): (r: Option<Captures>)
    ensures r.Some? ==> IsMatchAt(line, r.value)
    ensures forall c: Captures :: IsMatchAt(line, c) ==> r.Some? && r.value.at <= c.at
  {
    if 2 <= |line| && line[0] != '\n' && line[1] != '\n' then MatchFrom(line, 2) else None
  }

  /** A reading with no earlier `:` to stop at is the match. */
  lemma MatchIs(line: string, c: Captures)
    requires IsMatchAt(line, c)
    requires forall p :: 2 <= p < c.at ==> line[p] != ':'
    ensures Match(line) == Some(c)
  {
    var r := Match(line).value;
    assert line[r.at] == ':';
    ReadingIsUnique(line, r, c);
  }

  /** The leftmost reading of the pattern is the match. */
  lemma LeftmostReadingIsMatch(line: string, c: Captures)
    requires IsMatchAt(line, c)
    requires forall c': Captures :: IsMatchAt(line, c') ==> c.at <= c'.at
    ensures Match(line) == Some(c)
  {
    ReadingIsUnique(line, Match(line).value, c);
  }

  /** A diagnostic line as the compiler prints it: `prefix`, then
      `:<lineNumber>:0: <token>: <description>`. */
  function Format(prefix: string, lineNumber: string, token: string, description: string): string {
    prefix + (":" + (lineNumber + (":0: " + (token + (": " + description)))))
  }

  /** A text whose tail from `n` is `piece + rest` holds `piece` at `n`
      and `rest` after it. */
  lemma HeadOf(line: string, n: nat, piece: string, rest: string)
    requires n <= |line| && line[n..] == piece + rest
    ensures n + |piece| <= |line|
    ensures line[n..n + |piece|] == piece
    ensures line[n + |piece|..] == rest
  {
    assert line[n..n + |piece|] == line[n..][..|piece|];
    assert line[n + |piece|..] == line[n..][|piece|..];
  }

  /** The line number and the `:0: ` after it, in a line whose tail from
      `c.at` is laid out as the pattern's suffix. */
  lemma NumberFromTail(line: string, c: Captures)
    requires c.at <= |line|
    requires line[c.at..] == ":" + (c.lineNumber + (":0: " + (c.token + (": " + c.description))))
    ensures NumberEnd(c) + 4 <= |line|
    ensures line[c.at] == ':'
    ensures line[c.at + 1..NumberEnd(c)] == c.lineNumber
    ensures ColumnZeroAt(line, NumberEnd(c))
    ensures line[NumberEnd(c) + 4..] == c.token + (": " + c.description)
  {
    HeadOf(line, c.at, ":", c.lineNumber + (":0: " + (c.token + (": " + c.description))));
    assert line[c.at] == line[c.at..c.at + 1][0];
    HeadOf(line, c.at + 1, c.lineNumber, ":0: " + (c.token + (": " + c.description)));
    HeadOf(line, NumberEnd(c), ":0: ", c.token + (": " + c.description));
    assert ColumnZeroAt(line, NumberEnd(c)) by {
      var q := NumberEnd(c);
      var w := line[q..q + 4];
      assert line[q] == w[0] && line[q + 1] == w[1] && line[q + 2] == w[2] && line[q + 3] == w[3];
    }
  }

  /** The token, the `: ` after it and the description, in a line whose
      tail after the `:0: ` is laid out as the rest of the pattern. */
  lemma TokenFromTail(line: string, c: Captures)
    requires NumberEnd(c) + 4 <= |line|
    requires line[NumberEnd(c) + 4..] == c.token + (": " + c.description)
    ensures MatchEnd(c) == |line|
    ensures line[NumberEnd(c) + 4..TokenEnd(c)] == c.token
    ensures ColonSpaceAt(line, TokenEnd(c))
    ensures line[DescriptionStart(c)..] == c.description
  {
    HeadOf(line, NumberEnd(c) + 4, c.token, ": " + c.description);
    HeadOf(line, TokenEnd(c), ": ", c.description);
    assert ColonSpaceAt(line, TokenEnd(c)) by {
      var t := TokenEnd(c);
      var w := line[t..t + 2];
      assert line[t] == w[0] && line[t + 1] == w[1];
    }
  }

  /** A formatted line is a reading of the pattern at the end of its prefix. */
  lemma FormatIsMatchAt(prefix: string, lineNumber: string, token: string, description: string)
    requires |prefix| >= 2
    requires forall i :: 0 <= i < |prefix| ==> prefix[i] != '\n'
    requires |lineNumber| > 0 && AllDigits(lineNumber)
    requires forall i :: 0 <= i < |token| ==> token[i] != ':'
    requires forall i :: 0 <= i < |description| ==> description[i] != '\n'
    ensures IsMatchAt(Format(prefix, lineNumber, token, description), Captures(|prefix|, lineNumber, token, description))
  {
    var line := Format(prefix, lineNumber, token, description);
    var c := Captures(|prefix|, lineNumber, token, description);
    assert line[|prefix|..] == ":" + (lineNumber + (":0: " + (token + (": " + description))));
    NumberFromTail(line, c);
    TokenFromTail(line, c);
    assert line[DescriptionStart(c)..MatchEnd(c)] == description;
    assert forall i :: 0 <= i < |prefix| ==> line[i] == prefix[i];
  }

  /** Formatting then matching gives the pieces back, provided the prefix
      has no line break and no `:` the lazy prefix could stop at earlier,
      the line number is digits, the token has no `:` and the description
      no line break. */
  lemma FormatThenMatch(prefix: string, lineNumber: string, token: string, description: string)
    requires |prefix| >= 2
    requires forall i :: 0 <= i < |prefix| ==> prefix[i] != '\n'
    requires forall i :: 2 <= i < |prefix| ==> prefix[i] != ':'
    requires |lineNumber| > 0 && AllDigits(lineNumber)
    requires forall i :: 0 <= i < |token| ==> token[i] != ':'
    requires forall i :: 0 <= i < |description| ==> description[i] != '\n'
    ensures Match(Format(prefix, lineNumber, token, description)) ==
      Some(Captures(|prefix|, lineNumber, token, description))
  {
    var line := Format(prefix, lineNumber, token, description);
    FormatIsMatchAt(prefix, lineNumber, token, description);
    assert forall i :: 0 <= i < |prefix| ==> line[i] == prefix[i];
    MatchIs(line, Captures(|prefix|, lineNumber, token, description));
  }

  /** A reading that runs to the end of the line is still a reading once
      the line break `readlines()` keeps is appended: `.*` stops before it. */
  lemma ReadingSurvivesBreak(line: string, c: Captures)
    requires IsMatchAt(line, c) && MatchEnd(c) == |line|
    ensures IsMatchAt(line + "\n", c)
  {
    var full := line + "\n";
    assert full[..|line|] == line;
    assert full[c.at + 1..NumberEnd(c)] == line[c.at + 1..NumberEnd(c)];
    assert full[NumberEnd(c) + 4..TokenEnd(c)] == line[NumberEnd(c) + 4..TokenEnd(c)];
    assert full[DescriptionStart(c)..MatchEnd(c)] == line[DescriptionStart(c)..MatchEnd(c)];
  }

  /** The round trip for a line as `readlines()` hands it over, with its
      trailing line break. */
  lemma FormatLineThenMatch(prefix: string, lineNumber: string, token: string, description: string)
    requires |prefix| >= 2
    requires forall i :: 0 <= i < |prefix| ==> prefix[i] != '\n'
    requires forall i :: 2 <= i < |prefix| ==> prefix[i] != ':'
    requires |lineNumber| > 0 && AllDigits(lineNumber)
    requires forall i :: 0 <= i < |token| ==> token[i] != ':'
    requires forall i :: 0 <= i < |description| ==> description[i] != '\n'
    ensures Match(Format(prefix, lineNumber, token, description) + "\n") ==
      Some(Captures(|prefix|, lineNumber, token, description))
  {
    var line := Format(prefix, lineNumber, token, description);
    var c := Captures(|prefix|, lineNumber, token, description);
    FormatIsMatchAt(prefix, lineNumber, token, description);
    ReadingSurvivesBreak(line, c);
    assert forall i :: 0 <= i < |prefix| ==> (line + "\n")[i] == prefix[i];
    MatchIs(line + "\n", c);
  }
}
