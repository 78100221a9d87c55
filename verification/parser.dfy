/** The output-line loop of `ANGLECommandLine.validate_contents`: the lines
    the compiler printed become an ordered list of intermediate errors, each
    tied to the region of the line it cites. */
module Parser {
  import opened Options
  import opened Text
  import opened Document
  import ErrorPattern

  /** `GLIntermediateError`: the 0-based cited line (`-1` when the compiler
      cited line 0), the token and description exactly as captured, and the
      region of the cited line. */
  datatype IntermediateError = IntermediateError(line: int, token: string, description: string, location: Span)

  /** The exceptions the loop can raise; either one ends the worker thread,
      so nothing is returned to the editor. */
  datatype Failure =
    | UnicodeEncode(text: string)            // `str(e)` on a line with a non-ASCII character
    | IndexOutOfRange(line: int, count: nat) // `fileLines[errorLine]` with no such line

  /** What one output line does to the loop. */
  datatype LineStep =
    | Raise(failure: Failure)
    | Abort                                  // "permission denied": `return []`
    | Skip
    | Emit(error: IntermediateError)

  /** How a call of `validate_contents` ends: it returns the collected
      errors, it returns `[]` after reporting a permission failure, or it
      raises. */
  datatype ParseOutcome =
    | Completed(errors: seq<IntermediateError>)
    | PermissionDenied
    | Raised(failure: Failure)

  const DeniedText := "permission denied"
  const CommentMarker := "####"

  /** Python's `xs[i]` on a list: negative indices count from the end, and
      anything outside `-|xs| .. |xs| - 1` raises. */
  function PyIndex<T>(xs: seq<T>, i: int): Option<T> {
    if 0 <= i < |xs| then Some(xs[i])
    else if -|xs| <= i < 0 then Some(xs[|xs| + i])
    else None
  }

  /** The line an accepted diagnostic cites, 0-based: `int(group(1)) - 1`. */
  function CitedIndex(c: ErrorPattern.Captures): int
    requires AllDigits(c.lineNumber)
  {
    DecimalValue(c.lineNumber) - 1
  }

  /** The body of the loop for one decoded output line, in the order the
      code tests things: the `str()` conversion, the permission check, the
      comment check, the pattern, and the lookup of the cited line. */
  function StepLine(line: string, fileLines: seq<Span>): (r: LineStep)
    ensures !IsAscii(line) ==> r == Raise(UnicodeEncode(line))
    ensures IsAscii(line) ==> (r == Abort <==> exists i: nat :: MatchesFoldedAt(line, i, DeniedText))
    ensures r.Skip? <==>
      && IsAscii(line)
      && !(exists i: nat :: MatchesFoldedAt(line, i, DeniedText))
      && (StartsWith(line, CommentMarker) || ErrorPattern.Match(line).None?)
    ensures IsAscii(line) ==> !(r.Raise? && r.failure.UnicodeEncode?)
    ensures r.Emit? || (r.Raise? && r.failure.IndexOutOfRange?) ==>
      && ErrorPattern.Match(line).Some?
      && ErrorPattern.IsMatchAt(line, ErrorPattern.Match(line).value)
    ensures r.Emit? ==>
      && r.error.location in fileLines
      && var c := ErrorPattern.Match(line).value;
      && r.error == IntermediateError(CitedIndex(c), c.token, c.description, r.error.location)
      && PyIndex(fileLines, r.error.line) == Some(r.error.location)
    ensures r.Raise? && r.failure.IndexOutOfRange? ==>
      && r.failure == IndexOutOfRange(CitedIndex(ErrorPattern.Match(line).value), |fileLines|)
      && PyIndex(fileLines, r.failure.line).None?
  {
    if !IsAscii(line) then Raise(UnicodeEncode(line))
    else if ContainsFolded(line, DeniedText) then Abort
    else if StartsWith(line, CommentMarker) then Skip
    else match ErrorPattern.Match(line)
      case None => Skip
      case Some(c) => CapturedStep(c, fileLines)
  }

  /** The step for a line the pattern accepted with captures `c`. */
  function CapturedStep(c: ErrorPattern.Captures, fileLines: seq<Span>): LineStep
    requires AllDigits(c.lineNumber)
  {
    var errorLine := CitedIndex(c);
    match PyIndex(fileLines, errorLine)
    case None => Raise(IndexOutOfRange(errorLine, |fileLines|))
    case Some(location) => Emit(IntermediateError(errorLine, c.token, c.description, location))
  }

  /** Running the rest of the output after a prefix that ended `first`. */
  function Then(first: ParseOutcome, rest: ParseOutcome): ParseOutcome {
    match first
    case Completed(es) =>
      (match rest
       case Completed(more) => Completed(es + more)
       case _ => rest)
    case _ => first
  }

  /** The loop over all output lines: the reference definition, one line
      at a time from the front. */
  function ParseOutput(output: seq<string>, fileLines: seq<Span>): (r: ParseOutcome)
    ensures r.Completed? ==> |r.errors| <= |output|
    ensures r.PermissionDenied? ==> exists i :: 0 <= i < |output| && ContainsFolded(output[i], DeniedText)
    ensures r.Raised? && r.failure.UnicodeEncode? ==> r.failure.text in output && !IsAscii(r.failure.text)
    ensures r.Raised? && r.failure.IndexOutOfRange? ==>
      r.failure.count == |fileLines| && PyIndex(fileLines, r.failure.line).None?
    decreases |output|
  {
    if |output| == 0 then Completed([])
    else
      match StepLine(output[0], fileLines)
      case Raise(f) => Raised(f)
      case Abort => PermissionDenied
      case Skip => ParseOutput(output[1..], fileLines)
      case Emit(e) => Then(Completed([e]), ParseOutput(output[1..], fileLines))
  }

  /** The value `validate_contents` hands back when it returns. */
  function Returned(o: ParseOutcome): seq<IntermediateError>
    requires !o.Raised?
  {
    if o.Completed? then o.errors else []
  }

  /** The loop as the code writes it: one pass over the output, collecting
      into `errors`, leaving early on a permission failure or an exception. */
  method ValidateContents(output: seq<string>, fileLines: seq<Span>) returns (o: ParseOutcome)
    ensures o == ParseOutput(output, fileLines)
  {
    var errors: seq<IntermediateError> := [];
    var i := 0;
    while i < |output|
      invariant 0 <= i <= |output|
      invariant ParseOutput(output, fileLines) == Then(Completed(errors), ParseOutput(output[i..], fileLines))
    {
      var line := output[i];
      if !IsAscii(line) {
        LoopStops(output, i, errors, fileLines);
        return Raised(UnicodeEncode(line));
      }
      if ContainsFolded(line, DeniedText) {
        LoopStops(output, i, errors, fileLines);
        return PermissionDenied;
      }
      if !StartsWith(line, CommentMarker) {
        var details := ErrorPattern.Match(line);
        if details.Some? {
          var errorLine := CitedIndex(details.value);
          var location := PyIndex(fileLines, errorLine);
          if location.None? {
            LoopStops(output, i, errors, fileLines);
            return Raised(IndexOutOfRange(errorLine, |fileLines|));
          }
          var e := IntermediateError(errorLine, details.value.token, details.value.description, location.value);
          LoopCollects(output, i, errors, e, fileLines);
          errors := errors + [e];
        } else {
          LoopSkips(output, i, errors, fileLines);
        }
      } else {
        LoopSkips(output, i, errors, fileLines);
      }
      i := i + 1;
    }
    return Completed(errors);
  }

  /** A line that raises or aborts ends the loop with that outcome,
      whatever was collected before it. */
  lemma LoopStops(output: seq<string>, i: nat, errors: seq<IntermediateError>, fileLines: seq<Span>)
    requires i < |output|
    requires StepLine(output[i], fileLines).Raise? || StepLine(output[i], fileLines).Abort?
    ensures Then(Completed(errors), ParseOutput(output[i..], fileLines)) ==
      if StepLine(output[i], fileLines).Abort? then PermissionDenied else Raised(StepLine(output[i], fileLines).failure)
  {
    assert output[i..][0] == output[i];
  }

  /** A skipped line leaves the collected errors as they are. */
  lemma LoopSkips(output: seq<string>, i: nat, errors: seq<IntermediateError>, fileLines: seq<Span>)
    requires i < |output|
    requires StepLine(output[i], fileLines) == Skip
    ensures Then(Completed(errors), ParseOutput(output[i..], fileLines)) ==
      Then(Completed(errors), ParseOutput(output[i + 1..], fileLines))
  {
    assert output[i..][0] == output[i] && output[i..][1..] == output[i + 1..];
  }

  /** An emitting line appends its error after those collected so far. */
  lemma LoopCollects(output: seq<string>, i: nat, errors: seq<IntermediateError>, e: IntermediateError, fileLines: seq<Span>)
    requires i < |output|
    requires StepLine(output[i], fileLines) == Emit(e)
    ensures Then(Completed(errors), ParseOutput(output[i..], fileLines)) ==
      Then(Completed(errors + [e]), ParseOutput(output[i + 1..], fileLines))
  {
    assert output[i..][0] == output[i] && output[i..][1..] == output[i + 1..];
    ThenAssociates(Completed(errors), Completed([e]), ParseOutput(output[i + 1..], fileLines));
  }

  /** Parsing two pieces of output one after the other is parsing their
      concatenation: every line is handled on its own, in order, and the
      first raise or abort ends the whole parse. */
  lemma {:induction false} ParseAppend(a: seq<string>, b: seq<string>, fileLines: seq<Span>)
    ensures ParseOutput(a + b, fileLines) == Then(ParseOutput(a, fileLines), ParseOutput(b, fileLines))
    decreases |a|
  {
    if |a| == 0 {
      assert a + b == b;
    } else {
      assert (a + b)[0] == a[0];
      assert (a + b)[1..] == a[1..] + b;
      ParseAppend(a[1..], b, fileLines);
      var step := StepLine(a[0], fileLines);
      if step.Emit? {
        ThenAssociates(Completed([step.error]), ParseOutput(a[1..], fileLines), ParseOutput(b, fileLines));
      }
    }
  }

  lemma ThenAssociates(x: ParseOutcome, y: ParseOutcome, z: ParseOutcome)
    ensures Then(Then(x, y), z) == Then(x, Then(y, z))
  {
  }

  /** A line that mentions a permission failure, in any letter case, makes
      the call return `[]`: the errors collected before it are discarded and
      the lines after it are never read, even when the line itself starts
      with the comment marker. */
  lemma DeniedLineAborts(a: seq<string>, line: string, b: seq<string>, fileLines: seq<Span>)
    requires ParseOutput(a, fileLines).Completed?
    requires IsAscii(line)
    requires exists i: nat :: MatchesFoldedAt(line, i, DeniedText)
    ensures ParseOutput(a + [line] + b, fileLines) == PermissionDenied
    ensures Returned(ParseOutput(a + [line] + b, fileLines)) == []
  {
    assert a + [line] + b == a + ([line] + b);
    assert ([line] + b)[0] == line;
    ParseAppend(a, [line] + b, fileLines);
  }

  /** A line that starts with the comment marker contributes nothing. */
  lemma CommentLineIgnored(a: seq<string>, line: string, b: seq<string>, fileLines: seq<Span>)
    requires IsAscii(line)
    requires forall i: nat :: !MatchesFoldedAt(line, i, DeniedText)
    requires StartsWith(line, CommentMarker)
    ensures ParseOutput(a + [line] + b, fileLines) == ParseOutput(a + b, fileLines)
  {
    assert a + [line] + b == a + ([line] + b);
    assert ([line] + b)[0] == line && ([line] + b)[1..] == b;
    ParseAppend(a, [line] + b, fileLines);
    ParseAppend(a, b, fileLines);
  }

  /** A line the pattern cannot read contributes nothing. */
  lemma RejectedLineIgnored(a: seq<string>, line: string, b: seq<string>, fileLines: seq<Span>)
    requires IsAscii(line)
    requires forall i: nat :: !MatchesFoldedAt(line, i, DeniedText)
    requires forall c: ErrorPattern.Captures :: !ErrorPattern.IsMatchAt(line, c)
    ensures ParseOutput(a + [line] + b, fileLines) == ParseOutput(a + b, fileLines)
  {
    assert a + [line] + b == a + ([line] + b);
    assert ([line] + b)[0] == line && ([line] + b)[1..] == b;
    ParseAppend(a, [line] + b, fileLines);
    ParseAppend(a, b, fileLines);
  }

  /** Inputs to the lemmas about one accepted line: an ASCII line with no
      permission failure and no comment marker, which the pattern matches
      with captures `c`. */
  predicate Accepted(line: string, c: ErrorPattern.Captures) {
    && IsAscii(line)
    && !ContainsFolded(line, DeniedText)
    && !StartsWith(line, CommentMarker)
    && AllDigits(c.lineNumber)
    && ErrorPattern.Match(line) == Some(c)
  }

  /** An accepted line that cites line `n` of the document, `1 <= n`,
      yields exactly one error: index `n - 1`, the token and the description
      as captured (no trimming), and the region of that line. */
  lemma AcceptedLineEmits(line: string, c: ErrorPattern.Captures, fileLines: seq<Span>)
    requires Accepted(line, c)
    requires 1 <= DecimalValue(c.lineNumber) <= |fileLines|
    ensures var n := DecimalValue(c.lineNumber);
      ParseOutput([line], fileLines) == Completed([IntermediateError(n - 1, c.token, c.description, fileLines[n - 1])])
  {
    AcceptedStep(line, c, fileLines);
    assert CitedIndex(c) == DecimalValue(c.lineNumber) - 1;
    CapturedInRange(line, c, fileLines);
  }

  /** A line that steps as captures `c` citing a line inside the document
      is looked up, not wrapped, and parses as that one error. */
  lemma CapturedInRange(line: string, c: ErrorPattern.Captures, fileLines: seq<Span>)
    requires AllDigits(c.lineNumber)
    requires StepLine(line, fileLines) == CapturedStep(c, fileLines)
    requires 0 <= CitedIndex(c) < |fileLines|
    ensures ParseOutput([line], fileLines) ==
      Completed([IntermediateError(CitedIndex(c), c.token, c.description, fileLines[CitedIndex(c)])])
  {
    CapturedEmits(c, fileLines);
    SingleEmit(line, IntermediateError(CitedIndex(c), c.token, c.description, fileLines[CitedIndex(c)]), fileLines);
  }

  /** Captures citing line `n`, `1 <= n <= |fileLines|`, step to the
      error at index `n - 1` located at that line's region. */
  lemma CapturedEmits(c: ErrorPattern.Captures, fileLines: seq<Span>)
    requires AllDigits(c.lineNumber)
    requires 0 <= CitedIndex(c) < |fileLines|
    ensures CapturedStep(c, fileLines) ==
      Emit(IntermediateError(CitedIndex(c), c.token, c.description, fileLines[CitedIndex(c)]))
  {
  }

  /** How an accepted line steps: `StepLine` reaches the pattern with
      `c` as its match. */
  lemma AcceptedStep(line: string, c: ErrorPattern.Captures, fileLines: seq<Span>)
    requires Accepted(line, c)
    ensures AllDigits(c.lineNumber) && StepLine(line, fileLines) == CapturedStep(c, fileLines)
  {
  }

  /** Output of a single line that emits `e` parses as exactly `[e]`. */
  lemma SingleEmit(line: string, e: IntermediateError, fileLines: seq<Span>)
    requires StepLine(line, fileLines) == Emit(e)
    ensures ParseOutput([line], fileLines) == Completed([e])
  {
    assert [line][0] == line && [line][1..] == [];
  }

  /** Line 0 is not rejected: index `-1` wraps to the document's last line. */
  lemma CitedLineZeroWraps(line: string, c: ErrorPattern.Captures, fileLines: seq<Span>)
    requires Accepted(line, c)
    requires DecimalValue(c.lineNumber) == 0 && |fileLines| > 0
    ensures ParseOutput([line], fileLines) ==
      Completed([IntermediateError(-1, c.token, c.description, fileLines[|fileLines| - 1])])
  {
    AcceptedStep(line, c, fileLines);
    ZeroCitedWraps(c, fileLines);
    SingleEmit(line, IntermediateError(-1, c.token, c.description, fileLines[|fileLines| - 1]), fileLines);
  }

  /** Captures citing line 0 step to index `-1`, located at the last line. */
  lemma ZeroCitedWraps(c: ErrorPattern.Captures, fileLines: seq<Span>)
    requires AllDigits(c.lineNumber)
    requires CitedIndex(c) == -1 && |fileLines| > 0
    ensures CapturedStep(c, fileLines) ==
      Emit(IntermediateError(-1, c.token, c.description, fileLines[|fileLines| - 1]))
  {
  }

  /** A cited line past the end of the document (or line 0 of a document
      with no lines) is not dropped: the lookup raises, and once the lines
      before it have been handled the whole call ends with that exception. */
  lemma OutOfRangeRaises(a: seq<string>, line: string, b: seq<string>, c: ErrorPattern.Captures, fileLines: seq<Span>)
    requires Accepted(line, c)
    requires DecimalValue(c.lineNumber) > |fileLines| || |fileLines| == 0
    requires ParseOutput(a, fileLines).Completed?
    ensures ParseOutput(a + [line] + b, fileLines) ==
      Raised(IndexOutOfRange(DecimalValue(c.lineNumber) - 1, |fileLines|))
  {
    AcceptedStep(line, c, fileLines);
    assert a + [line] + b == a + ([line] + b);
    assert ([line] + b)[0] == line;
    ParseAppend(a, [line] + b, fileLines);
  }

  /** A completed parse saw no exception and no permission failure, and
      yields at most one error per output line. */
  lemma {:induction false} CompletedSawNoFailure(output: seq<string>, fileLines: seq<Span>)
    requires ParseOutput(output, fileLines).Completed?
    ensures forall i :: 0 <= i < |output| ==> IsAscii(output[i]) && !ContainsFolded(output[i], DeniedText)
    ensures |ParseOutput(output, fileLines).errors| <= |output|
    decreases |output|
  {
    if |output| > 0 {
      CompletedSawNoFailure(output[1..], fileLines);
      forall i | 0 < i < |output|
        ensures IsAscii(output[i]) && !ContainsFolded(output[i], DeniedText)
      {
        assert output[1..][i - 1] == output[i];
      }
    }
  }

  /** Errors are not deduplicated: a line printed twice yields its error
      twice. */
  lemma DuplicatesKept(line: string, e: IntermediateError, fileLines: seq<Span>)
    requires ParseOutput([line], fileLines) == Completed([e])
    ensures ParseOutput([line, line], fileLines) == Completed([e, e])
  {
    assert [line, line] == [line] + [line];
    ParseAppend([line], [line], fileLines);
  }

  /** Every error of a completed parse is located at one of the document's
      line regions. */
  lemma {:induction false} CompletedLocationsAreLines(output: seq<string>, fileLines: seq<Span>)
    requires ParseOutput(output, fileLines).Completed?
    ensures forall e :: e in ParseOutput(output, fileLines).errors ==> e.location in fileLines
    decreases |output|
  {
    if |output| > 0 {
      CompletedLocationsAreLines(output[1..], fileLines);
    }
  }
}
