/** One validation pass end to end, without the process and the thread:
    given what the compiler printed and the document's text, what reaches
    the editor. */
module Pipeline {
  import opened Text
  import opened Document
  import opened ErrorPattern
  import opened Parser
  import opened Resolver

  /** What the editor ends up with. A returned list replaces the view's
      errors (after a permission failure it is empty and an error dialog has
      been shown); an exception ends the thread before the callback is
      scheduled, so nothing is delivered. */
  datatype Delivery =
    | Delivered(errors: seq<ShaderError>, deniedNotice: bool)
    | Undelivered(failure: Failure)

  /** `validate_contents` on the document's lines, then `callback`. */
  function Validate(output: seq<string>, doc: string): (r: Delivery)
    ensures r.Undelivered? <==> ParseOutput(output, LineSpans(doc)).Raised?
    ensures ParseOutput(output, LineSpans(doc)).PermissionDenied? <==> r == Delivered([], true)
    ensures r.Delivered? && r.deniedNotice ==>
      r.errors == [] && exists i :: 0 <= i < |output| && ContainsFolded(output[i], DeniedText)
    ensures r.Delivered? ==> |r.errors| <= |output|
    ensures r.Delivered? ==> forall i :: 0 <= i < |r.errors| ==> WithinText(doc, r.errors[i].region)
  {
    var parsed := ParseOutput(output, LineSpans(doc));
    if parsed.Completed? then
      CompletedLocationsAreLines(output, LineSpans(doc));
      assert forall i :: 0 <= i < |parsed.errors| ==> WithinText(doc, parsed.errors[i].location) by {
        forall i | 0 <= i < |parsed.errors|
          ensures WithinText(doc, parsed.errors[i].location)
        {
          assert parsed.errors[i] in parsed.errors;
        }
      }
      Delivered(ResolveAll(parsed.errors, doc), false)
    else if parsed.PermissionDenied? then Delivered([], true)
    else Undelivered(parsed.failure)
  }

  /** Every delivered region lies inside the text, and the errors are the
      parsed ones converted one by one, in order. */
  lemma DeliveredErrorsResolveParsed(output: seq<string>, doc: string)
    requires ParseOutput(output, LineSpans(doc)).Completed?
    ensures var es := ParseOutput(output, LineSpans(doc)).errors;
      && Validate(output, doc) == Delivered(ResolveAll(es, doc), false)
      && |Validate(output, doc).errors| == |es|
      && forall i :: 0 <= i < |es| ==>
           && Validate(output, doc).errors[i].message == es[i].description
           && WithinText(doc, Validate(output, doc).errors[i].region)
  {
    var es := ParseOutput(output, LineSpans(doc)).errors;
    CompletedLocationsAreLines(output, LineSpans(doc));
    forall i | 0 <= i < |es|
      ensures WithinText(doc, es[i].location)
    {
      assert es[i] in es;
    }
  }

  /** An accepted line with an empty token marks exactly the cited line:
      the region covers that whole line and nothing else. */
  lemma EmptyTokenMarksCitedLine(line: string, c: Captures, doc: string)
    requires Accepted(line, c)
    requires |c.token| == 0
    requires 1 <= DecimalValue(c.lineNumber) <= |LineSpans(doc)|
    ensures var sp := LineSpans(doc)[DecimalValue(c.lineNumber) - 1];
      && Validate([line], doc) == Delivered([ShaderError(sp, c.description)], false)
      && IsLineOf(doc, sp)
  {
    AcceptedLineEmits(line, c, LineSpans(doc));
  }

  /** An accepted line with a token marks the first occurrence of the token
      that starts at or after the beginning of the cited line, wherever it
      is, and the cited line only when there is none. */
  lemma TokenMarksFirstOccurrence(line: string, c: Captures, doc: string)
    requires Accepted(line, c)
    requires |c.token| > 0
    requires 1 <= DecimalValue(c.lineNumber) <= |LineSpans(doc)|
    ensures var sp := LineSpans(doc)[DecimalValue(c.lineNumber) - 1];
      && Validate([line], doc).Delivered?
      && |Validate([line], doc).errors| == 1
      && var r := Validate([line], doc).errors[0];
      && r.message == c.description
      && (OccursFrom(doc, c.token, sp.begin) ==>
            && sp.begin <= r.region.begin
            && r.region.end == r.region.begin + |c.token|
            && OccursAt(doc, c.token, r.region.begin)
            && forall k :: sp.begin <= k < r.region.begin ==> !OccursAt(doc, c.token, k))
      && (!OccursFrom(doc, c.token, sp.begin) ==> r.region == sp)
  {
    AcceptedLineEmits(line, c, LineSpans(doc));
  }
}
