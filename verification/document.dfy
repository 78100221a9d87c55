/** The editor document as the validator sees it: its text, the regions of
    its lines (`view.lines`) and a literal forward search (`view.find` with
    the LITERAL flag). Offsets count characters from the start of the text. */
module Document {
  import opened Options
  import opened Text

  /** A region of the text, from `begin` up to (not including) `end`. */
  datatype Span = Span(begin: nat, end: nat)

  predicate WithinText(doc: string, sp: Span) {
    sp.begin <= sp.end <= |doc|
  }

  /** `sp` covers one whole line of `doc`: no line break inside, a break or
      the text's edge on either side. */
  predicate IsLineOf(doc: string, sp: Span) {
    && WithinText(doc, sp)
    && (sp.begin == 0 || doc[sp.begin - 1] == '\n')
    && (sp.end == |doc| || doc[sp.end] == '\n')
    && forall k :: sp.begin <= k < sp.end ==> doc[k] != '\n'
  }

  /** `spans` lists, in order, the lines of `doc` from offset `start` on:
      the first begins at `start`, each ends at a line break and the next
      begins right after it, and the last ends with the text. */
  predicate TilesLinesFrom(doc: string, start: nat, spans: seq<Span>) {
    && |spans| >= 1
    && spans[0].begin == start
    && spans[|spans| - 1].end == |doc|
    && (forall i :: 0 <= i < |spans| ==>
          WithinText(doc, spans[i]) && forall k :: spans[i].begin <= k < spans[i].end ==> doc[k] != '\n')
    && (forall i :: 0 <= i < |spans| - 1 ==>
          spans[i].end < |doc| && doc[spans[i].end] == '\n' && spans[i + 1].begin == spans[i].end + 1)
  }

  function LinesFrom(doc: string, start: nat): (spans: seq<Span>)
    requires start <= |doc|
    ensures TilesLinesFrom(doc, start, spans)
    decreases |doc| - start
  {
    var stop := SkipWhile(doc, start, NotNewline);
    if stop == |doc| then [Span(start, stop)]
    else [Span(start, stop)] + LinesFrom(doc, stop + 1)
  }

  /** `view.lines(Region(0, view.size()))`: one region per line, the line
      break excluded; a text ending in a break has a final empty line. */
  function LineSpans(doc: string): (spans: seq<Span>)
    ensures TilesLinesFrom(doc, 0, spans)
    ensures forall i :: 0 <= i < |spans| ==> IsLineOf(doc, spans[i])
  {
    var spans := LinesFrom(doc, 0);
    forall i | 0 <= i < |spans|
      ensures IsLineOf(doc, spans[i])
    {
      if 0 < i {
        assert spans[i].begin == spans[i - 1].end + 1;
      }
    }
    spans
  }

  /** `token` appears literally at offset `k`. */
  predicate OccursAt(doc: string, token: string, k: nat) {
    k + |token| <= |doc| && doc[k..k + |token|] == token
  }

  /** `view.find(token, start, sublime.LITERAL)`: the region of the first
      literal occurrence of `token` that begins at or after `start`, or
      `None` when there is none. */
  function Find(doc: string, token: string, start: nat): (r: Option<Span>)
    ensures r.Some? ==>
      && start <= r.value.begin
      && r.value.end == r.value.begin + |token|
      && OccursAt(doc, token, r.value.begin)
    ensures r.Some? ==> forall k :: start <= k < r.value.begin ==> !OccursAt(doc, token, k)
    ensures r.None? <==> forall k :: start <= k ==> !OccursAt(doc, token, k)
  {
    var at := (k: nat) => OccursAt(doc, token, k);
    assert forall k: nat :: OccursAt(doc, token, k) ==> k < |doc| + 1 && at(k);
    match FirstFrom(start, |doc| + 1, at)
    case None => None
    case Some(k) => Some(Span(k, k + |token|))
  }
}
