/** The error-conversion loop of `ExampleThread.callback`: every
    intermediate error becomes a `GLShaderError` whose region is either the
    first literal occurrence of its token at or after the start of the cited
    line, or that line's region. */
module Resolver {
  import opened Options
  import opened Document
  import opened Parser

  /** `GLShaderError`: the region to outline and the message to show. */
  datatype ShaderError = ShaderError(region: Span, message: string)

  /** Some literal occurrence of `token` begins at or after `start`. */
  ghost predicate OccursFrom(doc: string, token: string, start: nat) {
    exists k: nat :: start <= k && OccursAt(doc, token, k)
  }

  /** One intermediate error's final form. An empty token keeps the line
      region; otherwise the search may land anywhere from the line's start
      to the end of the text, and keeps the line region only when it finds
      nothing. The message is always the description. */
  function Resolve(e: IntermediateError, doc: string): (r: ShaderError)
    ensures r.message == e.description
    ensures |e.token| == 0 ==> r.region == e.location
    ensures |e.token| > 0 && !OccursFrom(doc, e.token, e.location.begin) ==> r.region == e.location
    ensures |e.token| > 0 && OccursFrom(doc, e.token, e.location.begin) ==>
      && e.location.begin <= r.region.begin
      && r.region.end == r.region.begin + |e.token|
      && OccursAt(doc, e.token, r.region.begin)
      && forall k :: e.location.begin <= k < r.region.begin ==> !OccursAt(doc, e.token, k)
    ensures WithinText(doc, e.location) ==> WithinText(doc, r.region)
  {
    var region :=
      if |e.token| > 0 then
        match Find(doc, e.token, e.location.begin)
        case Some(better) => better
        case None => e.location
      else e.location;
    ShaderError(region, e.description)
  }

  /** The whole conversion: one final error per intermediate error, in the
      same order. */
  function ResolveAll(es: seq<IntermediateError>, doc: string): seq<ShaderError> {
    seq(|es|, i requires 0 <= i < |es| => Resolve(es[i], doc))
  }

  /** The loop as the code writes it, appending one converted error per
      intermediate error. */
  method Callback(es: seq<IntermediateError>, doc: string) returns (errors: seq<ShaderError>)
    ensures |errors| == |es|
    ensures forall i :: 0 <= i < |es| ==> errors[i] == Resolve(es[i], doc)
    ensures errors == ResolveAll(es, doc)
  {
    errors := [];
    for i := 0 to |es|
      invariant |errors| == i
      invariant forall j :: 0 <= j < i ==> errors[j] == Resolve(es[j], doc)
    {
      var error := es[i];
      var errorLocation := error.location;
      if |error.token| > 0 {
        var betterLocation := Find(doc, error.token, errorLocation.begin);
        if betterLocation.Some? {
          errorLocation := betterLocation.value;
        }
      }
      errors := errors + [ShaderError(errorLocation, error.description)];
    }
  }

  /** A token that occurs exactly once in the text resolves to that
      occurrence when it lies at or after the start of the cited line; the
      search never looks back, so an occurrence before the line leaves the
      line region. */
  lemma UniqueTokenResolves(e: IntermediateError, doc: string, k: nat)
    requires |e.token| > 0
    requires OccursAt(doc, e.token, k)
    requires forall j: nat :: OccursAt(doc, e.token, j) ==> j == k
    ensures e.location.begin <= k ==> Resolve(e, doc).region == Span(k, k + |e.token|)
    ensures k < e.location.begin ==> Resolve(e, doc).region == e.location
  {
    if e.location.begin <= k {
      assert OccursFrom(doc, e.token, e.location.begin);
    }
  }
}
