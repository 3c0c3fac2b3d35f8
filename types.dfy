/**
 * Constants and variants shared by the graph builder and the resolver
 * (src/declarations/types.ts), plus the errors the two of them throw.
 */
module Types {
  import opened Wrappers

  /** The kinds of span a Mustache token list can hold. */
  datatype SpanType =
    | RawValue
    | EscapedValue
    | UnescapedValue
    | Section
    | Inverted
    | Comment
    | Partial
    | Equal

  /** The code by which a token announces its kind. */
  function Code(t: SpanType): string
  {
    match t
    case RawValue => "text"
    case EscapedValue => "name"
    case UnescapedValue => "&"
    case Section => "#"
    case Inverted => "^"
    case Comment => "!"
    case Partial => ">"
    case Equal => "="
  }

  /** The kind a token code stands for; codes outside the eight are unknown. */
  function SpanTypeOf(code: string): Option<SpanType>
  {
    if code == "text" then Some(RawValue)
    else if code == "name" then Some(EscapedValue)
    else if code == "&" then Some(UnescapedValue)
    else if code == "#" then Some(Section)
    else if code == "^" then Some(Inverted)
    else if code == "!" then Some(Comment)
    else if code == ">" then Some(Partial)
    else if code == "=" then Some(Equal)
    else None
  }

  /** Only the eight codes have a kind, and each names the kind it is read as. */
  lemma SpanTypeOfCode(code: string)
    ensures SpanTypeOf(code).Some? ==> Code(SpanTypeOf(code).value) == code
  {
  }

  /** Reading a code back gives the kind it was written for. */
  lemma CodeRoundTrip(t: SpanType)
    ensures SpanTypeOf(Code(t)) == Some(t)
  {
  }

  /** The eight codes are pairwise distinct. */
  lemma CodesDistinct(a: SpanType, b: SpanType)
    ensures Code(a) == Code(b) ==> a == b
  {
    CodeRoundTrip(a);
    CodeRoundTrip(b);
  }

  /** A node of the structure graph: exactly three variants, each with an id and a property key. */
  datatype ParserNode =
    | TemplateNode(id: string, propertyKey: string)
    | ValueNode(id: string, propertyKey: string)
    | SectionNode(id: string, propertyKey: string)

  /** The error thrown when a switch meets a variant it does not handle. */
  datatype ExhaustiveCheckError<T> = ExhaustiveCheckError(message: string, instance: T)
  {
    const isUnexpected: bool := true
  }

  /**
   * Never returns normally: the outcome is always the thrown error, carrying
   * the offending value. Dafny's `match` is checked for exhaustiveness when
   * the model is verified, so no part of the model ever calls this.
   */
  function AssertExhaustiveCheck<T>(x: T): (r: Result<(), ExhaustiveCheckError<T>>)
    ensures r.Failure? && r.error.instance == x && r.error.isUnexpected
  {
    Failure(ExhaustiveCheckError("Variation unhandled", x))
  }

  /** The errors the graph builder and the resolver throw. */
  datatype Failure =
    | MissingSpans
    | UpperFirstOfEmpty
    | UnknownTemplate(name: string)

  /** The message each error carries. */
  function Message(f: Failure): string
  {
    match f
    case MissingSpans => "Missing spans for section"
    case UpperFirstOfEmpty => "Cannot read properties of undefined (reading 'toUpperCase')"
    case UnknownTemplate(name) => "Unknown template: " + name
  }
}
