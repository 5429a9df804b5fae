/**
 * The values the anonymizer engine consumes and produces: detected spans,
 * operator configurations, per-span outcomes, the engine result and the
 * invalid-parameter error.
 */
module Entities {

  /**
   * A detected entity: its type and the half-open character range
   * [start, end) of the text it covers. The confidence score is not modelled.
   */
  datatype RecognizerResult = RecognizerResult(entityType: string, start: nat, end: nat)

  /** `inner` lies entirely inside `outer`. */
  predicate Contains(outer: RecognizerResult, inner: RecognizerResult)
  {
    outer.start <= inner.start && inner.end <= outer.end
  }

  /** A span the engine accepts for a text: non-empty and ending inside the text. */
  predicate WithinText(text: string, span: RecognizerResult)
  {
    span.start < span.end <= |text|
  }

  /** Spans that pairwise share no character. */
  predicate NoOverlaps(s: seq<RecognizerResult>)
  {
    forall a, b :: a in s && b in s && a != b ==> a.end <= b.start || b.end <= a.start
  }

  /** One value of an operator's parameter dictionary. */
  datatype Param =
    | Text(text: string)
    | Number(number: int)
    | Flag(flag: bool)
    | Callable(apply: string -> string)

  /** An operator name with its parameters, as the caller configures it per entity type. */
  datatype OperatorConfig = OperatorConfig(operatorName: string, params: map<string, Param>)

  /** What replaced what: the span's original offsets, its type, the replacement and the operator. */
  datatype OperatorResult = OperatorResult(
    start: nat, end: nat, entityType: string, text: string, operatorName: string)

  /** The anonymized text and one outcome per applied span, by ascending start. */
  datatype EngineResult = EngineResult(text: string, items: seq<OperatorResult>)

  /** The engine's single error class, carrying the offending values instead of a message. */
  datatype InvalidParamError =
    | OutOfBounds(start: nat, end: nat, textLength: nat)
    | InvalidOperator(operatorName: string)
    | InvalidOperatorParam(operatorName: string, paramName: string)
}
