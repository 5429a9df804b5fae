/**
 * The operator registry, the choice of configuration per entity type and
 * the built-in operators that need no external library.
 */
module Operators {
  import opened Wrappers
  import opened Entities

  const Hash := "hash"
  const Mask := "mask"
  const Redact := "redact"
  const Replace := "replace"
  const Custom := "custom"
  const Keep := "keep"
  const Encrypt := "encrypt"
  /** Registered only when the external health-data surrogate service is available. */
  const SurrogateAhds := "surrogate_ahds"

  /** The configuration key that applies to entity types without an entry of their own. */
  const DefaultKey := "DEFAULT"
  const NewValue := "new_value"
  const Lambda := "lambda"

  const BuiltInOperators: set<string> := {Hash, Mask, Redact, Replace, Custom, Keep, Encrypt}

  /**
   * Operators implemented outside the model (hash, mask, encrypt and the
   * surrogate service): given the operator name, its parameters, the entity
   * type and the original text, they return a replacement or an error.
   */
  type ExternalOperators = (string, map<string, Param>, string, string) -> Result<string, InvalidParamError>

  /** The names the registry answers to. */
  function OperatorNames(ahdsAvailable: bool): (names: set<string>)
    ensures SurrogateAhds in names <==> ahdsAvailable
    ensures BuiltInOperators <= names
    ensures forall n :: n in names && n != SurrogateAhds ==> n in BuiltInOperators
  {
    if ahdsAvailable then BuiltInOperators + {SurrogateAhds} else BuiltInOperators
  }

  /** The registry holds seven built-in operators, plus the surrogate one when it is available. */
  lemma {:induction false} OperatorCount(ahdsAvailable: bool)
    ensures |OperatorNames(ahdsAvailable)| == if ahdsAvailable then 8 else 7
  {
    assert Mask !in {Hash};
    assert Redact !in {Hash, Mask};
    assert Replace !in {Hash, Mask, Redact};
    assert Custom !in {Hash, Mask, Redact, Replace};
    assert Keep !in {Hash, Mask, Redact, Replace, Custom};
    assert Encrypt !in {Hash, Mask, Redact, Replace, Custom, Keep};
    assert SurrogateAhds !in BuiltInOperators;
  }

  /** The fallback when neither the entity type nor DEFAULT is configured. */
  function DefaultOperator(): (config: OperatorConfig)
    ensures config.operatorName in BuiltInOperators && NewValue !in config.params
  {
    OperatorConfig(Replace, map[])
  }

  /** Configuration precedence: the entity type's own entry, else DEFAULT, else the fallback. */
  function SelectConfig(operators: map<string, OperatorConfig>, entityType: string): (config: OperatorConfig)
    ensures entityType in operators ==> config == operators[entityType]
    ensures entityType !in operators && DefaultKey in operators ==> config == operators[DefaultKey]
    ensures entityType !in operators && DefaultKey !in operators ==> config == DefaultOperator()
  {
    if entityType in operators then operators[entityType]
    else if DefaultKey in operators then operators[DefaultKey]
    else DefaultOperator()
  }

  /** `replace`: the configured new value, or the entity type in angle brackets. */
  function ReplaceText(params: map<string, Param>, entityType: string): (r: Result<string, InvalidParamError>)
    ensures NewValue !in params ==> r == Success("<" + entityType + ">")
    ensures NewValue in params && params[NewValue].Text? ==> r == Success(params[NewValue].text)
    ensures NewValue in params && !params[NewValue].Text? ==> r == Failure(InvalidOperatorParam(Replace, NewValue))
  {
    if NewValue !in params then Success("<" + entityType + ">")
    else match params[NewValue]
      case Text(value) => Success(value)
      case _ => Failure(InvalidOperatorParam(Replace, NewValue))
  }

  /** `custom`: the caller's function applied to the original text. */
  function CustomText(params: map<string, Param>, original: string): (r: Result<string, InvalidParamError>)
    ensures r.Success? <==> Lambda in params && params[Lambda].Callable?
    ensures r.Success? ==> r.value == params[Lambda].apply(original)
    ensures r.Failure? ==> r.error == InvalidOperatorParam(Custom, Lambda)
  {
    if Lambda in params && params[Lambda].Callable? then Success(params[Lambda].apply(original))
    else Failure(InvalidOperatorParam(Custom, Lambda))
  }

  /**
   * The replacement for one span: the configured operator applied to the
   * span's original text. A name outside the registry is rejected.
   */
  function Operate(ahdsAvailable: bool, config: OperatorConfig, entityType: string, original: string,
                   external: ExternalOperators): (r: Result<string, InvalidParamError>)
    ensures config.operatorName !in OperatorNames(ahdsAvailable) ==>
      r == Failure(InvalidOperator(config.operatorName))
    ensures config.operatorName == Redact ==> r == Success("")
    ensures config.operatorName == Keep ==> r == Success(original)
    ensures config.operatorName == Replace ==> r == ReplaceText(config.params, entityType)
    ensures config.operatorName == Custom ==> r == CustomText(config.params, original)
  {
    var name := config.operatorName;
    if name !in OperatorNames(ahdsAvailable) then Failure(InvalidOperator(name))
    else if name == Redact then Success("")
    else if name == Keep then Success(original)
    else if name == Replace then ReplaceText(config.params, entityType)
    else if name == Custom then CustomText(config.params, original)
    else external(name, config.params, entityType, original)
  }

  /** The fallback operator turns any detection into its entity type in angle brackets. */
  lemma {:induction false} DefaultTagsType(ahdsAvailable: bool, entityType: string, original: string,
                                           external: ExternalOperators)
    ensures Operate(ahdsAvailable, DefaultOperator(), entityType, original, external) == Success("<" + entityType + ">")
  {
  }
}
