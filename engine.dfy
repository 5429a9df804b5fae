/**
 * The anonymizer engine: validates the detected spans against the text,
 * resolves them into a plan, applies the configured operator to each
 * planned span's original text and reconstructs the output right to left.
 */
module Engine {
  import opened Wrappers
  import opened Entities
  import opened Conflicts
  import opened Operators
  import opened TextReplace

  /**
   * An engine. `ahdsAvailable` is the start-up flag saying whether the
   * external surrogate service could be loaded.
   */
  datatype AnonymizerEngine = AnonymizerEngine(ahdsAvailable: bool)
  {
    /** The names of the operators the engine can anonymize with. */
    function GetAnonymizers(): (names: set<string>)
      ensures BuiltInOperators <= names
      ensures SurrogateAhds in names <==> ahdsAvailable
      ensures forall n :: n in names && n != SurrogateAhds ==> n in BuiltInOperators
    {
      OperatorNames(ahdsAvailable)
    }
  }

  /** The first span, in input order, that does not fit the text; none if all fit. */
  function BoundsError(text: string, spans: seq<RecognizerResult>): (e: Option<InvalidParamError>)
    ensures e.None? <==> forall p :: p in spans ==> WithinText(text, p)
    ensures e.Some? ==> exists k :: 0 <= k < |spans| && !WithinText(text, spans[k])
                                    && (forall j :: 0 <= j < k ==> WithinText(text, spans[j]))
                                    && e.value == OutOfBounds(spans[k].start, spans[k].end, |text|)
  {
    if spans == [] then None
    else if !WithinText(text, spans[0]) then Some(OutOfBounds(spans[0].start, spans[0].end, |text|))
    else
      assert forall p :: p in spans <==> p == spans[0] || p in spans[1..];
      BoundsError(text, spans[1..])
  }

  /** The outcome for one planned span: the selected operator applied to the span's original text. */
  function ItemFor(engine: AnonymizerEngine, text: string, operators: map<string, OperatorConfig>,
                   external: ExternalOperators, span: RecognizerResult): (r: Result<OperatorResult, InvalidParamError>)
    requires WithinText(text, span)
    ensures var config := SelectConfig(operators, span.entityType);
      var op := Operate(engine.ahdsAvailable, config, span.entityType, text[span.start..span.end], external);
      && (r.Success? <==> op.Success?)
      && (r.Success? ==> r.value == OperatorResult(span.start, span.end, span.entityType, op.value, config.operatorName)
                         && config.operatorName in engine.GetAnonymizers())
      && (r.Failure? ==> r.error == op.error)
  {
    var config := SelectConfig(operators, span.entityType);
    match Operate(engine.ahdsAvailable, config, span.entityType, text[span.start..span.end], external)
    case Success(replacement) =>
      Success(OperatorResult(span.start, span.end, span.entityType, replacement, config.operatorName))
    case Failure(e) => Failure(e)
  }

  /**
   * Operates on the planned spans from the rightmost to the leftmost; the
   * first failure met aborts the call. Outcomes are listed left to right.
   */
  function OperateAll(engine: AnonymizerEngine, text: string, plan: seq<RecognizerResult>,
                      operators: map<string, OperatorConfig>, external: ExternalOperators)
    : (r: Result<seq<OperatorResult>, InvalidParamError>)
    requires forall i :: 0 <= i < |plan| ==> WithinText(text, plan[i])
    ensures r.Success? ==> |r.value| == |plan|
    decreases |plan|
  {
    if plan == [] then Success([])
    else
      var k := |plan| - 1;
      match ItemFor(engine, text, operators, external, plan[k])
      case Failure(e) => Failure(e)
      case Success(item) =>
        match OperateAll(engine, text, plan[..k], operators, external)
        case Failure(e) => Failure(e)
        case Success(items) => Success(items + [item])
  }

  /**
   * The outcomes succeed exactly when every span's operator succeeds; then
   * outcome i is span i's, and otherwise the error is some span's error.
   */
  lemma {:induction false} OperateAllOutcomes(engine: AnonymizerEngine, text: string, plan: seq<RecognizerResult>,
                                              operators: map<string, OperatorConfig>, external: ExternalOperators)
    requires forall i :: 0 <= i < |plan| ==> WithinText(text, plan[i])
    ensures var r := OperateAll(engine, text, plan, operators, external);
      && (r.Success? <==> forall i :: 0 <= i < |plan| ==> ItemFor(engine, text, operators, external, plan[i]).Success?)
      && (r.Success? ==> forall i :: 0 <= i < |plan| ==> r.value[i] == ItemFor(engine, text, operators, external, plan[i]).value)
      && (r.Failure? ==> exists i :: 0 <= i < |plan| && ItemFor(engine, text, operators, external, plan[i]) == Failure(r.error))
    decreases |plan|
  {
    if plan != [] {
      var k := |plan| - 1;
      var prefix := plan[..k];
      assert forall i :: 0 <= i < k ==> prefix[i] == plan[i];
      OperateAllOutcomes(engine, text, prefix, operators, external);
      var item := ItemFor(engine, text, operators, external, plan[k]);
      var rest := OperateAll(engine, text, prefix, operators, external);
      var r := OperateAll(engine, text, plan, operators, external);
      if item.Failure? {
        assert r == Failure(item.error);
      } else if rest.Failure? {
        assert r == Failure(rest.error);
        var i :| 0 <= i < k && ItemFor(engine, text, operators, external, prefix[i]) == Failure(rest.error);
        assert ItemFor(engine, text, operators, external, plan[i]) == Failure(rest.error);
      } else {
        assert r == Success(rest.value + [item.value]);
        forall i | 0 <= i < |plan|
          ensures ItemFor(engine, text, operators, external, plan[i]).Success?
          ensures r.value[i] == ItemFor(engine, text, operators, external, plan[i]).value
        {
          if i < k {
            assert ItemFor(engine, text, operators, external, prefix[i]).Success?;
          }
        }
      }
    }
  }

  /** A rightmost failure in all but the last span, whose operator succeeds, is the rightmost failure overall. */
  lemma {:induction false} FailureInPrefix(engine: AnonymizerEngine, text: string, plan: seq<RecognizerResult>,
                                           operators: map<string, OperatorConfig>, external: ExternalOperators,
                                           prefix: seq<RecognizerResult>, i: nat, e: InvalidParamError)
    requires forall k :: 0 <= k < |plan| ==> WithinText(text, plan[k])
    requires i + 1 < |plan| && prefix == plan[..|plan| - 1]
    requires ItemFor(engine, text, operators, external, plan[|plan| - 1]).Success?
    requires ItemFor(engine, text, operators, external, prefix[i]) == Failure(e)
    requires forall j :: i < j < |prefix| ==> ItemFor(engine, text, operators, external, prefix[j]).Success?
    ensures ItemFor(engine, text, operators, external, plan[i]) == Failure(e)
    ensures forall j :: i < j < |plan| ==> ItemFor(engine, text, operators, external, plan[j]).Success?
  {
    assert prefix[i] == plan[i];
    forall j | i < j < |plan| ensures ItemFor(engine, text, operators, external, plan[j]).Success? {
      if j < |plan| - 1 {
        assert prefix[j] == plan[j];
      }
    }
  }

  /**
   * Operating stops at the first failure met from the right: the error is
   * that of a span whose operator fails while every span after it succeeds.
   */
  lemma {:induction false} OperateAllFailsRightmost(engine: AnonymizerEngine, text: string, plan: seq<RecognizerResult>,
                                                    operators: map<string, OperatorConfig>, external: ExternalOperators)
    requires forall i :: 0 <= i < |plan| ==> WithinText(text, plan[i])
    ensures var r := OperateAll(engine, text, plan, operators, external);
      r.Failure? ==> exists i :: (0 <= i < |plan| && ItemFor(engine, text, operators, external, plan[i]) == Failure(r.error)
        && forall j :: i < j < |plan| ==> ItemFor(engine, text, operators, external, plan[j]).Success?)
    decreases |plan|
  {
    if plan != [] {
      var k := |plan| - 1;
      var prefix := plan[..k];
      assert forall i :: 0 <= i < k ==> prefix[i] == plan[i];
      OperateAllFailsRightmost(engine, text, prefix, operators, external);
      var item := ItemFor(engine, text, operators, external, plan[k]);
      var rest := OperateAll(engine, text, prefix, operators, external);
      if item.Failure? {
        assert OperateAll(engine, text, plan, operators, external) == Failure(item.error);
      } else if rest.Failure? {
        assert OperateAll(engine, text, plan, operators, external) == Failure(rest.error);
        var i :| 0 <= i < k && ItemFor(engine, text, operators, external, prefix[i]) == Failure(rest.error)
          && forall j :: i < j < k ==> ItemFor(engine, text, operators, external, prefix[j]).Success?;
        FailureInPrefix(engine, text, plan, operators, external, prefix, i, rest.error);
      }
    }
  }

  /** Successful outcomes keep the planned spans' offsets and entity types, in plan order. */
  lemma {:induction false} OperateAllFollowsPlan(engine: AnonymizerEngine, text: string, plan: seq<RecognizerResult>,
                                                 operators: map<string, OperatorConfig>, external: ExternalOperators)
    requires forall i :: 0 <= i < |plan| ==> WithinText(text, plan[i])
    requires OperateAll(engine, text, plan, operators, external).Success?
    ensures var items := OperateAll(engine, text, plan, operators, external).value;
      forall i :: 0 <= i < |plan| ==>
        items[i].start == plan[i].start && items[i].end == plan[i].end && items[i].entityType == plan[i].entityType
  {
    OperateAllOutcomes(engine, text, plan, operators, external);
    var items := OperateAll(engine, text, plan, operators, external).value;
    forall i | 0 <= i < |plan|
      ensures items[i].start == plan[i].start && items[i].end == plan[i].end && items[i].entityType == plan[i].entityType
    {
      assert ItemFor(engine, text, operators, external, plan[i]).Success?;
    }
  }

  /** The replacement texts of a list of outcomes. */
  function Replacements(items: seq<OperatorResult>): (r: seq<string>)
    ensures |r| == |items| && forall i :: 0 <= i < |items| ==> r[i] == items[i].text
  {
    seq(|items|, i requires 0 <= i < |items| => items[i].text)
  }

  /** A resolved plan is a plan the splice can apply. */
  lemma {:induction false} ResolvedIsPlanned(text: string, spans: seq<RecognizerResult>)
    requires forall p :: p in spans ==> WithinText(text, p)
    ensures Planned(text, Resolve(text, spans))
    ensures EndsAscending(Resolve(text, spans))
    ensures forall i :: 0 <= i < |Resolve(text, spans)| ==> WithinText(text, Resolve(text, spans)[i])
  {
    var plan := Resolve(text, spans);
    assert forall i :: 0 <= i < |plan| ==> plan[i] in plan;
  }

  /**
   * anonymize(text, spans, operators): no spans gives the text back; a span
   * outside the text fails with its offsets and the text length; otherwise
   * the plan is operated on and spliced, or the first operator error aborts.
   */
  function Anonymize(engine: AnonymizerEngine, text: string, spans: seq<RecognizerResult>,
                     operators: map<string, OperatorConfig>, external: ExternalOperators)
    : (r: Result<EngineResult, InvalidParamError>)
    ensures spans == [] ==> r == Success(EngineResult(text, []))
  {
    if spans == [] then Success(EngineResult(text, []))
    else match BoundsError(text, spans)
      case Some(e) => Failure(e)
      case None =>
        var plan := Resolve(text, spans);
        ResolvedIsPlanned(text, spans);
        match OperateAll(engine, text, plan, operators, external)
        case Failure(e) => Failure(e)
        case Success(items) => Success(EngineResult(Rendered(text, plan, Replacements(items)), items))
  }

  /**
   * The outcome does not depend on the order of the detections, provided no
   * two of them share a range.
   */
  lemma {:induction false} AnonymizeIgnoresOrder(engine: AnonymizerEngine, text: string,
                                                 a: seq<RecognizerResult>, b: seq<RecognizerResult>,
                                                 operators: map<string, OperatorConfig>, external: ExternalOperators)
    requires forall p :: p in a ==> WithinText(text, p)
    requires multiset(a) == multiset(b) && DistinctRanges(a)
    ensures Anonymize(engine, text, a, operators, external) == Anonymize(engine, text, b, operators, external)
  {
    assert forall p :: p in b ==> p in multiset(b);
    assert forall p :: p in b ==> p in a;
    assert |a| == |multiset(a)| == |multiset(b)| == |b|;
    if a != [] {
      ResolveIgnoresOrder(text, a, b);
    }
  }

  /** A span that does not fit the text fails the call, naming a bad span's offsets and the text length. */
  lemma {:induction false} OutOfBoundsFails(engine: AnonymizerEngine, text: string, spans: seq<RecognizerResult>,
                                            operators: map<string, OperatorConfig>, external: ExternalOperators)
    requires exists p :: p in spans && !WithinText(text, p)
    ensures var r := Anonymize(engine, text, spans, operators, external);
      r.Failure? && exists p :: p in spans && !WithinText(text, p) && r.error == OutOfBounds(p.start, p.end, |text|)
  {
  }

  /** On success the items are the outcomes of operating on the resolved plan. */
  lemma {:induction false} SuccessUnfolds(engine: AnonymizerEngine, text: string, spans: seq<RecognizerResult>,
                                          operators: map<string, OperatorConfig>, external: ExternalOperators)
    requires Anonymize(engine, text, spans, operators, external).Success?
    ensures spans != [] ==>
      && (forall p :: p in spans ==> WithinText(text, p))
      && OperateAll(engine, text, Resolve(text, spans), operators, external)
         == Success(Anonymize(engine, text, spans, operators, external).value.items)
  {
  }

  /** On success the outcomes follow the text left to right without overlapping. */
  lemma {:induction false} SuccessItemsOrdered(engine: AnonymizerEngine, text: string, spans: seq<RecognizerResult>,
                                               operators: map<string, OperatorConfig>, external: ExternalOperators)
    requires Anonymize(engine, text, spans, operators, external).Success?
    ensures var items := Anonymize(engine, text, spans, operators, external).value.items;
      forall i, j :: 0 <= i < j < |items| ==> items[i].start < items[j].start && items[i].end < items[j].end
  {
    SuccessUnfolds(engine, text, spans, operators, external);
    if spans != [] {
      ResolvedIsPlanned(text, spans);
      OperateAllFollowsPlan(engine, text, Resolve(text, spans), operators, external);
    }
  }

  /**
   * On success each outcome lies inside the text, names an operator the
   * registry knows, and holds what the operator selected for its entity type
   * produced from the span's original text.
   */
  lemma {:induction false} SuccessItemsOperated(engine: AnonymizerEngine, text: string, spans: seq<RecognizerResult>,
                                                operators: map<string, OperatorConfig>, external: ExternalOperators,
                                                i: nat)
    requires Anonymize(engine, text, spans, operators, external).Success?
    requires i < |Anonymize(engine, text, spans, operators, external).value.items|
    ensures var item := Anonymize(engine, text, spans, operators, external).value.items[i];
      && item.start < item.end <= |text|
      && item.operatorName in engine.GetAnonymizers()
      && Operate(engine.ahdsAvailable, SelectConfig(operators, item.entityType), item.entityType,
                 text[item.start..item.end], external) == Success(item.text)
  {
    SuccessUnfolds(engine, text, spans, operators, external);
    var plan := Resolve(text, spans);
    ResolvedIsPlanned(text, spans);
    OperateAllOutcomes(engine, text, plan, operators, external);
    assert ItemFor(engine, text, operators, external, plan[i]).Success?;
  }

  /** When every detection selects operator `name`, so does every planned span. */
  lemma {:induction false} PlanSelects(text: string, spans: seq<RecognizerResult>,
                                       operators: map<string, OperatorConfig>, name: string)
    requires forall p :: p in spans ==> WithinText(text, p)
    requires forall p :: p in spans ==> SelectConfig(operators, p.entityType).operatorName == name
    ensures forall i :: 0 <= i < |Resolve(text, spans)| ==>
      SelectConfig(operators, Resolve(text, spans)[i].entityType).operatorName == name
  {
    var plan := Resolve(text, spans);
    ResolveKeepsTypes(text, spans);
    forall i | 0 <= i < |plan| ensures SelectConfig(operators, plan[i].entityType).operatorName == name {
      assert plan[i].entityType in Types(plan);
      var p :| p in spans && p.entityType == plan[i].entityType;
    }
  }

  /** One detection: the text around it is kept and its replacement put in its place, or the operator's error is returned. */
  lemma {:induction false} SingleSpan(engine: AnonymizerEngine, text: string, span: RecognizerResult,
                                      operators: map<string, OperatorConfig>, external: ExternalOperators)
    requires WithinText(text, span)
    ensures var config := SelectConfig(operators, span.entityType);
      var op := Operate(engine.ahdsAvailable, config, span.entityType, text[span.start..span.end], external);
      Anonymize(engine, text, [span], operators, external) ==
        match op
        case Failure(e) => Failure(e)
        case Success(replacement) =>
          Success(EngineResult(text[..span.start] + replacement + text[span.end..],
                               [OperatorResult(span.start, span.end, span.entityType, replacement, config.operatorName)]))
  {
    ResolveSingle(text, span);
    assert BoundsError(text, [span]).None?;
    assert [span][..0] == [];
    var config := SelectConfig(operators, span.entityType);
    var op := Operate(engine.ahdsAvailable, config, span.entityType, text[span.start..span.end], external);
    if op.Success? {
      var item := OperatorResult(span.start, span.end, span.entityType, op.value, config.operatorName);
      assert ItemFor(engine, text, operators, external, span) == Success(item);
      var all := OperateAll(engine, text, [span], operators, external);
      OperateAllOutcomes(engine, text, [span], operators, external);
      assert all.Success? && |all.value| == 1 && all.value[0] == item;
      assert all.value == [item];
      assert Replacements([item]) == [op.value];
      SingleRendered(text, span, op.value);
    } else {
      assert ItemFor(engine, text, operators, external, span) == Failure(op.error);
    }
  }

  /** A plan of one span whose operator succeeds: the replacement takes the span's place. */
  lemma {:induction false} SinglePlanReplaced(engine: AnonymizerEngine, text: string, spans: seq<RecognizerResult>,
                                              operators: map<string, OperatorConfig>, external: ExternalOperators,
                                              span: RecognizerResult, replacement: string)
    requires spans != [] && forall p :: p in spans ==> WithinText(text, p)
    requires Resolve(text, spans) == [span] && WithinText(text, span)
    requires Operate(engine.ahdsAvailable, SelectConfig(operators, span.entityType), span.entityType,
                     text[span.start..span.end], external) == Success(replacement)
    ensures var r := Anonymize(engine, text, spans, operators, external);
      r.Success? && r.value.text == text[..span.start] + replacement + text[span.end..]
  {
    ResolvedIsPlanned(text, spans);
    var all := OperateAll(engine, text, [span], operators, external);
    OperateAllOutcomes(engine, text, [span], operators, external);
    assert ItemFor(engine, text, operators, external, span).Success?;
    assert all.Success? && Replacements(all.value) == [replacement];
    SingleRendered(text, span, replacement);
  }

  /** One detection whose operator succeeds: the replacement takes the detection's place. */
  lemma {:induction false} SingleSpanReplaced(engine: AnonymizerEngine, text: string, span: RecognizerResult,
                                              operators: map<string, OperatorConfig>, external: ExternalOperators,
                                              replacement: string)
    requires WithinText(text, span)
    requires Operate(engine.ahdsAvailable, SelectConfig(operators, span.entityType), span.entityType,
                     text[span.start..span.end], external) == Success(replacement)
    ensures var r := Anonymize(engine, text, [span], operators, external);
      r.Success? && r.value.text == text[..span.start] + replacement + text[span.end..]
  {
    ResolveSingle(text, span);
    SinglePlanReplaced(engine, text, [span], operators, external, span, replacement);
  }

  /**
   * A plan of two spans whose operators succeed: the second replacement
   * follows the first directly when the spans overlap, so the shared text
   * appears in neither the output nor twice.
   */
  lemma {:induction false} TwoPlanReplaced(engine: AnonymizerEngine, text: string, spans: seq<RecognizerResult>,
                                           operators: map<string, OperatorConfig>, external: ExternalOperators,
                                           first: RecognizerResult, second: RecognizerResult,
                                           firstReplacement: string, secondReplacement: string)
    requires spans != [] && forall p :: p in spans ==> WithinText(text, p)
    requires Resolve(text, spans) == [first, second] && WithinText(text, first) && WithinText(text, second)
    requires Operate(engine.ahdsAvailable, SelectConfig(operators, first.entityType), first.entityType,
                     text[first.start..first.end], external) == Success(firstReplacement)
    requires Operate(engine.ahdsAvailable, SelectConfig(operators, second.entityType), second.entityType,
                     text[second.start..second.end], external) == Success(secondReplacement)
    ensures var r := Anonymize(engine, text, spans, operators, external);
      && r.Success?
      && r.value.text == text[..first.start] + firstReplacement + text[Min(first.end, second.start)..second.start]
                         + secondReplacement + text[second.end..]
  {
    var plan := [first, second];
    var replacements := [firstReplacement, secondReplacement];
    ResolvedIsPlanned(text, spans);
    assert OperateAll(engine, text, plan, operators, external).Success? &&
           Replacements(OperateAll(engine, text, plan, operators, external).value) == replacements by {
      OperateAllOutcomes(engine, text, plan, operators, external);
      assert ItemFor(engine, text, operators, external, plan[0]).Success?;
      assert ItemFor(engine, text, operators, external, plan[1]).Success?;
    }
    TwoRendered(text, first, second, firstReplacement, secondReplacement);
  }

  /** Two configurations that pick the same operator for every planned span give the same outcomes. */
  lemma {:induction false} OperateAllAgree(engine: AnonymizerEngine, text: string, plan: seq<RecognizerResult>,
                                           first: map<string, OperatorConfig>, second: map<string, OperatorConfig>,
                                           external: ExternalOperators)
    requires forall i :: 0 <= i < |plan| ==> WithinText(text, plan[i])
    requires forall i :: 0 <= i < |plan| ==> SelectConfig(first, plan[i].entityType) == SelectConfig(second, plan[i].entityType)
    ensures OperateAll(engine, text, plan, first, external) == OperateAll(engine, text, plan, second, external)
    decreases |plan|
  {
    if plan != [] {
      var k := |plan| - 1;
      var prefix := plan[..k];
      assert forall i :: 0 <= i < k ==> prefix[i] == plan[i];
      OperateAllAgree(engine, text, prefix, first, second, external);
      var item := ItemFor(engine, text, first, external, plan[k]);
      assert item == ItemFor(engine, text, second, external, plan[k]);
      var rest := OperateAll(engine, text, prefix, first, external);
      if item.Failure? {
        assert OperateAll(engine, text, plan, first, external) == Failure(item.error);
        assert OperateAll(engine, text, plan, second, external) == Failure(item.error);
      } else if rest.Failure? {
        assert OperateAll(engine, text, plan, first, external) == Failure(rest.error);
        assert OperateAll(engine, text, plan, second, external) == Failure(rest.error);
      } else {
        assert OperateAll(engine, text, plan, first, external) == Success(rest.value + [item.value]);
        assert OperateAll(engine, text, plan, second, external) == Success(rest.value + [item.value]);
      }
    }
  }

  /** The DEFAULT entry is never consulted when every detected entity type has an entry of its own. */
  lemma {:induction false} DefaultUnusedWhenTypesConfigured(engine: AnonymizerEngine, text: string,
                                                            spans: seq<RecognizerResult>,
                                                            operators: map<string, OperatorConfig>,
                                                            default: OperatorConfig, external: ExternalOperators)
    requires forall p :: p in spans ==> p.entityType in operators && p.entityType != DefaultKey
    ensures Anonymize(engine, text, spans, operators, external)
         == Anonymize(engine, text, spans, operators[DefaultKey := default], external)
  {
    if spans != [] && BoundsError(text, spans).None? {
      var plan := Resolve(text, spans);
      ResolvedIsPlanned(text, spans);
      ResolveKeepsTypes(text, spans);
      forall i | 0 <= i < |plan|
        ensures SelectConfig(operators, plan[i].entityType) == SelectConfig(operators[DefaultKey := default], plan[i].entityType)
      {
        assert plan[i].entityType in Types(plan);
        var p :| p in spans && p.entityType == plan[i].entityType;
      }
      OperateAllAgree(engine, text, plan, operators, operators[DefaultKey := default], external);
    }
  }

  /** A non-empty detection list gives a non-empty plan. */
  lemma {:induction false} ResolveNonEmpty(text: string, spans: seq<RecognizerResult>)
    requires forall p :: p in spans ==> WithinText(text, p)
    requires spans != []
    ensures Resolve(text, spans) != []
  {
    ResolveCovers(text, spans, spans[0]);
  }

  /**
   * When every detection selects an operator the registry does not know,
   * the call fails naming that operator.
   */
  lemma {:induction false} UnknownOperatorFails(engine: AnonymizerEngine, text: string, spans: seq<RecognizerResult>,
                                                operators: map<string, OperatorConfig>, external: ExternalOperators,
                                                name: string)
    requires spans != [] && forall p :: p in spans ==> WithinText(text, p)
    requires forall p :: p in spans ==> SelectConfig(operators, p.entityType).operatorName == name
    requires name !in engine.GetAnonymizers()
    ensures Anonymize(engine, text, spans, operators, external) == Failure(InvalidOperator(name))
  {
    var plan := Resolve(text, spans);
    ResolvedIsPlanned(text, spans);
    ResolveNonEmpty(text, spans);
    PlanSelects(text, spans, operators, name);
    OperateAllOutcomes(engine, text, plan, operators, external);
    assert forall i :: 0 <= i < |plan| ==>
      ItemFor(engine, text, operators, external, plan[i]) == Failure(InvalidOperator(name));
  }

  /** Without any configuration every planned span becomes its entity type in angle brackets. */
  lemma {:induction false} NoConfigurationTagsTypes(engine: AnonymizerEngine, text: string, spans: seq<RecognizerResult>,
                                                    external: ExternalOperators)
    requires forall p :: p in spans ==> WithinText(text, p)
    ensures var r := Anonymize(engine, text, spans, map[], external);
      && r.Success?
      && forall i :: 0 <= i < |r.value.items| ==>
           r.value.items[i].text == "<" + r.value.items[i].entityType + ">" && r.value.items[i].operatorName == Replace
  {
    if spans != [] {
      var plan := Resolve(text, spans);
      ResolvedIsPlanned(text, spans);
      OperateAllOutcomes(engine, text, plan, map[], external);
      assert forall i :: 0 <= i < |plan| ==> ItemFor(engine, text, map[], external, plan[i]).Success?;
    }
  }

  /** Keeping every span of a plan whose spans share no character renders the text unchanged. */
  lemma {:induction false} KeepPlan(engine: AnonymizerEngine, text: string, plan: seq<RecognizerResult>,
                                    operators: map<string, OperatorConfig>, external: ExternalOperators)
    requires Planned(text, plan) && NoOverlaps(plan)
    requires forall i :: 0 <= i < |plan| ==> WithinText(text, plan[i])
    requires forall i :: 0 <= i < |plan| ==> SelectConfig(operators, plan[i].entityType).operatorName == Keep
    ensures var r := OperateAll(engine, text, plan, operators, external);
      r.Success? && Rendered(text, plan, Replacements(r.value)) == text
  {
    OperateAllOutcomes(engine, text, plan, operators, external);
    assert forall i :: 0 <= i < |plan| ==> ItemFor(engine, text, operators, external, plan[i]).Success?;
    var items := OperateAll(engine, text, plan, operators, external).value;
    assert forall k :: 0 <= k < |plan| ==> Replacements(items)[k] == text[plan[k].start..plan[k].end];
    KeepRestoresText(text, plan, Replacements(items));
  }

  /**
   * Keeping every detection gives the text back unchanged, provided the
   * detections share no character.
   */
  lemma {:induction false} KeepEverywhere(engine: AnonymizerEngine, text: string, spans: seq<RecognizerResult>,
                                          operators: map<string, OperatorConfig>, external: ExternalOperators)
    requires forall p :: p in spans ==> WithinText(text, p)
    requires NoOverlaps(spans)
    requires forall p :: p in spans ==> SelectConfig(operators, p.entityType).operatorName == Keep
    ensures var r := Anonymize(engine, text, spans, operators, external);
      r.Success? && r.value.text == text
  {
    if spans != [] {
      var plan := Resolve(text, spans);
      ResolvedIsPlanned(text, spans);
      ResolveKeepsNoOverlaps(text, spans);
      PlanSelects(text, spans, operators, Keep);
      KeepPlan(engine, text, plan, operators, external);
    }
  }

  /** Redacting every span of a plan leaves exactly the characters no span covers. */
  lemma {:induction false} RedactPlan(engine: AnonymizerEngine, text: string, plan: seq<RecognizerResult>,
                                      operators: map<string, OperatorConfig>, external: ExternalOperators)
    requires Planned(text, plan) && EndsAscending(plan)
    requires forall i :: 0 <= i < |plan| ==> WithinText(text, plan[i])
    requires forall i :: 0 <= i < |plan| ==> SelectConfig(operators, plan[i].entityType).operatorName == Redact
    ensures var r := OperateAll(engine, text, plan, operators, external);
      r.Success? && Rendered(text, plan, Replacements(r.value)) == Uncovered(text, plan, 0, |text|)
  {
    OperateAllOutcomes(engine, text, plan, operators, external);
    assert forall i :: 0 <= i < |plan| ==> ItemFor(engine, text, operators, external, plan[i]).Success?;
    var items := OperateAll(engine, text, plan, operators, external).value;
    assert forall k :: 0 <= k < |plan| ==> Replacements(items)[k] == [];
    RedactLeavesUncovered(text, plan, Replacements(items));
  }

  /**
   * Redacting every detection leaves exactly the characters outside the
   * plan, in order; the plan covers every detected character.
   */
  lemma {:induction false} RedactEverywhere(engine: AnonymizerEngine, text: string, spans: seq<RecognizerResult>,
                                            operators: map<string, OperatorConfig>, external: ExternalOperators)
    requires forall p :: p in spans ==> WithinText(text, p)
    requires forall p :: p in spans ==> SelectConfig(operators, p.entityType).operatorName == Redact
    ensures var r := Anonymize(engine, text, spans, operators, external);
      r.Success? && r.value.text == Uncovered(text, Resolve(text, spans), 0, |text|)
  {
    var plan := Resolve(text, spans);
    ResolvedIsPlanned(text, spans);
    if spans != [] {
      PlanSelects(text, spans, operators, Redact);
      RedactPlan(engine, text, plan, operators, external);
    } else {
      UncoveredNoneCovered(text, plan, 0, |text|);
    }
  }

  /** Every character of every detection is covered by the plan, so redaction removes it. */
  lemma {:induction false} DetectedCharactersCovered(text: string, spans: seq<RecognizerResult>, y: RecognizerResult, k: nat)
    requires forall p :: p in spans ==> WithinText(text, p)
    requires y in spans && y.start <= k < y.end
    ensures Covered(Resolve(text, spans), k)
  {
    var plan := Resolve(text, spans);
    ResolveCovers(text, spans, y);
    var p :| p in plan && Contains(p, y);
    var i :| 0 <= i < |plan| && plan[i] == p;
  }

  /**
   * The engine's entry point. The caller's span list is only read: its
   * contents are the same after the call.
   */
  method AnonymizeText(engine: AnonymizerEngine, text: string, spans: array<RecognizerResult>,
                       operators: map<string, OperatorConfig>, external: ExternalOperators)
    returns (r: Result<EngineResult, InvalidParamError>)
    ensures r == Anonymize(engine, text, spans[..], operators, external)
    ensures spans[..] == old(spans[..])
  {
    var input := spans[..];
    if |input| == 0 {
      return Success(EngineResult(text, []));
    }
    var bad := BoundsError(text, input);
    if bad.Some? {
      return Failure(bad.value);
    }
    var plan := Resolve(text, input);
    ResolvedIsPlanned(text, input);
    var outcome := OperateAll(engine, text, plan, operators, external);
    if outcome.Failure? {
      return Failure(outcome.error);
    }
    var output := Splice(text, plan, Replacements(outcome.value));
    r := Success(EngineResult(output, outcome.value));
  }
}
