/**
 * The engine's documented behaviour on concrete inputs, one lemma per case
 * of the engine's test suite. Each holds for both settings of the
 * surrogate-service flag and for any implementation of the operators that
 * live outside the model.
 */
module EngineTests {
  import opened Wrappers
  import opened Entities
  import opened Conflicts
  import opened Operators
  import opened TextReplace
  import opened Engine

  /** The registry lists the seven built-in operators, and the surrogate one exactly when it loaded. */
  lemma RegistryContents(engine: AnonymizerEngine)
    ensures !engine.ahdsAvailable ==>
      engine.GetAnonymizers() == {"hash", "mask", "redact", "replace", "custom", "keep", "encrypt"}
    ensures engine.ahdsAvailable ==>
      engine.GetAnonymizers() == {"hash", "mask", "redact", "replace", "custom", "keep", "encrypt", "surrogate_ahds"}
  {
  }

  /** No detections: the text comes back as it was. */
  lemma EmptySpansGiveTextBack(engine: AnonymizerEngine, external: ExternalOperators)
    ensures Anonymize(engine, "one two three", [], map[], external) == Success(EngineResult("one two three", []))
  {
  }

  /** No configuration at all (an absent or empty operator map): the entity type in angle brackets. */
  lemma EmptyConfigurationFallsBackToTypeTag(engine: AnonymizerEngine, external: ExternalOperators)
    ensures var r := Anonymize(engine, "please REPLACE ME.", [RecognizerResult("SSN", 7, 17)], map[], external);
      r.Success? && r.value.text == "please <SSN>."
  {
    var text := "please REPLACE ME.";
    assert text[..7] + "<SSN>" + text[17..] == "please <SSN>.";
    assert "<" + "SSN" + ">" == "<SSN>";
    SingleSpanReplaced(engine, text, RecognizerResult("SSN", 7, 17), map[], external, "<SSN>");
  }

  /** The text of the overlap case, written as the pieces its two detections cut out. */
  function OverlapText(): string
  {
    "Fake card number " + "4151 3217 6243 " + "3448" + ".com" + " that overlaps with nonexisting URL."
  }

  /** The overlap case's configuration: DEFAULT wraps each detection's text in an ENTITY tag. */
  function OverlapOperators(): map<string, OperatorConfig>
  {
    map["DEFAULT" := OperatorConfig("custom", map["lambda" := Callable((x: string) => "<ENTITY: " + x + ">")])]
  }

  /** Slicing a concatenation of five pieces at the pieces' borders. */
  lemma FiveParts(a: string, b: string, c: string, d: string, e: string)
    ensures var t := a + b + c + d + e;
      && t[..|a|] == a
      && t[|a|..|a| + |b| + |c|] == b + c
      && t[|a| + |b|..|a| + |b| + |c| + |d|] == c + d
      && t[|a| + |b| + |c| + |d|..] == e
  {
    var t := a + b + c + d + e;
    assert t[..|a|] == a;
    assert t[|a|..|a| + |b| + |c|] == b + c;
    assert t[|a| + |b|..|a| + |b| + |c| + |d|] == c + d;
  }

  /** The pieces of the overlap case's text that the engine reads. */
  lemma OverlapSlices()
    ensures |OverlapText()| == 76
    ensures OverlapText()[..17] == "Fake card number "
    ensures OverlapText()[17..36] == "4151 3217 6243 3448"
    ensures OverlapText()[32..40] == "3448.com"
    ensures OverlapText()[40..] == " that overlaps with nonexisting URL."
  {
    FiveParts("Fake card number ", "4151 3217 6243 ", "3448", ".com", " that overlaps with nonexisting URL.");
    assert |"Fake card number "| == 17 && |"4151 3217 6243 "| == 15;
    assert "4151 3217 6243 " + "3448" == "4151 3217 6243 3448";
    assert "3448" + ".com" == "3448.com";
  }

  /** The plan for a card number partially overlapped by a URL keeps both detections. */
  lemma OverlapPlan()
    ensures |OverlapText()| == 76
    ensures Resolve(OverlapText(), [RecognizerResult("CREDIT_CARD", 17, 36), RecognizerResult("URL", 32, 40)])
         == [RecognizerResult("CREDIT_CARD", 17, 36), RecognizerResult("URL", 32, 40)]
  {
    OverlapSlices();
    var card, url := RecognizerResult("CREDIT_CARD", 17, 36), RecognizerResult("URL", 32, 40);
    assert [card, url][1..] == [url] && [url][1..] == [];
    assert SortSpans([url]) == [url];
    assert SortSpans([card, url]) == [card, url];
    assert DropContained([url], Some(card)) == [url] + DropContained([], Some(url));
    assert DropContained([card, url], None) == [card, url];
  }

  /** The custom function of the overlap case applied to each detection's text. */
  lemma OverlapReplacements(engine: AnonymizerEngine, external: ExternalOperators)
    ensures |OverlapText()| == 76
    ensures var operators := OverlapOperators();
      && Operate(engine.ahdsAvailable, SelectConfig(operators, "CREDIT_CARD"), "CREDIT_CARD", OverlapText()[17..36],
                 external) == Success("<ENTITY: 4151 3217 6243 3448>")
      && Operate(engine.ahdsAvailable, SelectConfig(operators, "URL"), "URL", OverlapText()[32..40], external)
         == Success("<ENTITY: 3448.com>")
  {
    OverlapSlices();
    assert "<ENTITY: " + "4151 3217 6243 3448" + ">" == "<ENTITY: 4151 3217 6243 3448>";
    assert "<ENTITY: " + "3448.com" + ">" == "<ENTITY: 3448.com>";
  }

  /**
   * A custom operator configured as DEFAULT is applied to both of two
   * partially overlapping detections of different types; the overlap is
   * not repeated between the two replacements.
   */
  lemma CustomOperatorOnOverlap(engine: AnonymizerEngine, external: ExternalOperators)
    ensures var r := Anonymize(engine, OverlapText(),
                               [RecognizerResult("CREDIT_CARD", 17, 36), RecognizerResult("URL", 32, 40)],
                               OverlapOperators(), external);
      r.Success? &&
      r.value.text == "Fake card number " + "<ENTITY: 4151 3217 6243 3448>" + "<ENTITY: 3448.com>"
                      + " that overlaps with nonexisting URL."
  {
    var text := OverlapText();
    var first, second := "<ENTITY: 4151 3217 6243 3448>", "<ENTITY: 3448.com>";
    assert text[..17] + first + text[Min(36, 32)..32] + second + text[40..]
        == "Fake card number " + first + second + " that overlaps with nonexisting URL." by {
      OverlapSlices();
      assert text[Min(36, 32)..32] == [];
    }
    var operators := OverlapOperators();
    var card, url := RecognizerResult("CREDIT_CARD", 17, 36), RecognizerResult("URL", 32, 40);
    OverlapReplacements(engine, external);
    OverlapPlan();
    TwoPlanReplaced(engine, text, [card, url], operators, external, card, url, first, second);
  }

  /** A DEFAULT replace configuration applies to a type without its own entry. */
  lemma DefaultConfigurationUsed(engine: AnonymizerEngine, external: ExternalOperators)
    ensures var r := Anonymize(engine, "please REPLACE ME.", [RecognizerResult("SSN", 7, 17)],
                               map["DEFAULT" := OperatorConfig("replace", map["new_value" := Text("and thank you")])],
                               external);
      r.Success? && r.value.text == "please and thank you."
  {
    var text := "please REPLACE ME.";
    assert text[..7] + "and thank you" + text[17..] == "please and thank you.";
    var operators := map["DEFAULT" := OperatorConfig("replace", map["new_value" := Text("and thank you")])];
    SingleSpanReplaced(engine, text, RecognizerResult("SSN", 7, 17), operators, external, "and thank you");
  }

  /** The type's own entry takes precedence over DEFAULT. */
  lemma SpecificConfigurationWins(engine: AnonymizerEngine, external: ExternalOperators)
    ensures var r := Anonymize(engine, "please REPLACE ME.", [RecognizerResult("SSN", 7, 17)],
                               map["DEFAULT" := OperatorConfig("replace", map["new_value" := Text("and thank you")]),
                                   "SSN" := OperatorConfig("redact", map[])],
                               external);
      r.Success? && r.value.text == "please ."
  {
    var text := "please REPLACE ME.";
    assert text[..7] + "" + text[17..] == "please .";
    var operators := map["DEFAULT" := OperatorConfig("replace", map["new_value" := Text("and thank you")]),
                         "SSN" := OperatorConfig("redact", map[])];
    SingleSpanReplaced(engine, text, RecognizerResult("SSN", 7, 17), operators, external, "");
  }

  /** A span reaching past the end of the text fails with its offsets and the text length. */
  lemma SpanPastEndFails(engine: AnonymizerEngine, external: ExternalOperators)
    ensures Anonymize(engine, "hello world", [RecognizerResult("type", 5, 12)], map[], external)
         == Failure(OutOfBounds(5, 12, 11))
    ensures Anonymize(engine, "hello world", [RecognizerResult("type", 12, 16)], map[], external)
         == Failure(OutOfBounds(12, 16, 11))
  {
  }

  /** An operator name outside the registry fails the call naming it. */
  lemma UnknownOperatorNamed(engine: AnonymizerEngine, external: ExternalOperators)
    ensures Anonymize(engine, "this is my text", [RecognizerResult("number", 0, 4)],
                      map["number" := OperatorConfig("fake", map[])], external)
         == Failure(InvalidOperator("fake"))
  {
    assert "fake" !in engine.GetAnonymizers();
    UnknownOperatorFails(engine, "this is my text", [RecognizerResult("number", 0, 4)],
                         map["number" := OperatorConfig("fake", map[])], external, "fake");
  }

  /** The caller's list of detections reads the same after the call as before it. */
  method InputNotMutated(engine: AnonymizerEngine, external: ExternalOperators)
    returns (before: seq<RecognizerResult>, after: seq<RecognizerResult>)
    ensures before == after == [RecognizerResult("PERSON", 0, 4), RecognizerResult("PERSON", 5, 8)]
  {
    var spans := new RecognizerResult[2];
    spans[0], spans[1] := RecognizerResult("PERSON", 0, 4), RecognizerResult("PERSON", 5, 8);
    before := spans[..];
    var r := AnonymizeText(engine, "Jane Doe is a person", spans, map[], external);
    after := spans[..];
  }

  /** Sorting puts the earlier of two person detections first. */
  lemma UnsortedSorted()
    ensures SortSpans([RecognizerResult("PERSON", 5, 8), RecognizerResult("PERSON", 0, 4)])
         == [RecognizerResult("PERSON", 0, 4), RecognizerResult("PERSON", 5, 8)]
  {
    var jane, doe := RecognizerResult("PERSON", 0, 4), RecognizerResult("PERSON", 5, 8);
    assert [doe, jane][1..] == [jane] && [jane][1..] == [];
    assert SortSpans([jane]) == [jane];
    assert Insert(doe, [jane]) == [jane] + Insert(doe, []);
  }

  /** Two person detections one space apart merge into one span. */
  lemma UnsortedMerged()
    ensures MergeBlankGaps("Jane Doe is a person", [RecognizerResult("PERSON", 0, 4), RecognizerResult("PERSON", 5, 8)])
         == [RecognizerResult("PERSON", 0, 8)]
  {
    var text := "Jane Doe is a person";
    var jane, doe := RecognizerResult("PERSON", 0, 4), RecognizerResult("PERSON", 5, 8);
    assert Joinable(text, jane, doe) by {
      assert text[4..5] == " ";
    }
    assert [jane, doe][1..] == [doe] && [doe][1..] == [];
    assert MergeBlankGaps(text, [doe]) == [doe];
  }

  /** Two person detections given out of order, one space apart, become one planned span. */
  lemma UnsortedPlan()
    ensures Resolve("Jane Doe is a person", [RecognizerResult("PERSON", 5, 8), RecognizerResult("PERSON", 0, 4)])
         == [RecognizerResult("PERSON", 0, 8)]
  {
    var jane, doe := RecognizerResult("PERSON", 0, 4), RecognizerResult("PERSON", 5, 8);
    UnsortedSorted();
    assert DropContained([jane, doe], None) == [jane, doe] by {
      assert [jane, doe][1..] == [doe] && [doe][1..] == [];
      assert DropContained([doe], Some(jane)) == [doe] + DropContained([], Some(doe));
    }
    UnsortedMerged();
  }

  /** Detections given out of order are sorted, and same-type neighbours across a space merged. */
  lemma UnsortedInputMerged(engine: AnonymizerEngine, external: ExternalOperators)
    ensures var r := Anonymize(engine, "Jane Doe is a person",
                               [RecognizerResult("PERSON", 5, 8), RecognizerResult("PERSON", 0, 4)], map[], external);
      r.Success? && r.value.text == "<PERSON> is a person"
  {
    var text := "Jane Doe is a person";
    assert text[..0] + "<PERSON>" + text[8..] == "<PERSON> is a person";
    assert "<" + "PERSON" + ">" == "<PERSON>";
    var spans := [RecognizerResult("PERSON", 5, 8), RecognizerResult("PERSON", 0, 4)];
    UnsortedPlan();
    SinglePlanReplaced(engine, text, spans, map[], external, RecognizerResult("PERSON", 0, 8), "<PERSON>");
  }

  /** At a shared start the longer location detection sorts before the person detection. */
  lemma ContainedSorted()
    ensures SortSpans([RecognizerResult("PERSON", 4, 21), RecognizerResult("LOCATION", 4, 33)])
         == [RecognizerResult("LOCATION", 4, 33), RecognizerResult("PERSON", 4, 21)]
  {
    var person, location := RecognizerResult("PERSON", 4, 21), RecognizerResult("LOCATION", 4, 33);
    assert [person, location][1..] == [location] && [location][1..] == [];
    assert SortSpans([location]) == [location];
  }

  /** A person detection inside a location detection is dropped from the plan. */
  lemma ContainedPlan()
    ensures Resolve("I'm George Washington Square Park.",
                    [RecognizerResult("PERSON", 4, 21), RecognizerResult("LOCATION", 4, 33)])
         == [RecognizerResult("LOCATION", 4, 33)]
  {
    var person, location := RecognizerResult("PERSON", 4, 21), RecognizerResult("LOCATION", 4, 33);
    ContainedSorted();
    assert DropContained([location, person], None) == [location] by {
      assert [location, person][1..] == [person] && [person][1..] == [];
      assert DropContained([person], Some(location)) == DropContained([], Some(location));
    }
    assert MergeBlankGaps("I'm George Washington Square Park.", [location]) == [location] by {
      assert [location][1..] == [];
    }
  }

  /** A detection inside another one is dropped; the enclosing one is replaced. */
  lemma ContainedDetectionDropped(engine: AnonymizerEngine, external: ExternalOperators)
    ensures var r := Anonymize(engine, "I'm George Washington Square Park.",
                               [RecognizerResult("PERSON", 4, 21), RecognizerResult("LOCATION", 4, 33)], map[], external);
      r.Success? && r.value.text == "I'm <LOCATION>."
  {
    var text := "I'm George Washington Square Park.";
    assert text[..4] + "<LOCATION>" + text[33..] == "I'm <LOCATION>.";
    assert "<" + "LOCATION" + ">" == "<LOCATION>";
    var spans := [RecognizerResult("PERSON", 4, 21), RecognizerResult("LOCATION", 4, 33)];
    ContainedPlan();
    SinglePlanReplaced(engine, text, spans, map[], external, RecognizerResult("LOCATION", 4, 33), "<LOCATION>");
  }
}
