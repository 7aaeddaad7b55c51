/**
 * The formatter of JUnitFormatter.kt as a state machine: the class
 * `JUnitFormatter` with its cross-event fields and one method per event
 * handler, and the inner class `TestCase` that records the open case's steps
 * and results. The `testsuite` element is kept as its `testcase` children
 * (`elements`), its `tests` attribute and the attributes set at run finish.
 */
module JUnit {
  import opened Wrappers
  import opened Text
  import opened SourceTree
  import opened JUnitReport
  import DurationFormat

  /** The inner `TestCase`: the open case, its recorded steps and their results. */
  class TestCase {
    const testCase: TestCaseId
    var steps: seq<PickleStep>
    var results: seq<Result>

    constructor (testCase: TestCaseId)
      ensures this.testCase == testCase && steps == [] && results == []
    {
      this.testCase := testCase;
      steps := [];
      results := [];
    }

    /**
     * `addStepAndResultListing`: for each step its keyword and text, dots
     * (at least one) until the line is `LineWidth` UTF-16 units long, the
     * status, "\n".
     */
    method AddStepAndResultListing() returns (sb: string)
      ensures sb == Listing(steps, results)
    {
      sb := "";
      for i := 0 to |steps|
        invariant sb == Listing(steps[..i], results)
      {
        var resultStatus := NotExecuted;
        if i < |results| {
          resultStatus := StatusName(results[i].status);
        }
        sb := AppendStepLine(sb, steps[i], resultStatus);
        ListingLine(steps, results, i);
      }
      assert steps[..|steps|] == steps;
    }

    /**
     * One pass of `addStepAndResultListing`'s loop: the keyword and text,
     * the do-while of dots measured by `sb.length()` from the line's start,
     * then the status and "\n".
     */
    static method AppendStepLine(sb0: string, step: PickleStep, resultStatus: string) returns (sb: string)
      ensures sb == sb0 + StepLine(step, resultStatus)
    {
      sb := sb0;
      var length := Utf16Length(sb);
      sb := sb + step.keyword;
      sb := sb + step.text;
      ghost var head := sb;
      ghost var units := Utf16Length(step.keyword + step.text);
      assert Utf16Length(head) == length + units by {
        assert head == sb0 + (step.keyword + step.text);
        Utf16LengthAppend(sb0, step.keyword + step.text);
      }
      ghost var k: nat := 1;
      sb := sb + ".";
      assert sb == head + Repeat('.', 1) && Utf16Length(sb) == length + units + 1 by {
        PaddedUnits(head, 1);
      }
      while Utf16Length(sb) - length < LineWidth
        invariant sb == head + Repeat('.', k)
        invariant Utf16Length(sb) == length + units + k
        invariant k == 1 || units + k <= LineWidth
        decreases LineWidth - (Utf16Length(sb) - length)
      {
        sb := sb + ".";
        assert sb == head + Repeat('.', k + 1) && Utf16Length(sb) == length + units + k + 1 by {
          DotsSnoc(head, k);
          PaddedUnits(head, k + 1);
        }
        k := k + 1;
      }
      sb := sb + resultStatus;
      sb := sb + "\n";
      StepLineAppended(sb0, step, resultStatus, k);
    }

    /**
     * `addTestCaseElement`: the case's time, then the outcome child built on
     * the step listing, appended to the case's element `tc`.
     */
    method AddTestCaseElement(tc: TestCaseElement, result: Result, lineSeparator: string) returns (tc': TestCaseElement)
      requires lineSeparator != [] && ErrorPresentWhenFailed(result)
      ensures tc' == tc.(time := Some(DurationFormat.FormatSeconds(result.durationMillis)),
                         children := tc.children + [OutcomeChild(Listing(steps, results), result, lineSeparator)])
    {
      var sb := AddStepAndResultListing();
      var child := OutcomeChild(sb, result, lineSeparator);
      tc' := tc.(time := Some(DurationFormat.FormatSeconds(result.durationMillis)), children := tc.children + [child]);
    }

    /** `handleEmptyTestCase`: the case's time and a "no steps" failure, whatever the result. */
    method HandleEmptyTestCase(tc: TestCaseElement, result: Result, lineSeparator: string) returns (tc': TestCaseElement)
      requires lineSeparator != []
      ensures tc'.classname == tc.classname && tc'.name == tc.name
      ensures tc'.time == Some(DurationFormat.FormatSeconds(result.durationMillis))
      ensures tc'.children == tc.children + [Failure(NoStepsMessage, ExceptionType, "")]
    {
      tc' := tc.(time := Some(DurationFormat.FormatSeconds(result.durationMillis)),
                 children := tc.children + [EmptyCaseChild(lineSeparator)]);
    }
  }

  class JUnitFormatter {
    /** `System.lineSeparator()`, fixed for the formatter's lifetime. */
    const lineSeparator: string
    var parsedTestSources: map<Uri, seq<Node>>
    /** The `testcase` children of the `testsuite` element, in the order they were appended. */
    var elements: seq<TestCaseElement>
    /** The `tests` attribute of the `testsuite` element, absent until the first case. */
    var tests: Option<nat>
    /** The other `testsuite` attributes, set when the run finishes. */
    var summary: Option<Summary>
    var testCase: TestCase?
    var currentFeatureFile: Option<Uri>
    var previousTestCaseName: Option<string>
    var exampleNumber: nat
    var started: Option<int>
    var writerClosed: bool

    /**
     * The open case is the one whose element was appended last; `tests`
     * counts the elements; the inner case keeps one result per step.
     */
    ghost predicate Valid()
      reads this, testCase
    {
      && lineSeparator != []
      && (testCase == null <==> elements == [])
      && tests == (if elements == [] then None else Some(|elements|))
      && (testCase != null ==> |testCase.steps| == |testCase.results|)
    }

    function NamingState(): Naming
      reads this
    {
      Naming(currentFeatureFile, previousTestCaseName, exampleNumber)
    }

    constructor (lineSeparator: string)
      requires lineSeparator != []
      ensures Valid()
      ensures this.lineSeparator == lineSeparator
      ensures parsedTestSources == map[] && elements == [] && summary.None? && testCase == null
      ensures NamingState() == Naming(None, None, 0) && started.None? && !writerClosed
    {
      this.lineSeparator := lineSeparator;
      parsedTestSources := map[];
      elements := [];
      tests := None;
      summary := None;
      testCase := null;
      currentFeatureFile := None;
      previousTestCaseName := None;
      exampleNumber := 0;
      started := None;
      writerClosed := false;
    }

    method HandleTestRunStarted(instant: int)
      requires Valid()
      modifies this`started
      ensures Valid() && started == Some(instant)
    {
      started := Some(instant);
    }

    /** Later sources for the same file replace earlier ones. */
    method HandleTestSourceParsed(uri: Uri, nodes: seq<Node>)
      requires Valid()
      modifies this`parsedTestSources
      ensures Valid() && parsedTestSources == old(parsedTestSources)[uri := nodes]
    {
      parsedTestSources := parsedTestSources[uri := nodes];
    }

    /** `increaseTestCount`: the `tests` attribute, 0 when absent, plus one. */
    method IncreaseTestCount()
      modifies this`tests
      ensures tests == Some((if old(tests).Some? then old(tests).value else 0) + 1)
    {
      var value := 0;
      if tests.Some? {
        value := tests.value;
      }
      value := value + 1;
      tests := Some(value);
    }

    /** `findRootNodeName`, searching the first root with the modelled depth-first search. */
    method FindRootNodeName(tc: TestCaseId) returns (name: string)
      ensures name == RootNodeName(parsedTestSources, tc)
    {
      if tc.uri !in parsedTestSources || parsedTestSources[tc.uri] == [] {
        return UnknownClassName;
      }
      var path := FindPathTo(parsedTestSources[tc.uri][0], WithLocation(tc.location));
      if path.Some? && path.value[0].name.Some? {
        name := path.value[0].name.value;
      } else {
        name := UnknownClassName;
      }
    }

    /** `calculateElementName`. */
    method CalculateElementName(tc: TestCaseId) returns (name: string)
      modifies this`previousTestCaseName, this`exampleNumber
      ensures Named(name, NamingState()) == ElementName(old(NamingState()), tc.name)
    {
      if previousTestCaseName == Some(tc.name) {
        exampleNumber := exampleNumber + 1;
        name := UniqueTestName(tc.name, exampleNumber);
      } else {
        previousTestCaseName := Some(tc.name);
        exampleNumber := 1;
        name := tc.name;
      }
    }

    /**
     * `handleTestCaseStarted`: enter the case's file, open a fresh case, and
     * append its element with the classname and display name; `tests` rises by 1.
     */
    method HandleTestCaseStarted(tc: TestCaseId)
      requires Valid()
      modifies this`elements, this`tests, this`testCase, this`currentFeatureFile, this`previousTestCaseName, this`exampleNumber
      ensures Valid()
      ensures fresh(testCase) && testCase.testCase == tc && testCase.steps == [] && testCase.results == []
      ensures var named := NextName(old(NamingState()), tc);
        && elements == old(elements) + [TestCaseElement(RootNodeName(parsedTestSources, tc), named.displayName, None, [])]
        && NamingState() == named.naming
      ensures tests == Some(|old(elements)| + 1)
    {
      if currentFeatureFile.None? || currentFeatureFile.value != tc.uri {
        currentFeatureFile := Some(tc.uri);
        previousTestCaseName := Some("");
        exampleNumber := 1;
      }
      assert NamingState() == EnterFileAsWritten(old(NamingState()), tc.uri);
      testCase := new TestCase(tc);
      var classname := FindRootNodeName(tc);
      var name := CalculateElementName(tc);
      assert Named(name, NamingState()) == NextName(old(NamingState()), tc);
      elements := elements + [TestCaseElement(classname, name, None, [])];
      IncreaseTestCount();
    }

    /**
     * `handleTestStepFinished`: a Gherkin step is recorded with its result, so
     * the case's listing gains that step's line; a hook changes nothing and
     * needs no open case.
     */
    method HandleTestStepFinished(step: TestStep, result: Result)
      requires Valid() && (step.PickleStepTestStep? ==> testCase != null)
      modifies testCase
      ensures Valid()
      ensures step.PickleStepTestStep? ==>
        testCase.steps == old(testCase.steps) + [step.step] && testCase.results == old(testCase.results) + [result]
      ensures step.PickleStepTestStep? ==>
        Listing(testCase.steps, testCase.results)
          == Listing(old(testCase.steps), old(testCase.results)) + StepLine(step.step, StatusName(result.status))
      ensures step.HookTestStep? && testCase != null ==>
        testCase.steps == old(testCase.steps) && testCase.results == old(testCase.results)
    {
      if step.PickleStepTestStep? {
        ghost var steps, results := testCase.steps, testCase.results;
        testCase.steps := testCase.steps + [step.step];
        testCase.results := testCase.results + [result];
        ListingIgnoresLaterResults(steps, results, [result]);
        assert testCase.steps[..|steps|] == steps;
      }
    }

    /**
     * `handleTestCaseFinished`: the open case's element gets its time and one
     * outcome child, a "no steps" failure when no step was recorded.
     */
    method HandleTestCaseFinished(result: Result)
      requires Valid() && testCase != null && (testCase.steps != [] ==> ErrorPresentWhenFailed(result))
      modifies this`elements
      ensures Valid()
      ensures var child := if testCase.steps == [] then Failure(NoStepsMessage, ExceptionType, "")
                           else OutcomeChild(Listing(testCase.steps, testCase.results), result, lineSeparator);
        && elements == DropLast(old(elements)) + [Last(old(elements)).(
             time := Some(DurationFormat.FormatSeconds(result.durationMillis)),
             children := Last(old(elements)).children + [child])]
        && FailureCount(elements) == FailureCount(old(elements)) + (if child.Failure? then 1 else 0)
        && SkippedCount(elements) == SkippedCount(old(elements)) + (if child.Skipped? then 1 else 0)
    {
      var root := Last(elements);
      var root';
      if testCase.steps == [] {
        root' := testCase.HandleEmptyTestCase(root, result, lineSeparator);
      } else {
        root' := testCase.AddTestCaseElement(root, result, lineSeparator);
      }
      CountsOfAppendedChild(elements, root', Last(root'.children));
      elements := DropLast(elements) + [root'];
    }

    /**
     * `handleTestRunFinished`: the `testsuite` gets its name, the number of
     * failure and skipped children, errors 0 and the run's duration; the
     * output is then written and closed.
     */
    method HandleTestRunFinished(finished: int)
      requires Valid() && started.Some?
      modifies this`summary, this`writerClosed
      ensures Valid() && writerClosed
      ensures summary == Some(Summary(FormatterName, FailureCount(elements), SkippedCount(elements), 0,
                                      DurationFormat.FormatSeconds(finished - started.value)))
    {
      summary := Some(Summary(FormatterName, FailureCount(elements), SkippedCount(elements), 0,
                              DurationFormat.FormatSeconds(finished - started.value)));
      writerClosed := true;
    }
  }
}
