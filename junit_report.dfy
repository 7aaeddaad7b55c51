/**
 * The value-level rules of JUnitFormatter.kt: the report records that replace
 * the XML DOM, display-name disambiguation, the classname rule, the padded
 * step listing, line-end normalisation, the choice of the outcome child and
 * the run totals. The stateful handlers that use them are in junit_formatter.dfy.
 */
module JUnitReport {
  import opened Wrappers
  import opened Text
  import opened SourceTree
  import Decimal

  type Uri = string

  /** The identity of one executed test case (one pickle). */
  datatype TestCaseId = TestCaseId(uri: Uri, location: Location, name: string)

  datatype Status = PASSED | SKIPPED | PENDING | UNDEFINED | AMBIGUOUS | FAILED | UNUSED

  /** `status.name().toLowerCase(ROOT)`. */
  function StatusName(s: Status): (r: string)
    ensures r != [] && forall i :: 0 <= i < |r| ==> 'a' <= r[i] <= 'z'
  {
    match s
    case PASSED => "passed"
    case SKIPPED => "skipped"
    case PENDING => "pending"
    case UNDEFINED => "undefined"
    case AMBIGUOUS => "ambiguous"
    case FAILED => "failed"
    case UNUSED => "unused"
  }

  /** Each status has a name of its own. */
  lemma StatusNamesDistinct(a: Status, b: Status)
    ensures StatusName(a) == StatusName(b) ==> a == b
  {
  }

  /**
   * A throwable as the report sees it: `getMessage()`, `getClass().getName()`
   * and the text `printStackTrace` renders.
   */
  datatype Error = Error(message: string, typeName: string, stackTrace: string)

  /** A step or case result; the duration is in whole milliseconds. */
  datatype Result = Result(status: Status, durationMillis: int, error: Option<Error>)

  /** A `PickleStepTestStep`: the step's keyword and its text. */
  datatype PickleStep = PickleStep(keyword: string, text: string)

  /** The test steps a case runs: Gherkin steps, and hooks, which the report ignores. */
  datatype TestStep = PickleStepTestStep(step: PickleStep) | HookTestStep

  /** The content children of a `testcase` element; `text` is its character data. */
  datatype Child =
    | Failure(message: string, typeName: string, text: string)
    | Skipped(message: string, text: string)
    | SystemOut(text: string)

  /** A `testcase` element: its attributes and the children appended to it. */
  datatype TestCaseElement = TestCaseElement(classname: string, name: string, time: Option<string>, children: seq<Child>)

  /** The attributes the run-finished handler sets on the `testsuite` element. */
  datatype Summary = Summary(name: string, failures: nat, skipped: nat, errors: nat, time: string)

  const FormatterName := "io.cucumber.core.plugin.JUnitFormatter"
  const ExceptionType := "java.lang.Exception"
  const UnknownClassName := "Unknown"
  const NoStepsMessage := "The scenario has no steps"
  const PendingMessage := "The scenario has pending or undefined step(s)"
  const NotExecuted := "not executed"
  const LineWidth: nat := 76

  // ---------------------------------------------------------------------------
  // Display names
  // ---------------------------------------------------------------------------

  /**
   * `getUniqueTestNameForScenarioExample`: the name, a separator (a space when
   * the name already holds one, an underscore otherwise) and the number.
   */
  function UniqueTestName(name: string, number: nat): (r: string)
    ensures |r| > |name| + 1 && r[..|name|] == name
    ensures r[|name|] == if ' ' in name then ' ' else '_'
    ensures r[|name| + 1..] == Decimal.NatToString(number)
  {
    var r := name + [if ' ' in name then ' ' else '_'] + Decimal.NatToString(number);
    assert r[|name| + 1..] == Decimal.NatToString(number);
    r
  }

  /** Different example numbers give different names, none equal to the base name. */
  lemma UniqueTestNamesDistinct(name: string, a: nat, b: nat)
    ensures UniqueTestName(name, a) != name
    ensures a != b ==> UniqueTestName(name, a) != UniqueTestName(name, b)
  {
    if UniqueTestName(name, a) == UniqueTestName(name, b) {
      Decimal.NatToStringInjective(a, b);
    }
  }

  /** The formatter's cross-case naming state. */
  datatype Naming = Naming(currentFeatureFile: Option<Uri>, previousTestCaseName: Option<string>, exampleNumber: nat)

  /** The display name given to a case and the naming state after it. */
  datatype Named = Named(displayName: string, naming: Naming)

  /**
   * Lines 74-78 as written, used by the formatter model: a case from another
   * file (or the first case) makes that file current, the previous name ""
   * and the counter 1.
   */
  function EnterFileAsWritten(s: Naming, uri: Uri): (r: Naming)
    ensures r.currentFeatureFile == Some(uri)
    ensures s.currentFeatureFile != Some(uri) ==> r.previousTestCaseName == Some("") && r.exampleNumber == 1
    ensures s.currentFeatureFile == Some(uri) ==> r == s
  {
    if s.currentFeatureFile.None? || s.currentFeatureFile.value != uri then Naming(Some(uri), Some(""), 1) else s
  }

  /**
   * Lines 74-78 as evidently intended: entering a file forgets the previous
   * name altogether, so no name, not even the empty one, counts as a repeat
   * of a case from another file.
   */
  function EnterFile(s: Naming, uri: Uri): (r: Naming)
    ensures r.currentFeatureFile == Some(uri)
    ensures s.currentFeatureFile != Some(uri) ==> r.previousTestCaseName.None? && r.exampleNumber == 1
    ensures s.currentFeatureFile == Some(uri) ==> r == s
  {
    if s.currentFeatureFile.None? || s.currentFeatureFile.value != uri then Naming(Some(uri), None, 1) else s
  }

  /**
   * `calculateElementName`: a repeat of the previous name is numbered with
   * the incremented counter; any other name is kept verbatim, becomes the
   * previous name and resets the counter to 1.
   */
  function ElementName(s: Naming, name: string): (r: Named)
    ensures r.naming.currentFeatureFile == s.currentFeatureFile
    ensures r.naming.previousTestCaseName == Some(name)
    ensures s.previousTestCaseName == Some(name) ==>
      r.displayName == UniqueTestName(name, s.exampleNumber + 1) && r.naming.exampleNumber == s.exampleNumber + 1
    ensures s.previousTestCaseName != Some(name) ==> r.displayName == name && r.naming.exampleNumber == 1
  {
    if s.previousTestCaseName == Some(name) then
      Named(UniqueTestName(name, s.exampleNumber + 1), s.(exampleNumber := s.exampleNumber + 1))
    else
      Named(name, s.(previousTestCaseName := Some(name), exampleNumber := 1))
  }

  /** The naming step of a test-case-started event as written: enter the case's file, then name the case. */
  function NextName(s: Naming, tc: TestCaseId): Named {
    ElementName(EnterFileAsWritten(s, tc.uri), tc.name)
  }

  /** The same step with the corrected file-entry reset. */
  function NextNameCorrected(s: Naming, tc: TestCaseId): Named {
    ElementName(EnterFile(s, tc.uri), tc.name)
  }

  /** The display names of the cases of a run, in the order they start, as written. */
  function DisplayNames(s: Naming, cases: seq<TestCaseId>): (names: seq<string>)
    ensures |names| == |cases|
    decreases |cases|
  {
    if cases == [] then []
    else
      var n := NextName(s, cases[0]);
      [n.displayName] + DisplayNames(n.naming, cases[1..])
  }

  /** The display names of the cases of a run under the corrected reset. */
  function DisplayNamesCorrected(s: Naming, cases: seq<TestCaseId>): (names: seq<string>)
    ensures |names| == |cases|
    decreases |cases|
  {
    if cases == [] then []
    else
      var n := NextNameCorrected(s, cases[0]);
      [n.displayName] + DisplayNamesCorrected(n.naming, cases[1..])
  }

  /** The two resets name a case with a non-empty name alike and leave the same state. */
  lemma ResetsAgreeOnNamedCase(s: Naming, tc: TestCaseId)
    requires tc.name != ""
    ensures NextName(s, tc) == NextNameCorrected(s, tc)
  {
  }

  /** So a run without blank names is named alike under both resets. */
  lemma {:induction false} DisplayNamesAgree(s: Naming, cases: seq<TestCaseId>)
    requires forall i :: 0 <= i < |cases| ==> cases[i].name != ""
    ensures DisplayNames(s, cases) == DisplayNamesCorrected(s, cases)
    decreases |cases|
  {
    if cases != [] {
      ResetsAgreeOnNamedCase(s, cases[0]);
      DisplayNamesAgree(NextName(s, cases[0]).naming, cases[1..]);
    }
  }

  /** Under the corrected reset the first case of a file always keeps its name. */
  lemma FirstCaseOfFileKeepsName(s: Naming, tc: TestCaseId)
    requires s.currentFeatureFile != Some(tc.uri)
    ensures NextNameCorrected(s, tc).displayName == tc.name
    ensures NextNameCorrected(s, tc).naming == Naming(Some(tc.uri), Some(tc.name), 1)
  {
  }

  /** As written, the first case of a file keeps its name when that name is not empty. */
  lemma FirstNamedCaseOfFileKeepsName(s: Naming, tc: TestCaseId)
    requires s.currentFeatureFile != Some(tc.uri) && tc.name != ""
    ensures NextName(s, tc) == Named(tc.name, Naming(Some(tc.uri), Some(tc.name), 1))
  {
  }

  /**
   * Within one file, after `number` cases named `name` in a row, the
   * following cases with that name are numbered `number + 1`, `number + 2`, ...
   */
  lemma {:induction false} RepeatsContinueNumbering(uri: Uri, name: string, number: nat, cases: seq<TestCaseId>)
    requires forall i :: 0 <= i < |cases| ==> cases[i].uri == uri && cases[i].name == name
    ensures forall i :: 0 <= i < |cases| ==>
      DisplayNames(Naming(Some(uri), Some(name), number), cases)[i] == UniqueTestName(name, number + i + 1)
    decreases |cases|
  {
    if cases != [] {
      var s := Naming(Some(uri), Some(name), number);
      var s' := Naming(Some(uri), Some(name), number + 1);
      var rest := DisplayNames(s', cases[1..]);
      assert NextName(s, cases[0]) == Named(UniqueTestName(name, number + 1), s');
      assert DisplayNames(s, cases) == [UniqueTestName(name, number + 1)] + rest;
      RepeatsContinueNumbering(uri, name, number + 1, cases[1..]);
      forall i | 1 <= i < |cases|
        ensures DisplayNames(s, cases)[i] == UniqueTestName(name, number + i + 1)
      {
        assert DisplayNames(s, cases)[i] == rest[i - 1];
      }
    }
  }

  /**
   * Cases of one file that share a non-empty name, entered from another
   * file (or at the start), are named `name`, then `name` numbered 2, 3, ...
   */
  lemma RepeatedNamesAreNumbered(s: Naming, uri: Uri, name: string, cases: seq<TestCaseId>)
    requires s.currentFeatureFile != Some(uri) && name != ""
    requires forall i :: 0 <= i < |cases| ==> cases[i].uri == uri && cases[i].name == name
    ensures forall i :: 0 <= i < |cases| ==>
      DisplayNames(s, cases)[i] == if i == 0 then name else UniqueTestName(name, i + 1)
  {
    if cases != [] {
      FirstNamedCaseOfFileKeepsName(s, cases[0]);
      var s' := Naming(Some(uri), Some(name), 1);
      var rest := DisplayNames(s', cases[1..]);
      assert DisplayNames(s, cases) == [name] + rest;
      RepeatsContinueNumbering(uri, name, 1, cases[1..]);
      forall i | 1 <= i < |cases|
        ensures DisplayNames(s, cases)[i] == UniqueTestName(name, i + 1)
      {
        assert DisplayNames(s, cases)[i] == rest[i - 1];
      }
    }
  }

  /**
   * As written, blank-named cases of one file entered from another file (or
   * at the start) are all taken for repeats of the "" the file change
   * stored: they are named "_2", "_3", ... from the first on.
   */
  lemma BlankNamesNumberedFromTwo(s: Naming, uri: Uri, cases: seq<TestCaseId>)
    requires s.currentFeatureFile != Some(uri)
    requires forall i :: 0 <= i < |cases| ==> cases[i].uri == uri && cases[i].name == ""
    ensures forall i :: 0 <= i < |cases| ==> DisplayNames(s, cases)[i] == UniqueTestName("", i + 2)
  {
    if cases != [] {
      var entered := Naming(Some(uri), Some(""), 1);
      assert NextName(s, cases[0]) == NextName(entered, cases[0]);
      assert DisplayNames(s, cases) == DisplayNames(entered, cases);
      RepeatsContinueNumbering(uri, "", 1, cases);
    }
  }

  /** The naming steps of three "Eat x" cases of one file and one of another. */
  lemma EatSteps(l1: Location, l2: Location, l3: Location, l4: Location)
    ensures NextName(Naming(None, None, 0), TestCaseId("a.feature", l1, "Eat x"))
      == Named("Eat x", Naming(Some("a.feature"), Some("Eat x"), 1))
    ensures NextName(Naming(Some("a.feature"), Some("Eat x"), 1), TestCaseId("a.feature", l2, "Eat x"))
      == Named("Eat x 2", Naming(Some("a.feature"), Some("Eat x"), 2))
    ensures NextName(Naming(Some("a.feature"), Some("Eat x"), 2), TestCaseId("a.feature", l3, "Eat x"))
      == Named("Eat x 3", Naming(Some("a.feature"), Some("Eat x"), 3))
    ensures NextName(Naming(Some("a.feature"), Some("Eat x"), 3), TestCaseId("b.feature", l4, "Eat x"))
      == Named("Eat x", Naming(Some("b.feature"), Some("Eat x"), 1))
  {
  }

  /** Three consecutive "Eat x" cases of one file, then one of another file. */
  lemma EatExamples(l1: Location, l2: Location, l3: Location, l4: Location)
    ensures DisplayNames(Naming(None, None, 0),
      [TestCaseId("a.feature", l1, "Eat x"), TestCaseId("a.feature", l2, "Eat x"),
       TestCaseId("a.feature", l3, "Eat x"), TestCaseId("b.feature", l4, "Eat x")])
      == ["Eat x", "Eat x 2", "Eat x 3", "Eat x"]
  {
    var a, b := "a.feature", "b.feature";
    var c1, c2, c3, c4 := TestCaseId(a, l1, "Eat x"), TestCaseId(a, l2, "Eat x"),
      TestCaseId(a, l3, "Eat x"), TestCaseId(b, l4, "Eat x");
    var s1 := Naming(Some(a), Some("Eat x"), 1);
    var s2 := Naming(Some(a), Some("Eat x"), 2);
    var s3 := Naming(Some(a), Some("Eat x"), 3);
    EatSteps(l1, l2, l3, l4);
    assert [c1, c2, c3, c4][1..] == [c2, c3, c4];
    assert [c2, c3, c4][1..] == [c3, c4];
    assert [c3, c4][1..] == [c4];
    assert DisplayNames(s3, [c4]) == ["Eat x"];
    assert DisplayNames(s2, [c3, c4]) == ["Eat x 3", "Eat x"];
    assert DisplayNames(s1, [c2, c3, c4]) == ["Eat x 2", "Eat x 3", "Eat x"];
  }

  /**
   * As written, the first case of a file whose name is empty is taken for a
   * repeat of the "" the file change stored, and is reported as "_2"; with
   * the corrected reset it keeps its empty name.
   */
  lemma BlankFirstNameAsWritten(l: Location)
    ensures NextName(Naming(None, None, 0), TestCaseId("a.feature", l, "")).displayName == "_2"
    ensures NextNameCorrected(Naming(None, None, 0), TestCaseId("a.feature", l, "")).displayName == ""
  {
    assert Decimal.NatToString(2) == "2";
  }

  // ---------------------------------------------------------------------------
  // Classname
  // ---------------------------------------------------------------------------

  /** The predicate `withLocation` of `findRootNodeName`. */
  function WithLocation(location: Location): (p: Node -> bool)
    ensures forall n :: p(n) <==> n.location == location
  {
    (n: Node) => n.location == location
  }

  /** Some node of the tree rooted at `root` has the given location. */
  ghost predicate Locates(root: Node, location: Location) {
    exists i :: 0 <= i < |Preorder(root)| && Preorder(root)[i].location == location
  }

  /**
   * `findRootNodeName`: search the first root node of the case's file for
   * the case's location and take the name of the first node of the path;
   * "Unknown" without parsed roots, without a path or without a name.
   */
  function RootNodeName(sources: map<Uri, seq<Node>>, tc: TestCaseId): (r: string)
    ensures r == UnknownClassName || (tc.uri in sources && sources[tc.uri] != [] && sources[tc.uri][0].name == Some(r))
  {
    if tc.uri !in sources || sources[tc.uri] == [] then UnknownClassName
    else match PreorderPath(sources[tc.uri][0], WithLocation(tc.location))
      case None => UnknownClassName
      case Some(p) => if p[0].name.Some? then p[0].name.value else UnknownClassName
  }

  /**
   * The classname is the name of the first root of the case's file when that
   * root's tree holds a node at the case's location and the root has a name,
   * and "Unknown" otherwise.
   */
  lemma ClassNameRule(sources: map<Uri, seq<Node>>, tc: TestCaseId)
    ensures RootNodeName(sources, tc) ==
      if tc.uri in sources && sources[tc.uri] != []
        && Locates(sources[tc.uri][0], tc.location) && sources[tc.uri][0].name.Some?
      then sources[tc.uri][0].name.value
      else UnknownClassName
  {
    if tc.uri in sources && sources[tc.uri] != [] {
      var root := sources[tc.uri][0];
      var pred := WithLocation(tc.location);
      SearchFailsIffNoMatch(root, pred);
      if Locates(root, tc.location) {
        var i :| 0 <= i < |Preorder(root)| && Preorder(root)[i].location == tc.location;
        assert pred(Preorder(root)[i]);
      }
    }
  }

  /** A feature with one outline whose examples table has two rows. */
  function EatingFeature(): Node {
    Feature(Location(1, 1), Some("Feature"), Some("Eating"),
      [ScenarioOutline(Location(3, 3), Some("Scenario Outline"), Some("Eat x"),
        [Examples(Location(6, 5), Some("Examples"), None,
          [Example(Location(8, 7), None, None), Example(Location(9, 7), None, None)])])])
  }

  /** Both example rows are found under the feature, whose name becomes their classname. */
  lemma EatingClassName(location: Location)
    requires location == Location(8, 7) || location == Location(9, 7)
    ensures RootNodeName(map["a.feature" := [EatingFeature()]], TestCaseId("a.feature", location, "Eat x")) == "Eating"
  {
    var f := EatingFeature();
    var o := f.children[0];
    var e := o.children[0];
    var rows := e.children;
    var pred := WithLocation(location);
    assert !pred(f) && !pred(o) && !pred(e);
    if location == Location(8, 7) {
      assert PathAmong(rows, pred) == Some([rows[0]]);
    } else {
      assert rows[1..] == [rows[1]];
      assert PathAmong(rows, pred) == Some([rows[1]]);
    }
    assert PreorderPath(e, pred).Some?;
    assert PreorderPath(o, pred).Some?;
    assert PreorderPath(f, pred).value[0] == f;
  }

  // ---------------------------------------------------------------------------
  // The step listing
  // ---------------------------------------------------------------------------

  /**
   * Number of dots after a step's keyword and text of length `prefixLength`
   * (in UTF-16 units, as `StringBuilder.length()` counts): at least one, and
   * as many as bring the line to `LineWidth` units.
   */
  function PadLength(prefixLength: nat): (k: nat)
    ensures k >= 1 && prefixLength + k >= LineWidth
    ensures k > 1 ==> prefixLength + k == LineWidth
  {
    if prefixLength >= LineWidth then 1 else LineWidth - prefixLength
  }

  /** One more dot after `k` dots. */
  lemma DotsSnoc(head: string, k: nat)
    ensures head + Repeat('.', k) + "." == head + Repeat('.', k + 1)
  {
    assert Repeat('.', k) + "." == Repeat('.', k + 1);
  }

  /** A line written piece by piece, with `k` padding dots, is the step's line. */
  lemma StepLineAppended(done: string, step: PickleStep, status: string, k: nat)
    requires k == PadLength(Utf16Length(step.keyword + step.text))
    ensures done + step.keyword + step.text + Repeat('.', k) + status + "\n" == done + StepLine(step, status)
  {
  }

  /** The status shown for step `i`: its result's status, or "not executed" without one. */
  function StatusText(results: seq<Result>, i: nat): string {
    if i < |results| then StatusName(results[i].status) else NotExecuted
  }

  /** One line of the listing; the padding is measured in UTF-16 units. */
  function StepLine(step: PickleStep, status: string): string {
    var prefix := step.keyword + step.text;
    prefix + Repeat('.', PadLength(Utf16Length(prefix))) + status + "\n"
  }

  /** The listing of the recorded steps: one line per step, in order. */
  function Listing(steps: seq<PickleStep>, results: seq<Result>): string
    decreases |steps|
  {
    if steps == [] then ""
    else Listing(steps[..|steps| - 1], results) + StepLine(steps[|steps| - 1], StatusText(results, |steps| - 1))
  }

  /**
   * A line holds the keyword and text, dots up to UTF-16 column `LineWidth`
   * (or a single dot when the prefix already reaches it), the status and
   * "\n"; in UTF-16 units the line is that column plus the status and "\n".
   */
  lemma StepLineLayout(step: PickleStep, status: string)
    ensures var prefix, line := step.keyword + step.text, StepLine(step, status);
      var units := Utf16Length(prefix);
      var width := if units >= LineWidth then units + 1 else LineWidth;
      var end := |prefix| + (width - units);
      && |line| == end + |status| + 1
      && Utf16Length(line) == width + Utf16Length(status) + 1
      && line[..|prefix|] == prefix
      && (forall j :: |prefix| <= j < end ==> line[j] == '.')
      && line[end..] == status + "\n"
  {
    var prefix := step.keyword + step.text;
    var dots := Repeat('.', PadLength(Utf16Length(prefix)));
    var line := StepLine(step, status);
    assert line == prefix + dots + (status + "\n");
    assert forall j :: |prefix| <= j < |prefix| + |dots| ==> line[j] == dots[j - |prefix|];
    Utf16LengthAppend(prefix, dots);
    Utf16LengthAppend(prefix + dots, status + "\n");
    Utf16LengthAppend(status, "\n");
    RepeatDotsUnits(|dots|);
  }

  /**
   * For a keyword and text of Basic Multilingual Plane characters the dots
   * end at character column `LineWidth` (or one past a longer prefix).
   */
  lemma StepLineBmpColumn(step: PickleStep, status: string)
    requires var prefix := step.keyword + step.text;
      forall i :: 0 <= i < |prefix| ==> !Supplementary(prefix[i])
    ensures var prefix := step.keyword + step.text;
      |StepLine(step, status)| == (if |prefix| >= LineWidth then |prefix| + 1 else LineWidth) + |status| + 1
  {
    Utf16LengthBmp(step.keyword + step.text);
  }

  /** A supplementary character in the text counts twice: "Given " and U+1F600 get 68 dots. */
  lemma StepLineSurrogatePair()
    ensures StepLine(PickleStep("Given ", "\U{1F600}"), "passed") == "Given \U{1F600}" + Repeat('.', 68) + "passed\n"
  {
    var prefix, smiley := "Given ", "\U{1F600}";
    assert smiley[..0] == [] && Supplementary(smiley[0]);
    assert Utf16Length(smiley) == 2;
    Utf16LengthBmp(prefix);
    Utf16LengthAppend(prefix, smiley);
    assert prefix + smiley == "Given \U{1F600}";
  }

  /** Step `i`'s line sits in the listing after the lines of the steps before it. */
  lemma {:induction false} ListingLine(steps: seq<PickleStep>, results: seq<Result>, i: nat)
    requires i < |steps|
    ensures Listing(steps[..i + 1], results) == Listing(steps[..i], results) + StepLine(steps[i], StatusText(results, i))
  {
    var pre := steps[..i + 1];
    assert pre[..|pre| - 1] == steps[..i];
  }

  /** A recorded result that no listed step uses does not change the listing. */
  lemma {:induction false} ListingIgnoresLaterResults(steps: seq<PickleStep>, results: seq<Result>, more: seq<Result>)
    requires |steps| <= |results|
    ensures Listing(steps, results + more) == Listing(steps, results)
    decreases |steps|
  {
    if steps != [] {
      ListingIgnoresLaterResults(steps[..|steps| - 1], results, more);
      var i := |steps| - 1;
      assert (results + more)[i] == results[i];
    }
  }

  /** With one result per step, no line says "not executed". */
  lemma EveryStepHasItsStatus(steps: seq<PickleStep>, results: seq<Result>, i: nat)
    requires |steps| == |results| && i < |steps|
    ensures StatusText(results, i) == StatusName(results[i].status) != NotExecuted
  {
  }

  // ---------------------------------------------------------------------------
  // Line-end normalisation
  // ---------------------------------------------------------------------------

  /** `target` occurs somewhere in `s`. */
  predicate Occurs(target: string, s: string) {
    exists i: nat :: i <= |s| && MatchesAt(target, s, i)
  }

  predicate MatchesAt(target: string, s: string, i: nat) {
    i + |target| <= |s| && s[i..i + |target|] == target
  }

  /** `String.replace(target, replacement)`: every occurrence, left to right, without overlap. */
  function ReplaceAll(s: string, target: string, replacement: string): string
    requires target != []
    decreases |s|
  {
    if |s| < |target| then s
    else if s[..|target|] == target then replacement + ReplaceAll(s[|target|..], target, replacement)
    else [s[0]] + ReplaceAll(s[1..], target, replacement)
  }

  /** `createElement`'s normalisation: each platform line separator becomes "\n". */
  function NormalizeLineEndings(s: string, lineSeparator: string): string
    requires lineSeparator != []
  {
    ReplaceAll(s, lineSeparator, "\n")
  }

  /** Text without the target is left as it is. */
  lemma {:induction false} ReplaceAllAbsent(s: string, target: string, replacement: string)
    requires target != [] && !Occurs(target, s)
    ensures ReplaceAll(s, target, replacement) == s
    decreases |s|
  {
    if |s| >= |target| {
      assert !MatchesAt(target, s, 0);
      assert s[0..|target|] == s[..|target|];
      forall i: nat | i <= |s[1..]| && MatchesAt(target, s[1..], i)
        ensures i + 1 <= |s| && MatchesAt(target, s, i + 1)
      {
        assert s[1..][i..i + |target|] == s[i + 1..i + 1 + |target|];
      }
      ReplaceAllAbsent(s[1..], target, replacement);
    }
  }

  /** A text that does not start with the target keeps its first character. */
  lemma ReplaceAllSkip(s: string, target: string, replacement: string)
    requires target != [] && |s| >= |target| && s[..|target|] != target
    ensures ReplaceAll(s, target, replacement) == [s[0]] + ReplaceAll(s[1..], target, replacement)
  {
  }

  /** A text that starts with the target has it replaced. */
  lemma ReplaceAllHit(target: string, replacement: string, b: string)
    requires target != []
    ensures ReplaceAll(target + b, target, replacement) == replacement + ReplaceAll(b, target, replacement)
  {
    var s := target + b;
    assert s[..|target|] == target && s[|target|..] == b;
  }

  /**
   * An occurrence of the target with no earlier start of one becomes the
   * replacement, and the rest of the text is processed after it.
   */
  lemma {:induction false} ReplaceAllFirst(a: string, target: string, replacement: string, b: string)
    requires target != [] && target[0] !in a
    ensures ReplaceAll(a + target + b, target, replacement) == a + replacement + ReplaceAll(b, target, replacement)
    decreases |a|
  {
    if a == [] {
      assert a + target + b == target + b;
      ReplaceAllHit(target, replacement, b);
    } else {
      var s, rest := a + target + b, a[1..] + target + b;
      assert s[0] == a[0] && s[1..] == rest;
      assert s[..|target|][0] == a[0];
      ReplaceAllSkip(s, target, replacement);
      ReplaceAllFirst(a[1..], target, replacement, b);
      var tail := ReplaceAll(b, target, replacement);
      assert [a[0]] + (a[1..] + replacement + tail) == a + replacement + tail;
    }
  }

  /** With the Windows separator, a line break in the text becomes a single "\n". */
  lemma NormalizeWindowsLineEnd(a: string, b: string)
    requires '\r' !in a
    ensures NormalizeLineEndings(a + "\r\n" + b, "\r\n") == a + "\n" + NormalizeLineEndings(b, "\r\n")
  {
    ReplaceAllFirst(a, "\r\n", "\n", b);
  }

  /** Replacing a target by itself changes nothing; so "\n" separators are kept. */
  lemma {:induction false} ReplaceAllSelf(s: string, target: string)
    requires target != []
    ensures ReplaceAll(s, target, target) == s
    decreases |s|
  {
    if |s| >= |target| {
      if s[..|target|] == target {
        ReplaceAllSelf(s[|target|..], target);
        assert s == s[..|target|] + s[|target|..];
      } else {
        ReplaceAllSelf(s[1..], target);
        assert s == [s[0]] + s[1..];
      }
    }
  }

  // ---------------------------------------------------------------------------
  // The outcome child
  // ---------------------------------------------------------------------------

  /** The formatter dereferences the error of failed and ambiguous results. */
  predicate ErrorPresentWhenFailed(r: Result) {
    r.status == FAILED || r.status == AMBIGUOUS ==> r.error.Some?
  }

  /** The line `addStackTrace` writes before the trace, with a line break on each side. */
  const StackTraceHeader: string := "\nStackTrace:\n"

  /** `addStackTrace`'s text: the header, then the rendered trace verbatim. */
  function StackTraceBlock(e: Error): (s: string)
    ensures |s| == |StackTraceHeader| + |e.stackTrace|
    ensures s[..|StackTraceHeader|] == StackTraceHeader && s[|StackTraceHeader|..] == e.stackTrace
  {
    StackTraceHeader + e.stackTrace
  }

  /**
   * `addTestCaseElement`'s choice of child, in priority order: failed or
   * ambiguous, then pending or undefined, then skipped with an error, then
   * plain output.
   */
  function OutcomeChild(listing: string, result: Result, lineSeparator: string): (c: Child)
    requires lineSeparator != [] && ErrorPresentWhenFailed(result)
    ensures c.Failure? <==> result.status in {FAILED, AMBIGUOUS, PENDING, UNDEFINED}
    ensures c.Skipped? <==> result.status == SKIPPED && result.error.Some?
    ensures c.SystemOut? <==> !(c.Failure? || c.Skipped?)
    ensures result.status in {FAILED, AMBIGUOUS} ==>
      c.message == result.error.value.message && c.typeName == result.error.value.typeName
    ensures result.status in {PENDING, UNDEFINED} ==>
      c.message == PendingMessage
      && c.typeName == if result.error.Some? then result.error.value.typeName else ExceptionType
    ensures c.Skipped? ==> c.message == result.error.value.stackTrace
    ensures c.text == NormalizeLineEndings(
      if result.status in {FAILED, AMBIGUOUS} || c.Skipped? then listing + StackTraceBlock(result.error.value) else listing,
      lineSeparator)
  {
    if result.status == FAILED || result.status == AMBIGUOUS then
      var e := result.error.value;
      Failure(e.message, e.typeName, NormalizeLineEndings(listing + StackTraceBlock(e), lineSeparator))
    else if result.status == PENDING || result.status == UNDEFINED then
      Failure(PendingMessage, if result.error.None? then ExceptionType else result.error.value.typeName,
        NormalizeLineEndings(listing, lineSeparator))
    else if result.status == SKIPPED && result.error.Some? then
      var e := result.error.value;
      Skipped(e.stackTrace, NormalizeLineEndings(listing + StackTraceBlock(e), lineSeparator))
    else
      SystemOut(NormalizeLineEndings(listing, lineSeparator))
  }

  /** `handleEmptyTestCase`'s child: a failure with an empty text, whatever the result. */
  function EmptyCaseChild(lineSeparator: string): (c: Child)
    requires lineSeparator != []
    ensures c == Failure(NoStepsMessage, ExceptionType, "")
  {
    Failure(NoStepsMessage, ExceptionType, NormalizeLineEndings("", lineSeparator))
  }

  // ---------------------------------------------------------------------------
  // Run totals
  // ---------------------------------------------------------------------------

  function FailuresIn(cs: seq<Child>): nat {
    if cs == [] then 0 else FailuresIn(DropLast(cs)) + if Last(cs).Failure? then 1 else 0
  }

  function SkippedIn(cs: seq<Child>): nat {
    if cs == [] then 0 else SkippedIn(DropLast(cs)) + if Last(cs).Skipped? then 1 else 0
  }

  /** `getElementsByTagName("failure").getLength()` on the report root. */
  function FailureCount(es: seq<TestCaseElement>): nat {
    if es == [] then 0 else FailureCount(DropLast(es)) + FailuresIn(Last(es).children)
  }

  /** `getElementsByTagName("skipped").getLength()` on the report root. */
  function SkippedCount(es: seq<TestCaseElement>): nat {
    if es == [] then 0 else SkippedCount(DropLast(es)) + SkippedIn(Last(es).children)
  }

  /** Appending an element without children leaves the totals as they were. */
  lemma CountsOfNewElement(es: seq<TestCaseElement>, e: TestCaseElement)
    requires e.children == []
    ensures FailureCount(es + [e]) == FailureCount(es)
    ensures SkippedCount(es + [e]) == SkippedCount(es)
  {
    assert DropLast(es + [e]) == es;
  }

  /** Appending a child to the last element adds one to the total of its kind only. */
  lemma CountsOfAppendedChild(es: seq<TestCaseElement>, e: TestCaseElement, c: Child)
    requires es != [] && e.children == Last(es).children + [c]
    ensures FailureCount(DropLast(es) + [e]) == FailureCount(es) + if c.Failure? then 1 else 0
    ensures SkippedCount(DropLast(es) + [e]) == SkippedCount(es) + if c.Skipped? then 1 else 0
  {
    assert DropLast(DropLast(es) + [e]) == DropLast(es);
    assert DropLast(Last(es).children + [c]) == Last(es).children;
  }
}
