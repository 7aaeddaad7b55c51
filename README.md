# Cucumber JUnit formatter, modelled in Dafny

This project models the core of a Kotlin port of Cucumber's JUnit XML formatter, and proves properties of that model. That core is two files:

- **`Node.kt`**: the source tree of a parsed feature file. The tree has containers (Feature, Rule, Scenario Outline, Examples) and leaves (Scenario, Example). The file also defines `findPathTo`, a depth-first search done with an explicit stack of sibling groups, and the recursive `map`.
- **`JUnitFormatter.kt`**: the event listener that turns Cucumber's event stream into a `testsuite` report. It handles these events:
  - run started;
  - source parsed;
  - test case started;
  - test step finished;
  - test case finished;
  - run finished.

  For each case it computes:
  - the `classname`, which is the name of the top node of the path to the case's location;
  - the disambiguated `name` of repeated example rows;
  - a padded listing of the steps and their statuses;
  - one outcome child (`failure`, `skipped` or `system-out`).

  At the end of the run it computes the totals.

The modules:

| file | module | contents |
|---|---|---|
| `wrappers.dfy` | `Wrappers` | `Option` |
| `node.dfy` | `SourceTree` | the node variant tree, a recursive pre-order search as reference, the explicit-stack search as a method with loop invariants, and `map` |
| `decimal.dfy` | `Decimal` | decimal text of a number (`"$exampleNumber"`, `String.valueOf`) and its reader |
| `duration.dfy` | `DurationFormat` | `calculateTotalDurationString` on whole milliseconds in the US number format, and a reader that inverts it |
| `text.dfy` | `Text` | runs of one character, for padding dots and zeros, and the UTF-16 length of a text |
| `junit_report.dfy` | `JUnitReport` | the value-level rules: report records, naming, classname, listing, line-end normalisation, outcome child, totals |
| `junit_formatter.dfy` | `JUnit` | the classes `TestCase` and `JUnitFormatter`, with one method per handler |

The XML DOM is replaced by plain records:
- a `testcase` element is a `TestCaseElement` (its attributes plus its children);
- the `testsuite` is the formatter's `elements` sequence, its `tests` field and the `Summary` set when the run finishes.

The element the Kotlin code keeps in `root` is always the last element of `elements`.

An error (a `Throwable`) is kept as three strings:
- its `getMessage()`;
- its `getClass().getName()`;
- the text `printStackTrace` renders.

Instants and durations are whole milliseconds. `System.lineSeparator()` is a constructor parameter.

Three details of the code that shape the model:
- **Duration text format.** The time text comes from `NumberFormat.getNumberInstance(Locale.US)` (lines 262-266), which groups the whole seconds with `','`. `FormatSecondsGrouping` shows `1234567` ms becoming `"1,234.567"`.
- **Which root is searched.** Lines 157-159 map every root of the file and keep only the first result, so only the first root is consulted. `RootNodeName` does the same.
- **Events after the run finished.** No handler checks whether the run has finished, and neither does the model.

The naming of test cases is modelled as the code is written (line 76 stores `""` on entering a file), and the formatter class follows that rule. The corrected rule of the finding below is defined beside it (`EnterFile`, `NextNameCorrected`, `DisplayNamesCorrected`). It is proved to agree with the written rule on every run without blank names.

## Model

| member | source | states |
|---|---|---|
| `SourceTree.LeafPathTo` | src/commonMain/io/cucumber/plugin/event/Node.kt:97-103 | a leaf's search yields the path `[leaf]` exactly when the predicate holds the leaf, and nothing otherwise; this agrees with the recursive reference search |
| `SourceTree.PreorderPath` | src/commonMain/io/cucumber/plugin/event/Node.kt:89-96 | reference search: a found path is non-empty, starts at the searched node, goes from each node to one of its direct elements, and ends at a node satisfying the predicate |
| `SourceTree.PathAmong` | src/commonMain/io/cucumber/plugin/event/Node.kt:89-96 | the same for a sequence of sibling roots: the path starts at one of them |
| `SourceTree.PreorderPathFindsFirst` | src/commonMain/io/cucumber/plugin/event/Node.kt:120-127 | the node found is the first node, in pre-order and left to right among siblings, that satisfies the predicate |
| `SourceTree.PathAmongFindsFirst` | src/commonMain/io/cucumber/plugin/event/Node.kt:120-127 | the same first-match property over a sequence of siblings |
| `SourceTree.FirstSatisfying` | src/commonMain/io/cucumber/plugin/event/Node.kt:89-96 | the element found satisfies the predicate and sits at a position before which no element satisfies it; there is none exactly when no element satisfies it |
| `SourceTree.SearchFailsIffNoMatch` | src/commonMain/io/cucumber/plugin/event/Node.kt:111-130 | the search comes back empty if and only if no node of the finite tree satisfies the predicate |
| `SourceTree.ContainerPathTo` | src/commonMain/io/cucumber/plugin/event/Node.kt:107-131 | the explicit-stack loop over sibling groups terminates, and returns exactly the reference search's answer from the container |
| `SourceTree.FindPathTo` | src/commonMain/io/cucumber/plugin/event/Node.kt:97-131 | the search dispatched on the node's variant (leaf or container) returns the reference answer |
| `SourceTree.PopKeepsState` | src/commonMain/io/cucumber/plugin/event/Node.kt:113-118 | dropping an exhausted sibling group drops the last path element with it (if any), which keeps the search-state invariant (the path one element shorter than the stack, a chain down from the root, each group a suffix of its path node's elements); the answer still owed is unchanged |
| `SourceTree.CandidateIsChild` | src/commonMain/io/cucumber/plugin/event/Node.kt:120-127 | the candidate popped is the root when the path is empty, and otherwise a direct element of the last path node |
| `SourceTree.TakeKeepsState` | src/commonMain/io/cucumber/plugin/event/Node.kt:120 | popping the front candidate keeps the search-state invariant |
| `SourceTree.EnterKeepsState` | src/commonMain/io/cucumber/plugin/event/Node.kt:125-128 | entering a container appends it to the path and pushes its elements as a new group, keeping the invariant |
| `SourceTree.MatchEndsPending` | src/commonMain/io/cucumber/plugin/event/Node.kt:121-123 | a matching candidate is the owed answer: the current path plus the candidate |
| `SourceTree.SkipLeafKeepsPending` | src/commonMain/io/cucumber/plugin/event/Node.kt:120-128 | skipping a non-matching leaf leaves the owed answer unchanged |
| `SourceTree.EnterKeepsPending` | src/commonMain/io/cucumber/plugin/event/Node.kt:125-128 | descending into a non-matching container leaves the owed answer unchanged |
| `SourceTree.TakeShrinksStack` | src/commonMain/io/cucumber/plugin/event/Node.kt:120-128 | each step shrinks the nodes left on the stack, or the number of groups, so the loop ends |
| `SourceTree.Apply` | src/commonMain/io/cucumber/plugin/event/Node.kt:61-77 | the mapper applied to a node is the one of its variant: `mapFeature` for a Feature, `mapRule` for a Rule, and so on for each of the six, given the node and the parent value |
| `SourceTree.Map` | src/commonMain/io/cucumber/plugin/event/Node.kt:61-86 | `map` returns the mapper of the node's variant applied to (node, parent); a container then maps each element, in order, with that value as parent |
| `SourceTree.MapAll` | src/commonMain/io/cucumber/plugin/event/Node.kt:79-82 | one mapping per element, in order, each given the container's value as parent |
| `SourceTree.MapVisitsPreorder` | src/commonMain/io/cucumber/plugin/event/Node.kt:61-86 | `map` makes exactly one mapper call per node of the tree, in pre-order |
| `Decimal.NatToString` | src/commonMain/io/cucumber/plugin/core/JUnitFormatter.kt:259 | the decimal text of the example number is non-empty, all digits, with no leading zero |
| `Decimal.ParseNatToString` | src/commonMain/io/cucumber/plugin/core/JUnitFormatter.kt:259 | reading back the decimal text gives the number |
| `Decimal.NatToStringInjective` | src/commonMain/io/cucumber/plugin/core/JUnitFormatter.kt:259 | distinct numbers have distinct texts |
| `JUnitReport.UniqueTestName` | src/commonMain/io/cucumber/plugin/core/JUnitFormatter.kt:258-260 | the numbered name is the name, then `' '` if the name contains a space and `'_'` otherwise, then the number's decimal text |
| `JUnitReport.UniqueTestNamesDistinct` | src/commonMain/io/cucumber/plugin/core/JUnitFormatter.kt:258-260 | a numbered name never equals the plain name, and different numbers give different names |
| `JUnitReport.EnterFileAsWritten` | src/commonMain/io/cucumber/plugin/core/JUnitFormatter.kt:74-78 | as written, and used by the formatter class: a case from a file other than the tracked one (or with none tracked) makes that file current, sets the previous name to `""` and the counter to 1; a case from the same file changes nothing |
| `JUnitReport.EnterFile` | src/commonMain/io/cucumber/plugin/core/JUnitFormatter.kt:74-78 | as corrected: the same reset, except that no previous name is kept afterwards |
| `JUnitReport.ElementName` | src/commonMain/io/cucumber/plugin/core/JUnitFormatter.kt:165-174 | a name equal to the previous one gets the incremented counter as its number; any other name is kept verbatim, stored as previous, and the counter becomes 1; the file is unchanged |
| `JUnitReport.NextName` | src/commonMain/io/cucumber/plugin/core/JUnitFormatter.kt:73-84 | the naming step of a case started, as written: enter the case's file with the written reset, then name the case |
| `JUnitReport.NextNameCorrected` | src/commonMain/io/cucumber/plugin/core/JUnitFormatter.kt:73-84 | the same step with the corrected reset |
| `JUnitReport.DisplayNames` | src/commonMain/io/cucumber/plugin/core/JUnitFormatter.kt:73-84 | as written: one display name per case of the run, each computed from the naming state the cases before it left |
| `JUnitReport.DisplayNamesCorrected` | src/commonMain/io/cucumber/plugin/core/JUnitFormatter.kt:73-84 | the same under the corrected reset |
| `JUnitReport.ResetsAgreeOnNamedCase` | src/commonMain/io/cucumber/plugin/core/JUnitFormatter.kt:74-78 | a case with a non-empty name gets the same name and leaves the same state under both resets |
| `JUnitReport.DisplayNamesAgree` | src/commonMain/io/cucumber/plugin/core/JUnitFormatter.kt:74-78 | a run without blank names is named identically under both resets |
| `JUnitReport.FirstCaseOfFileKeepsName` | src/commonMain/io/cucumber/plugin/core/JUnitFormatter.kt:74-78 | under the corrected reset, the first case of a newly entered file keeps its name, whatever it is, and leaves the counter at 1 |
| `JUnitReport.FirstNamedCaseOfFileKeepsName` | src/commonMain/io/cucumber/plugin/core/JUnitFormatter.kt:74-78 | as written, the first case of a newly entered file keeps a non-empty name and leaves the counter at 1 |
| `JUnitReport.RepeatsContinueNumbering` | src/commonMain/io/cucumber/plugin/core/JUnitFormatter.kt:165-174 | a run of cases with the previous name in the same file is numbered on from the counter, one up per case |
| `JUnitReport.RepeatedNamesAreNumbered` | src/commonMain/io/cucumber/plugin/core/JUnitFormatter.kt:165-174 | as written: n consecutive cases sharing a non-empty name from a newly entered file are shown as the name, then the name numbered 2, 3, … n |
| `JUnitReport.EatSteps` | src/commonMain/io/cucumber/plugin/core/JUnitFormatter.kt:165-174 | the naming state after each of three "Eat x" cases of one file and one of another |
| `JUnitReport.EatExamples` | src/commonMain/io/cucumber/plugin/core/JUnitFormatter.kt:165-174 | three "Eat x" cases then one from another file are shown as "Eat x", "Eat x 2", "Eat x 3", "Eat x" |
| `JUnitReport.BlankFirstNameAsWritten` | src/commonMain/io/cucumber/plugin/core/JUnitFormatter.kt:74-78 | as written, a blank-named first case of a file is shown as `"_2"`; with the corrected reset it is shown as `""` |
| `JUnitReport.BlankNamesNumberedFromTwo` | src/commonMain/io/cucumber/plugin/core/JUnitFormatter.kt:74-78 | as written, n blank-named cases from a newly entered file are shown as `"_2"`, `"_3"`, … `"_(n+1)"`, the first one included |
| `JUnitReport.WithLocation` | src/commonMain/io/cucumber/plugin/core/JUnitFormatter.kt:156 | the predicate `withLocation` holds a node exactly when the node's location equals the case's location |
| `JUnitReport.RootNodeName` | src/commonMain/io/cucumber/plugin/core/JUnitFormatter.kt:154-163 | the classname is either "Unknown" or the name of the first root parsed for the case's file |
| `JUnitReport.ClassNameRule` | src/commonMain/io/cucumber/plugin/core/JUnitFormatter.kt:154-163 | the classname is the name of the file's first root when that root's tree has a node at the case's location and the root is named; otherwise it is "Unknown" |
| `JUnitReport.EatingClassName` | src/commonMain/io/cucumber/plugin/core/JUnitFormatter.kt:154-163 | both example rows of an outline inside feature "Eating" get classname "Eating" |
| `JUnitReport.StatusName` | src/commonMain/io/cucumber/plugin/core/JUnitFormatter.kt:203 | the lower-cased name of a status: non-empty, letters `a`-`z` only |
| `JUnitReport.StatusNamesDistinct` | src/commonMain/io/cucumber/plugin/core/JUnitFormatter.kt:203 | different statuses are written differently |
| `JUnitReport.StatusText` | src/commonMain/io/cucumber/plugin/core/JUnitFormatter.kt:201-204 | the status shown for step i: the lower-cased status of result i, or "not executed" when there is no result i; `EveryStepHasItsStatus` states when it is the former |
| `Text.Utf16LengthBounds` | src/commonMain/io/cucumber/plugin/core/JUnitFormatter.kt:200 | `StringBuilder.length()`, as `Utf16Length` counts it, is between the character count and twice it |
| `Text.Utf16LengthAppend` | src/commonMain/io/cucumber/plugin/core/JUnitFormatter.kt:205-209 | the UTF-16 length of appended text is the sum of the lengths, as each `append` grows `sb.length()` |
| `Text.Utf16LengthBmp` | src/commonMain/io/cucumber/plugin/core/JUnitFormatter.kt:200 | a text without characters above U+FFFF has one code unit per character |
| `Text.Utf16LengthExceedsByPairs` | src/commonMain/io/cucumber/plugin/core/JUnitFormatter.kt:200 | the UTF-16 length exceeds the character count exactly when the text holds a character above U+FFFF |
| `JUnitReport.StepLine` | src/commonMain/io/cucumber/plugin/core/JUnitFormatter.kt:205-211 | one listing line, padded by UTF-16 length; its layout is stated by `StepLineLayout` |
| `JUnitReport.StepLineBmpColumn` | src/commonMain/io/cucumber/plugin/core/JUnitFormatter.kt:205-211 | for keyword and text without characters above U+FFFF, the line is 76 characters (or one past a longer prefix) before the status and `"\n"` |
| `JUnitReport.StepLineSurrogatePair` | src/commonMain/io/cucumber/plugin/core/JUnitFormatter.kt:205-211 | keyword `"Given "` and text U+1F600 measure 8 UTF-16 units, so the line gets 68 dots |
| `JUnitReport.Listing` | src/commonMain/io/cucumber/plugin/core/JUnitFormatter.kt:198-213 | the listing of the recorded steps, one line after another, with the padding measured in UTF-16 units; `ListingLine` and `AddStepAndResultListing` state its shape |
| `JUnitReport.PadLength` | src/commonMain/io/cucumber/plugin/core/JUnitFormatter.kt:207-209 | at least one dot; the prefix (in UTF-16 units) and its dots reach 76; more than one dot only when they reach exactly 76 |
| `JUnitReport.StepLineLayout` | src/commonMain/io/cucumber/plugin/core/JUnitFormatter.kt:205-211 | a listing line is keyword and text, dots up to UTF-16 column 76 (or one dot when the prefix already reaches that width), the status and `"\n"`; its UTF-16 length is that column plus the status and `"\n"` |
| `JUnitReport.ListingLine` | src/commonMain/io/cucumber/plugin/core/JUnitFormatter.kt:199-212 | step i's line follows the lines of the steps before it, so there is one line per step, in order |
| `JUnitReport.ListingIgnoresLaterResults` | src/commonMain/io/cucumber/plugin/core/JUnitFormatter.kt:94-99 | results beyond the last listed step do not change the listing, so recording a step with its result adds just that step's line |
| `JUnitReport.EveryStepHasItsStatus` | src/commonMain/io/cucumber/plugin/core/JUnitFormatter.kt:201-204 | with one result per step, each line shows the lower-cased status of its own result and never "not executed" |
| `JUnitReport.ReplaceAll` | src/commonMain/io/cucumber/plugin/core/JUnitFormatter.kt:240 | `String.replace`: every occurrence, left to right, without overlap; the four lemmas below state some of its laws |
| `JUnitReport.NormalizeLineEndings` | src/commonMain/io/cucumber/plugin/core/JUnitFormatter.kt:240 | each platform line separator in the text becomes `"\n"` |
| `JUnitReport.ReplaceAllFirst` | src/commonMain/io/cucumber/plugin/core/JUnitFormatter.kt:240 | an occurrence preceded by no character equal to the target's first character becomes the replacement, and the text after it is processed on |
| `JUnitReport.NormalizeWindowsLineEnd` | src/commonMain/io/cucumber/plugin/core/JUnitFormatter.kt:240 | with the separator `"\r\n"`, a line break after a `'\r'`-free prefix becomes a single `"\n"` |
| `JUnitReport.ReplaceAllAbsent` | src/commonMain/io/cucumber/plugin/core/JUnitFormatter.kt:240 | text holding no line separator is not changed by normalisation |
| `JUnitReport.ReplaceAllSelf` | src/commonMain/io/cucumber/plugin/core/JUnitFormatter.kt:240 | replacing a target by itself is the identity, so with a `"\n"` separator normalisation changes nothing |
| `JUnitReport.StackTraceBlock` | src/commonMain/io/cucumber/plugin/core/JUnitFormatter.kt:215-218 | `addStackTrace`'s text: the line `"\nStackTrace:\n"`, then the rendered trace verbatim |
| `JUnitReport.OutcomeChild` | src/commonMain/io/cucumber/plugin/core/JUnitFormatter.kt:176-196 | the outcome child, chosen in order (FAILED or AMBIGUOUS: failure with the error's message and type; PENDING or UNDEFINED: failure with the fixed message and the error's type or `java.lang.Exception`; SKIPPED with an error: skipped with the stack trace; otherwise system-out); the text is the listing, plus the stack-trace block for failed, ambiguous and skipped cases, with line separators normalised |
| `JUnitReport.EmptyCaseChild` | src/commonMain/io/cucumber/plugin/core/JUnitFormatter.kt:245-249 | a case without steps gets a failure "The scenario has no steps" of type `java.lang.Exception` with empty text |
| `JUnitReport.FailureCount` | src/commonMain/io/cucumber/plugin/core/JUnitFormatter.kt:106-107 | `getElementsByTagName("failure").getLength()`: the failure children of all elements; `CountsOfNewElement` and `CountsOfAppendedChild` state how it changes |
| `JUnitReport.SkippedCount` | src/commonMain/io/cucumber/plugin/core/JUnitFormatter.kt:108-109 | the same for `skipped` children |
| `JUnitReport.CountsOfNewElement` | src/commonMain/io/cucumber/plugin/core/JUnitFormatter.kt:79-83 | appending a new `testcase` element leaves the failure and skipped totals unchanged |
| `JUnitReport.CountsOfAppendedChild` | src/commonMain/io/cucumber/plugin/core/JUnitFormatter.kt:105-109 | appending one child to the last element raises the total of that child's kind by one and leaves the other total unchanged |
| `DurationFormat.FormatSeconds` | src/commonMain/io/cucumber/plugin/core/JUnitFormatter.kt:262-266 | the time text: a sign for negative durations, the whole seconds grouped by `','` in threes, and up to three fraction digits with trailing zeros dropped, no point when there are none; `FormatSecondsRoundTrip` proves it loses nothing |
| `DurationFormat.Pad3` | src/commonMain/io/cucumber/plugin/core/JUnitFormatter.kt:262-266 | each group of three digits of the US format is exactly three digits |
| `DurationFormat.Pad3Denotes` | src/commonMain/io/cucumber/plugin/core/JUnitFormatter.kt:262-266 | a three-digit group denotes its number |
| `DurationFormat.GroupedDenotes` | src/commonMain/io/cucumber/plugin/core/JUnitFormatter.kt:262-266 | with its `','` separators removed, the grouped integer part denotes the whole seconds |
| `DurationFormat.GroupedChars` | src/commonMain/io/cucumber/plugin/core/JUnitFormatter.kt:262-266 | the grouped integer part is made of digits and commas, and starts with a digit |
| `DurationFormat.FractionDenotes` | src/commonMain/io/cucumber/plugin/core/JUnitFormatter.kt:262-266 | the fraction has at most three digits, and padded back to three it denotes the milliseconds |
| `DurationFormat.FormatSecondsRoundTrip` | src/commonMain/io/cucumber/plugin/core/JUnitFormatter.kt:262-266 | reading the time text back gives the duration in milliseconds, so the text loses nothing |
| `DurationFormat.FormatWholeSeconds` | src/commonMain/io/cucumber/plugin/core/JUnitFormatter.kt:262-266 | whole seconds have no decimal point: 0 ms is "0", 3000 ms is "3" |
| `DurationFormat.FormatSecondsFraction` | src/commonMain/io/cucumber/plugin/core/JUnitFormatter.kt:262-266 | trailing zeros of the fraction are dropped: 1500 ms is "1.5" |
| `DurationFormat.FormatSecondsNegative` | src/commonMain/io/cucumber/plugin/core/JUnitFormatter.kt:262-266 | a negative duration keeps its sign: -250 ms is "-0.25" |
| `DurationFormat.FormatSecondsGrouping` | src/commonMain/io/cucumber/plugin/core/JUnitFormatter.kt:262-266 | thousands of seconds are grouped with ',': 1234567 ms is "1,234.567" |
| `JUnit.TestCase.constructor` | src/commonMain/io/cucumber/plugin/core/JUnitFormatter.kt:141-144 | a new open case has no recorded steps and no results |
| `JUnit.TestCase.AddStepAndResultListing` | src/commonMain/io/cucumber/plugin/core/JUnitFormatter.kt:198-213 | the for loop builds exactly the listing `Listing` defines, one step line per pass |
| `JUnit.TestCase.AppendStepLine` | src/commonMain/io/cucumber/plugin/core/JUnitFormatter.kt:200-211 | one pass of that loop: keyword, text, the do-while of dots measured by `sb.length()` in UTF-16 units from the line's start, status and `"\n"` append exactly the step's `StepLine` |
| `JUnit.TestCase.AddTestCaseElement` | src/commonMain/io/cucumber/plugin/core/JUnitFormatter.kt:176-196 | the element gets the result's formatted time and one more child: the outcome child built on the case's listing |
| `JUnit.TestCase.HandleEmptyTestCase` | src/commonMain/io/cucumber/plugin/core/JUnitFormatter.kt:245-249 | the element gets the result's formatted time and one "no steps" failure, whatever the status; its classname and name are kept |
| `JUnit.JUnitFormatter.constructor` | src/commonMain/io/cucumber/plugin/core/JUnitFormatter.kt:43-53 | an empty report: no sources, no elements, no open case, no tracked file, no start instant |
| `JUnit.JUnitFormatter.HandleTestRunStarted` | src/commonMain/io/cucumber/plugin/core/JUnitFormatter.kt:65-67 | records the start instant |
| `JUnit.JUnitFormatter.HandleTestSourceParsed` | src/commonMain/io/cucumber/plugin/core/JUnitFormatter.kt:69-71 | records the file's root nodes, replacing earlier ones for the same file |
| `JUnit.JUnitFormatter.IncreaseTestCount` | src/commonMain/io/cucumber/plugin/core/JUnitFormatter.kt:125-131 | `tests` becomes its old value, or 0 when absent, plus one |
| `JUnit.JUnitFormatter.FindRootNodeName` | src/commonMain/io/cucumber/plugin/core/JUnitFormatter.kt:154-163 | runs the modelled search on the file's first root and returns the classname the rule specifies |
| `JUnit.JUnitFormatter.CalculateElementName` | src/commonMain/io/cucumber/plugin/core/JUnitFormatter.kt:165-174 | the name and the new naming state are those of the naming rule |
| `JUnit.JUnitFormatter.HandleTestCaseStarted` | src/commonMain/io/cucumber/plugin/core/JUnitFormatter.kt:73-84 | opens a fresh case, appends exactly one element with the classname and the display name `NextName` gives (entering the case's file with the reset of line 76 as written), and raises `tests` to the new number of elements |
| `JUnit.JUnitFormatter.HandleTestStepFinished` | src/commonMain/io/cucumber/plugin/core/JUnitFormatter.kt:94-99 | a Gherkin step is appended together with its result, so the case's listing gains exactly that step's line with its own status; a hook changes nothing and needs no open case; steps and results stay the same length |
| `JUnit.JUnitFormatter.HandleTestCaseFinished` | src/commonMain/io/cucumber/plugin/core/JUnitFormatter.kt:86-92 | the last element gets its time and exactly one child ("no steps" failure or outcome child); only the total of that child's kind rises, by one |
| `JUnit.JUnitFormatter.HandleTestRunFinished` | src/commonMain/io/cucumber/plugin/core/JUnitFormatter.kt:101-123 | the suite gets the formatter's class name, the number of failure and skipped children, errors 0 and the run's duration as text; the writer is closed |

## Left out

- Serialising the report is not modelled: the XML DOM, `Transformer`, `UTF8OutputStreamWriter` and `closeQuietly` (JUnitFormatter.kt:112-122, 133-139, 269-278). The records stand for the DOM. `writerClosed` marks the close.
- `setEventPublisher` (JUnitFormatter.kt:55-63), `EventPublisher.kt`, `Event.kt`, `TestRunStarted.kt` and `TimeStampedEvent.kt` are left out. They only register handlers or carry instants. The handlers are called directly, and instants are integers.
- `DurationFormat.FormatSeconds` takes whole milliseconds. It does not model `Duration.toMillis()` dropping sub-millisecond nanoseconds, nor the `Double` division. An exact count of milliseconds has at most three decimals, so no rounding arises.
- `JUnit.JUnitFormatter.CalculateElementName` counts with an unbounded `nat`. The code's 32-bit `Int` would wrap after 2^31 repeats of one name. The same goes for `tests` in `JUnit.JUnitFormatter.IncreaseTestCount` (kept as a number, not as attribute text parsed back by `Integer.parseInt`).
- `printStackTrace`, `getMessage` and `getClass().getName()` are not called. They are the three string fields of `Error`.
- `JUnitReport.OutcomeChild`, and `JUnit.JUnitFormatter.HandleTestCaseFinished` when the case recorded steps, require an error on FAILED and AMBIGUOUS results, because `addTestCaseElement` (lines 182-184) dereferences it and would throw without one. A case without steps takes `handleEmptyTestCase`, which reads no error, and accepts any result.
- Open case required: `HandleTestCaseFinished` requires an open case, and so does `HandleTestStepFinished` for a Gherkin step, where the code's `testCase!!` would throw. A hook step is filtered out at line 95 before `testCase!!` is reached, so it is accepted with or without an open case.
- `HandleTestRunFinished` requires a start instant, where `Duration.between` would throw on `null`.
- `JUnitReport.RootNodeName` answers "Unknown" for a URI that no source was parsed for. The code calls `.map` on the `null` lookup, so this case is undefined there.
- The Kotlin leaf `findPathTo` returns a `List` (empty or `[this]`), while containers return an `Optional<List>`. Both are modelled as `Option`, and an empty list is `None`.
- `Node` does not enforce which variants a container may hold, for example that an Examples block holds only Example rows. The search, `map` and their proofs hold for any children.
- The `IllegalArgumentException` branches of `map` (Node.kt:75-76, 84-85) are unreachable with the closed variant, so they are not modelled.
- `SourceTree.Map` returns a record of every mapper call: node, parent, value and nested calls. The Kotlin code returns only the outermost value and discards the values of the nested calls. Those calls matter only for their side effects, which are outside the model.

## Findings

| source | as written | input that shows it | evidently intended | confidence | as-written member | corrected member |
|---|---|---|---|---|---|---|
| src/commonMain/io/cucumber/plugin/core/JUnitFormatter.kt:74-78 | entering a new feature file sets `previousTestCaseName = ""`, so the empty name counts as a repeat | the first case of a file has a blank scenario name, which Node.kt's comment allows (lines 9-10): it is named `"_2"` instead of `""` | the first case of a file keeps its name verbatim, whatever the name, as every non-blank name does | not executed | `JUnitReport.BlankNamesNumberedFromTwo` (the rule `JUnit.JUnitFormatter.HandleTestCaseStarted` follows) | `JUnitReport.FirstCaseOfFileKeepsName` (with `JUnitReport.DisplayNamesAgree`) |
