# cxxunit in Dafny

A model of cxxunit, a small header-only C++ unit-test harness, together with its
sample suite `BlahTests`. In cxxunit you derive a suite from `TestSuite`. Its constructor
declares test cases through three overloads of `test(...)`:

- a single nullary behaviour;
- a table of data values, giving one unary test per value;
- a list of `given(g).expect(e)` expectations, giving one binary test per expectation.

Every suite registers itself in a process-wide registry when it is constructed.
`runAllTestSuites` runs every registered suite in registration order:

- each test runs once, in order;
- failures are reported on the console;
- passes and failures are counted;
- the function returns the total number of failures.

Behaviours signal failure through the assertions `assert(v).isTrue()`,
`.isFalse()` and `.equals(u)`, which throw a message string.

The model has four modules, one per file:

- `Text` (`text.dfy`):
  - the decimal rendering that `operator<<` gives integers and counts;
  - its inverse and injectivity;
  - the separator lemmas used to split rendered lines back into their parts.
- `TestCases` (`test_case.dfy`, `cxxunit/Test.h`):
  - the three test kinds as one datatype;
  - `Run`.
- `TestSuites` (`test_suite.dfy`, `cxxunit/TestSuite.h`):
  - expectations and assertions;
  - `testCaseData` and descriptions;
  - the `TestSuite` class with its registration methods and `RunSingleSuite`, which is proved against the specification functions `Tally`, `CaseLines` and `SuiteReport`;
  - the `Registry` class with `RunAllTestSuites`.
- `BlahSample` (`blah_tests.dfy`, `BlahTests.h`):
  - `Blah::isOdd`, using the C++ truncating `%`, and `Blah::timesTwo`;
  - the thirteen registrations of the `BlahTests` constructor;
  - the end-to-end run: 12 passes, 1 failure, the exact four lines written, and a return value of 1.

How the C++ is modelled:

- A behaviour is a function returning an `Outcome`: `Pass`, `AssertFail(message)` or `Unexpected`.
  - `AssertFail` stands for a thrown `std::string`.
  - `Unexpected` stands for any other exception.
- The console output of a run is returned as a `seq<string>` of lines, one per `std::endl`.
- The rendering of a bound value by `operator<<` is a parameter `show`. The sample uses `IntToString`.
- The field `Expectation::expect` is called `expected`, because `expect` is a Dafny keyword.
- `TestSuite::assert(v)` and `TestSuite::given(v)` are the datatype constructors `Assert(v)` and `Given(v)`.
- The derived class `BlahTests` becomes the method `ConstructBlahTests`. It creates the base `TestSuite("BlahTests")`, then makes the same four `test(...)` calls on it.

## Model

| member | source | states |
|---|---|---|
| Text.NatToString | cxxunit/TestSuite.h:233-236 | a count is rendered as a non-empty string of decimal digits with no leading zero except for 0 itself |
| Text.IntToString | cxxunit/TestSuite.h:68-69 | an `int` is rendered with a minus sign exactly when it is negative, followed by at least one decimal digit, with no leading zero except for 0 itself |
| Text.ParseNatToString | cxxunit/TestSuite.h:233-236 | reading back the decimal rendering of a count gives the count: the rendering loses nothing |
| Text.ParseIntToString | cxxunit/TestSuite.h:68-69 | reading back the decimal rendering of an `int` gives the `int` |
| Text.ParseIntOfSigned | cxxunit/TestSuite.h:68-69 | a minus sign followed by the decimal digits of `n` reads back as `-n` |
| Text.IntToStringInjective | cxxunit/TestSuite.h:68-69 | two integers render alike exactly when they are equal |
| Text.NatToStringInjective | cxxunit/TestSuite.h:233-236 | two counts render alike exactly when they are equal |
| TestCases.ConstructorsKeepNameAndDescription | cxxunit/Test.h:8-10 | each of the three kinds of test keeps its constructor's name and description exactly |
| TestCases.NullaryRunsItsBehaviour | cxxunit/Test.h:29-32 | running a nullary test calls its behaviour with no arguments and gives the behaviour's outcome |
| TestCases.UnaryRunsOnItsArgument | cxxunit/Test.h:48-51 | running a unary test is calling its behaviour on exactly the bound argument, the same as running the nullary test that closes over it |
| TestCases.BinaryKeepsArgumentOrder | cxxunit/Test.h:75-78 | running a binary test calls the behaviour with the first bound argument first and the second one second |
| TestCases.RunIgnoresNameAndDescription | cxxunit/Test.h:15-16 | the outcome of a run does not depend on name or description, so a re-run of the same test gives the same outcome |
| TestSuites.Given.Expect | cxxunit/TestSuite.h:36-39 | `given(v).expect(w)` is the expectation whose given value is `v` and whose expected value is `w` |
| TestSuites.RenderExpectationDecodes | cxxunit/TestSuite.h:25-28 | when the given value renders without a space, two expectations render alike exactly when both their given and their expected renderings agree |
| TestSuites.IntExpectationRenderingInjective | cxxunit/TestSuite.h:25-28 | integer expectations render alike (`Given g expect e`) exactly when they are equal |
| TestSuites.IsTrue | cxxunit/TestSuite.h:51-55 | `isTrue` passes exactly when the value is true; otherwise it fails with "Expected true, but was false" |
| TestSuites.IsFalse | cxxunit/TestSuite.h:57-61 | `isFalse` passes exactly when the value is false; otherwise it fails with "Expected false, but was true" |
| TestSuites.Equals | cxxunit/TestSuite.h:63-72 | `equals(u)` passes exactly when the value equals `u`; otherwise it fails with "Expected '<u>' but was '<value>'" |
| TestSuites.BoolAssertionsAgree | cxxunit/TestSuite.h:51-72 | on a boolean exactly one of `isTrue` and `isFalse` passes, and each agrees with `equals` against its constant |
| TestSuites.EqualsMessageDecodes | cxxunit/TestSuite.h:68-70 | when the expected value renders without a quote, the failure message of `equals` determines the renderings of the expected and the actual values, and never swaps them |
| TestSuites.TestCaseData1 | cxxunit/TestSuite.h:144-149 | `testCaseData(t)` is the one-element list `[t]` |
| TestSuites.TestCaseData2 | cxxunit/TestSuite.h:151-156 | `testCaseData(t1, t2)` has length 2 and holds its arguments in call order |
| TestSuites.TestCaseData3 | cxxunit/TestSuite.h:158-163 | `testCaseData(t1, t2, t3)` has length 3 and holds its arguments in call order |
| TestSuites.TestCaseData4 | cxxunit/TestSuite.h:165-170 | `testCaseData` of four arguments has length 4 and holds them in call order |
| TestSuites.TestCaseData5 | cxxunit/TestSuite.h:172-177 | `testCaseData` of five arguments has length 5 and holds them in call order |
| TestSuites.TestCaseDataExtends | cxxunit/TestSuite.h:144-177 | each arity's list is the one below it extended by the last argument |
| TestSuites.DescriptionDecodes | cxxunit/TestSuite.h:229-238 | for one base description, `D [i of n, data 's']` determines `i`, `n` and `s`; no two tests generated by one table share a description |
| TestSuites.FailureLines | cxxunit/TestSuite.h:116-131 | a passing test writes no line and a failing test writes exactly two |
| TestSuites.FailureLinesDecode | cxxunit/TestSuite.h:116-131 | the lines written for a test determine its outcome: a pass, each string failure message and any other failure write different lines |
| TestSuites.HeaderLineDecodes | cxxunit/TestSuite.h:108-111 | the header line `Running suite <name> (<n> tests)` determines the test count |
| TestSuites.SummaryLineDecodes | cxxunit/TestSuite.h:134-137 | the summary line `  Passes: <p> / Failures: <f>` determines both counts |
| TestSuites.Tally | cxxunit/TestSuite.h:113-132 | the counts after running a list of tests add up to its length |
| TestSuites.TallyAppend | cxxunit/TestSuite.h:114-132 | passes and failures of `a` followed by `b` are the sums of those of `a` and of `b` |
| TestSuites.CaseLinesAppend | cxxunit/TestSuite.h:114-132 | the failure lines of `a` followed by `b` are those of `a` followed by those of `b`, in registration order |
| TestSuites.TallyZeroIffAllPass | cxxunit/TestSuite.h:114-132 | a suite counts zero failures exactly when every one of its tests passes |
| TestSuites.TallyCountsFailingTests | cxxunit/TestSuite.h:120-131 | a failing test adds exactly one failure and no pass to the counts of the tests around it |
| TestSuites.CaseLinesAllPass | cxxunit/TestSuite.h:114-119 | a suite whose tests all pass writes no failure lines |
| TestSuites.TestSuite.constructor | cxxunit/TestSuite.h:90-94 | a new suite has the given name and no tests, and is appended to the end of the registry, which keeps no suite twice |
| TestSuites.TestSuite.RunSingleSuite | cxxunit/TestSuite.h:106-140 | runs each test once, in order; the header line, then two failure lines per string failure (`FAIL: name: msg`, `  desc`) or per other failure (`FAIL: name`, `  "desc"`), then the summary line; returns the failure count, at most the number of tests |
| TestSuites.TestSuite.TestNullary | cxxunit/TestSuite.h:191-197 | appends exactly one nullary test with the given name, description and behaviour |
| TestSuites.TestSuite.TestTable | cxxunit/TestSuite.h:199-211 | appends one unary test per data value, in order: test `i` (from 1) is bound to the `i`-th value and described as `D [i of N, data 'v']`; earlier tests are unchanged |
| TestSuites.TestSuite.TestExpectations | cxxunit/TestSuite.h:213-225 | appends one binary test per expectation, in order, bound to (given, expected) and described with `Given g expect e` as its data; earlier tests are unchanged |
| TestSuites.Registry.constructor | cxxunit/TestSuite.h:242 | the registry starts empty |
| TestSuites.Registry.RunAllTestSuites | cxxunit/TestSuite.h:96-104 | runs every registered suite in registration order; returns the sum of their failure counts and writes their reports one after another |
| TestSuites.TotalFailuresZeroIffAllPass | cxxunit/TestSuite.h:96-104 | the whole run returns 0 exactly when every test of every registered suite passes |
| BlahSample.TruncRem | BlahTests.h:13 | the C++ remainder completes the truncating quotient (`a == b * (a / b) + a % b`), equals the Euclidean remainder of the magnitudes with the sign of the dividend, and is smaller in magnitude than the divisor |
| BlahSample.TimesTwo | BlahTests.h:16-19 | `timesTwo(n)` is even and half of it is `n` |
| BlahSample.IsOdd | BlahTests.h:11-14 | `isOdd(n)` holds exactly when `n` is positive and odd |
| BlahSample.IsOddOfNegativeOdd | BlahTests.h:11-14 | for a negative odd number the C++ remainder is -1, so `isOdd` is false |
| BlahSample.ConstructBlahTests | BlahTests.h:25-58 | constructing the sample registers one new suite named "BlahTests" holding the thirteen tests in declaration order: `isOdd(0)`, five `isOdd` over 1,3,5,7,9, five over 2,4,6,8,10, two `timesTwo` |
| BlahSample.OddTableRegistered | BlahTests.h:33-39 | the odd-number table appends the five `isOdd` tests over 1,3,5,7,9 with their `[i of 5, data 'v']` descriptions |
| BlahSample.EvenTableRegistered | BlahTests.h:41-47 | the even-number table appends the five `isOdd` tests over 2,4,6,8,10 |
| BlahSample.TimesTwoTableRegistered | BlahTests.h:49-57 | the expectation list goes to the expectation overload and appends the two binary `timesTwo` tests (2, 4) and (3, 7) |
| BlahSample.IsOddOfZero | BlahTests.h:27-31 | the body of the `isOdd(0)` test passes |
| BlahSample.IsOddOfOdd | BlahTests.h:35-39 | the body of the odd-number tests passes exactly on positive odd numbers, and otherwise fails with the message of `isTrue` |
| BlahSample.IsOddOfEven | BlahTests.h:43-47 | the body of the even-number tests passes exactly on numbers that are not positive and odd, so on every even number, and otherwise fails with the message of `isFalse` |
| BlahSample.TimesTwoOf | BlahTests.h:52-57 | the body of the `timesTwo` tests passes exactly when the expected value is twice the input, and otherwise fails with "Expected '<expected>' but was '<2 * input>'" |
| BlahSample.OddTestsPass | BlahTests.h:33-39 | all five odd-number tests pass |
| BlahSample.EvenTestsPass | BlahTests.h:41-47 | all five even-number tests pass |
| BlahSample.TimesTwoOutcomes | BlahTests.h:49-57 | `timesTwo` given 2 expect 4 passes; given 3 expect 7 fails with "Expected '7' but was '6'" |
| BlahSample.FailingDescriptionText | BlahTests.h:49-51 | the failing test is described as "Return argument multiplied by two [2 of 2, data 'Given 3 expect 7']" |
| BlahSample.PassingTally | BlahTests.h:27-47 | the first eleven registered tests count 11 passes and no failure |
| BlahSample.TimesTwoTally | BlahTests.h:49-57 | the two `timesTwo` tests count one pass and one failure |
| BlahSample.BlahTally | BlahTests.h:25-58 | the sample suite holds 13 tests and counts 12 passes and 1 failure |
| BlahSample.PassingCaseLines | BlahTests.h:27-47 | the first eleven registered tests write no failure lines |
| BlahSample.TimesTwoCaseLines | BlahTests.h:49-57 | the two `timesTwo` tests write exactly the two failure lines of the second one |
| BlahSample.BlahCaseLines | BlahTests.h:49-57 | the only failure lines of the sample run are those of the failing `timesTwo` test |
| BlahSample.BlahReport | cxxunit/TestSuite.h:106-140 | the sample suite's report is its header, the two failure lines and "  Passes: 12 / Failures: 1" |
| BlahSample.RunBlahScenario | cxxunit/TestSuite.h:96-104 | with the sample as the only registered suite, running all suites returns 1 and writes exactly those four lines |

## Left out

- Console output: `std::cout` and `std::stringstream` are not modelled as streams. Each line written becomes an element of the returned log, and value rendering is the `show` parameter.
- Exceptions: `throw`/`catch` are replaced by the `Outcome` a behaviour returns. A behaviour that aborts the process or loops forever has no counterpart.
- Heap allocation: `new` tests and suites, their ownership and their never being freed are not modelled.
- The global registry: `TestSuite::Registry` is a static vector filled during static initialisation, in an order that depends on translation units. Here it is an explicit `Registry` object passed to the suite constructor.
- Templates and overload resolution: each `test(...)` overload is a separately named method (`TestNullary`, `TestTable`, `TestExpectations`). So the choice of the expectation overload for an `Expectation` list, on which the sample's `timesTwo` registration relies, is made explicitly by calling `TestExpectations`.
- Lambdas and their `[&]` captures become named functions (`IsOddOfZero`, `IsOddOfOdd`, `IsOddOfEven`, `TimesTwoOf`).
- Argument types: all tests of one suite (and one registry) bind values of one type `V`, whereas C++ lets every table have its own argument type.
- TestSuites.IsTrue: only `Assert<bool>` is modelled, which is all the sample uses. For another arithmetic `T`, the C++ test `true != value` promotes `true` to 1, so `isTrue` passes only on the value 1 and fails with "Expected true, but was false" on every other value, 2 included.
- TestSuites.IsFalse: only `Assert<bool>` is modelled, which is all the sample uses. For another arithmetic `T`, the C++ test `false != value` promotes `false` to 0, so `isFalse` passes only on the value 0.
- TestSuites.Equals: `equals<U>` compares values of two possibly different types. The model compares values of one type, which is what the sample uses.
- BlahSample.TimesTwo: does not model 32-bit `int` overflow, because integers are unbounded. The sample's inputs are in range.
- TestSuites.TestSuite.RunSingleSuite: the `size_t` failure count is converted to `int` on return. The model returns a `nat`, with no narrowing.
- TestSuites.Registry.RunAllTestSuites: the summed `int` cannot overflow in the model.
- TestSuites.TestSuite.RunSingleSuite: no separate lemma about running a suite twice. The method has no `modifies` clause, so it cannot change the suite, and a second run gives the same result by its postcondition.
