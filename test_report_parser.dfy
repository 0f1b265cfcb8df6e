/** `findFailedTests` of the test-report parsers: given the parsed
    `obj.testsuite.testcase` of a JUnit report, the test cases that have a
    `failure` entry, or `undefined` when there are none. The xml2js and the
    xml2json variants of the parser contain the same function; they differ
    only in the shape of the parsed value, which `Testcases` covers. */
module TestReportParser {
  import opened Wrappers
  import opened JsValues

  /** A parsed `<testcase>` element: its attributes (merged in) and its child
      elements, as the properties of one object. */
  type TestCase = JsObject

  /** The value of `obj.testsuite.testcase`. xml2js always gives an array;
      xml2json gives a lone object when the suite has a single test case. */
  datatype Testcases =
    | Missing                        // no `testcase` property
    | Single(testcase: TestCase)     // an object, which has no `length` or `filter`
    | List(items: seq<TestCase>)     // an array

  /** The TypeError thrown by `arr.length` on `undefined` or by `arr.filter`
      on a plain object. */
  datatype TypeError = TypeError

  /** `el.failure !== undefined` */
  predicate HasFailure(t: TestCase) {
    Get(t, "failure") != Undefined
  }

  /** `a` is `b` with some elements left out, in the same order. */
  predicate IsSubsequence<T(==)>(a: seq<T>, b: seq<T>)
    decreases |b|
  {
    if a == [] then true
    else if b == [] then false
    else if a[0] == b[0] then IsSubsequence(a[1..], b[1..])
    else IsSubsequence(a, b[1..])
  }

  /** Number of test cases in `items` that have a failure. */
  function FailureCount(items: seq<TestCase>): nat
    decreases |items|
  {
    if items == [] then 0 else (if HasFailure(items[0]) then 1 else 0) + FailureCount(items[1..])
  }

  /** `arr.filter((el) => el.failure !== undefined)` */
  function FailedOnly(items: seq<TestCase>): (r: seq<TestCase>)
    ensures |r| <= |items|
    ensures forall j :: 0 <= j < |r| ==> HasFailure(r[j])
    ensures forall t :: t in r ==> t in items
    decreases |items|
  {
    if items == [] then []
    else (if HasFailure(items[0]) then [items[0]] else []) + FailedOnly(items[1..])
  }

  /** Every test case with a failure is kept. */
  lemma {:induction false} FailedOnlyComplete(items: seq<TestCase>, i: nat)
    requires i < |items| && HasFailure(items[i])
    ensures items[i] in FailedOnly(items)
    decreases i
  {
    if i > 0 {
      FailedOnlyComplete(items[1..], i - 1);
      assert items[1..][i - 1] == items[i];
    }
  }

  /** The kept test cases are in their input order. */
  lemma {:induction false} FailedOnlyIsSubsequence(items: seq<TestCase>)
    ensures IsSubsequence(FailedOnly(items), items)
    decreases |items|
  {
    if items != [] {
      FailedOnlyIsSubsequence(items[1..]);
      var rest := FailedOnly(items[1..]);
      if HasFailure(items[0]) {
        assert FailedOnly(items) == [items[0]] + rest;
        assert ([items[0]] + rest)[1..] == rest;
      } else {
        assert FailedOnly(items) == rest;
        if rest != [] {
          // rest[0] has a failure, so it cannot be matched with items[0]
          assert rest[0] != items[0];
        }
      }
    }
  }

  /** Exactly the failing test cases are kept, each as often as it occurs:
      none missing and none extra. */
  lemma {:induction false} FailedOnlyExact(items: seq<TestCase>)
    ensures forall t :: multiset(FailedOnly(items))[t] == if HasFailure(t) then multiset(items)[t] else 0
    ensures |FailedOnly(items)| == FailureCount(items)
    decreases |items|
  {
    if items != [] {
      FailedOnlyExact(items[1..]);
      assert items == [items[0]] + items[1..];
      assert multiset(items) == multiset{items[0]} + multiset(items[1..]);
    }
  }

  /** The filter is empty exactly when no test case has a failure. */
  lemma {:induction false} FailedOnlyEmpty(items: seq<TestCase>)
    ensures FailedOnly(items) == [] <==> forall i :: 0 <= i < |items| ==> !HasFailure(items[i])
  {
    if FailedOnly(items) == [] {
      forall i | 0 <= i < |items| ensures !HasFailure(items[i]) {
        if HasFailure(items[i]) {
          FailedOnlyComplete(items, i);
        }
      }
    } else {
      var r := FailedOnly(items);
      assert r[0] in items && HasFailure(r[0]);
      var i :| 0 <= i < |items| && items[i] == r[0];
      assert HasFailure(items[i]);
    }
  }

  /** `findFailedTests(obj)`, given `obj.testsuite.testcase`. Ok(None) is a
      returned `undefined`, both from the explicit branch and from falling
      off the end of the function on an empty array. */
  function FindFailedTests(testcases: Testcases): (r: Result<Option<seq<TestCase>>, TypeError>)
    // only an array can be filtered
    ensures r.Err? <==> !testcases.List?
    // an empty array falls through to undefined
    ensures testcases.List? && testcases.items == [] ==> r == Ok(None)
    // undefined exactly when no test case failed; never an empty array
    ensures testcases.List? ==>
      (r == Ok(None) <==> forall i :: 0 <= i < |testcases.items| ==> !HasFailure(testcases.items[i]))
    ensures r.Ok? && r.value.Some? ==> 1 <= |r.value.value| <= |testcases.items|
    // a defined result holds failing test cases only, in input order
    ensures r.Ok? && r.value.Some? ==>
      && (forall j :: 0 <= j < |r.value.value| ==> HasFailure(r.value.value[j]))
      && IsSubsequence(r.value.value, testcases.items)
    // ... and every failing test case
    ensures r.Ok? && r.value.Some? ==>
      forall i :: 0 <= i < |testcases.items| && HasFailure(testcases.items[i]) ==>
        testcases.items[i] in r.value.value
    // ... each exactly as often as in the input
    ensures r.Ok? && r.value.Some? ==>
      forall t :: multiset(r.value.value)[t] == if HasFailure(t) then multiset(testcases.items)[t] else 0
  {
    match testcases
    case Missing => Err(TypeError)
    case Single(_) => Err(TypeError)
    case List(arr) =>
      if |arr| != 0 then
        var result := FailedOnly(arr);
        FailedOnlyEmpty(arr);
        FailedOnlyIsSubsequence(arr);
        FailedOnlyCompleteAll(arr);
        FailedOnlyExact(arr);
        if |result| != 0 then Ok(Some(result)) else Ok(None)
      else
        Ok(None)
  }

  /** `FailedOnlyComplete` for every index at once. */
  lemma FailedOnlyCompleteAll(items: seq<TestCase>)
    ensures forall i :: 0 <= i < |items| && HasFailure(items[i]) ==> items[i] in FailedOnly(items)
  {
    forall i | 0 <= i < |items| && HasFailure(items[i])
      ensures items[i] in FailedOnly(items)
    {
      FailedOnlyComplete(items, i);
    }
  }
}
