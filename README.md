# Custom assertion helpers of the ingress controller test suite

This project models the assertion helpers in the end-to-end test suite of a Kubernetes
ingress controller. Most helpers search a list of Kubernetes events. Each event has a
`message` string and an occurrence `count`. The search goes from the newest (last) entry
back to the oldest and acts on the first entry whose message matches. Depending on the
helper, it then passes, returns the entry's counter, or compares the counter with an
expected value. When no entry matches, the test fails with a message naming the text.

Structure:

- `text.dfy`, module `PyText`: the two Python string operations the helpers use.
  `StartsWith` is `str.startswith`. `Contains` is the `in` test on strings. Each comes
  with a reference definition and a lemma tying the two together.
- `custom_assertions.dfy`, module `CustomAssertions`:
  - the `Event`, `Response`, `Failure` and `Outcome` datatypes;
  - the shared search `LastIndex`, the index of the latest entry matching a `Matcher`
    (`Substring` or `Prefix`);
  - for each search helper, a specification function giving its expected `Outcome`;
  - for each search helper, a method with the Python helper's reverse `for` loop over
    `range(len - 1, -1, -1)`, written as a `while` loop with early return, proved to
    produce exactly that outcome;
  - lemmas stating what each helper promises in terms of the event list itself.

A test failure (`pytest.fail` or a failing `assert`) is the value `Fail(f)`. The `Failure`
`f` records which check failed and the data the pytest failure message reports: the event
text or matcher, the new list's message, the field, or the found and expected values. A
normal return is `Pass`. The one helper that returns a counter yields `PassWith(count)`.
Because a miss always yields `Fail(NotFound(...))`, it can never return a counter.

`assert_event_starts_with_text_and_contains_errors` checks the required fields only in the
most recent message that has the prefix (lines 97-101). An older prefix match that contains
every field does not make it pass. The code never checks the sign of an event's counter, so
`Event.count` is an `int`.

## Model

| member | source | states |
|---|---|---|
| PyText.ContainsIffOccurs | tests/suite/custom_assertions.py:24 | `t in s` holds iff `t` is the slice of `s` at some offset |
| PyText.StartsWithIffConcat | tests/suite/custom_assertions.py:98 | `s.startswith(p)` holds iff `s` is `p` followed by some rest |
| PyText.ContainsIsShorter | tests/suite/custom_assertions.py:24 | a string contained in `s` is no longer than `s` |
| PyText.ContainsCharIff | tests/suite/custom_assertions.py:24 | a one-character string is contained iff that character occurs |
| CustomAssertions.LastIndex | tests/suite/custom_assertions.py:23-24 | the index found is a matching entry with no matching entry after it; when none is found, no entry matches |
| CustomAssertions.LastIndexIff | tests/suite/custom_assertions.py:23-24 | the search stops at `i` iff `i` is the latest matching entry |
| CustomAssertions.LastIndexNoneIff | tests/suite/custom_assertions.py:23-27 | the search finds nothing iff no message matches |
| CustomAssertions.LastIndexAppendMatching | tests/suite/custom_assertions.py:23-24 | a newly appended matching event is always the one used |
| CustomAssertions.LastIndexAppendOther | tests/suite/custom_assertions.py:23-24 | appending an event that does not match leaves the search result unchanged |
| CustomAssertions.LastChanged | tests/suite/custom_assertions.py:9-10 | the index found has differing counters and all later indices agree; when none is found, all counters agree |
| CustomAssertions.AssertNoNewEvents | tests/suite/custom_assertions.py:7-11 | the reverse loop yields exactly the specified outcome: length mismatch first, then the new list's message at the highest changed index, else pass |
| CustomAssertions.NoNewEventsLengthFirst | tests/suite/custom_assertions.py:8 | lists of different lengths fail on the length check, whatever their counters |
| CustomAssertions.NoNewEventsPassIff | tests/suite/custom_assertions.py:8-11 | passes iff the lists have equal length and equal counters at every index |
| CustomAssertions.NoNewEventsReportsLastChange | tests/suite/custom_assertions.py:9-11 | if `j` is the highest index with differing counters, the failure names `new_list[j].message` |
| CustomAssertions.AssertEventCountIncreased | tests/suite/custom_assertions.py:14-27 | the reverse loop yields exactly the specified outcome: not found, counter not greater, or pass |
| CustomAssertions.EventCountIncreasedPassIff | tests/suite/custom_assertions.py:23-27 | passes iff a latest substring match exists and its counter is strictly greater than `count` |
| CustomAssertions.EventCountIncreasedEqualFails | tests/suite/custom_assertions.py:25 | an unchanged counter on the latest match fails |
| CustomAssertions.AssertEventAndCount | tests/suite/custom_assertions.py:30-43 | the reverse loop yields exactly the specified outcome: not found, counter differs, or pass |
| CustomAssertions.EventAndCountPassIff | tests/suite/custom_assertions.py:39-43 | passes iff a latest substring match exists and its counter equals `count` |
| CustomAssertions.EventAndCountIgnoresOlder | tests/suite/custom_assertions.py:39-42 | after a matching event is appended, only its counter decides the result, whatever older matches hold |
| CustomAssertions.AssertEventAndGetCount | tests/suite/custom_assertions.py:46-57 | the reverse loop yields exactly the specified outcome: the latest match's counter, or not found |
| CustomAssertions.EventAndGetCountReturnsLatest | tests/suite/custom_assertions.py:54-56 | the counter returned is that of the latest substring match |
| CustomAssertions.EventAndGetCountMissFails | tests/suite/custom_assertions.py:54-57 | a counter is returned iff some message contains the text; otherwise the result is the not-found failure |
| CustomAssertions.AssertResponseCodes | tests/suite/custom_assertions.py:60-71 | passes iff both status codes equal the expected codes; the first response's mismatch is reported before the second's |
| CustomAssertions.ResponseCodesDefaultIs200 | tests/suite/custom_assertions.py:60 | with the default codes, passes iff both responses have status 200 |
| CustomAssertions.AssertEvent | tests/suite/custom_assertions.py:74-85 | the reverse loop yields exactly the specified outcome: pass on the first match, not found otherwise |
| CustomAssertions.EventPresentIff | tests/suite/custom_assertions.py:82-85 | passes iff some message contains the text; otherwise fails naming the text |
| CustomAssertions.EventPresentEmptyFails | tests/suite/custom_assertions.py:82-85 | an empty event list always fails |
| CustomAssertions.EventPresentTooLongFails | tests/suite/custom_assertions.py:82-85 | a text longer than every message is never found, so the check fails naming the text |
| CustomAssertions.FirstMissing | tests/suite/custom_assertions.py:99-100 | the index found is the first field the message lacks; when none is found, the message contains every field |
| CustomAssertions.AssertEventStartsWithTextAndContainsErrors | tests/suite/custom_assertions.py:88-102 | the nested loops yield exactly the specified outcome: prefix not found, first missing field, or pass |
| CustomAssertions.StartsWithAndContainsFieldsPassIff | tests/suite/custom_assertions.py:97-102 | passes iff a latest prefix match exists and it contains every field |
| CustomAssertions.StartsWithAndContainsFieldsOnlyLatest | tests/suite/custom_assertions.py:97-101 | a field missing from the latest prefix match fails the check, whatever older prefix matches contain |
| CustomAssertions.StartsWithAndContainsFieldsNeedsPrefix | tests/suite/custom_assertions.py:98-102 | with no message having the prefix, the check fails as not found, even if messages contain the text elsewhere |
| CustomAssertions.StartsWithNoFieldsIff | tests/suite/custom_assertions.py:97-102 | with an empty field list, passes iff some message has the prefix |
| CustomAssertions.SingleEventExamples | tests/suite/custom_assertions.py:23-85 | on the single event "Event X happened" with counter 5: exact count 5 passes, 6 fails, greater than 4 passes, greater than 5 fails, the counter returned is 5, and "Y" is not found |
| CustomAssertions.LaterEventWinsExample | tests/suite/custom_assertions.py:54-56 | of two matching events, the later one's counter is returned and compared |
| CustomAssertions.VsConfChecksAreComplementary | tests/suite/custom_assertions.py:105-120 | on any fetched text exactly one of the two configuration checks passes; "not exists" passes iff the text contains "No such file or directory" |

## Left out

- The configuration fetch: `get_vs_nginx_template_conf` reads a file from a running pod
  through the Kubernetes API. It is not part of this model. `AssertVsConfNotExists` and
  `AssertVsConfExists` take the text that the fetch returned as a parameter.
- Kubernetes API objects, the virtual-server setup and the HTTP client. A response is
  reduced to its integer status code. How the event lists are produced is not modelled.
- pytest's failure machinery: exceptions become `Fail` values. The exact wording of the
  failure messages and pytest's assertion-rewriting diagnostics are not modelled. A
  `Failure` carries the data the message reports.
- The `str(...)` conversion of the message at line 98: messages are already strings.
- The string operations work on sequences of characters. Python's own string
  representation (code points, no normalisation) is assumed and not modelled further.
