/**
 * The custom assertion helpers of the ingress controller's end-to-end test
 * suite. Each search helper scans a list of Kubernetes events from the
 * newest (last) entry back to the oldest and acts on the first entry whose
 * message matches; a miss fails the test. A test failure is an `Outcome`
 * value here instead of an exception.
 *
 * For every search helper there is a specification function (its expected
 * outcome, stated through `LastIndex`, `LastChanged` and `FirstMissing`) and
 * a method with the Python helper's reverse `for` loop over
 * `range(len - 1, -1, -1)`, written as a `while` loop, whose postcondition
 * is that function. Lemmas below each pair state what the helper promises in
 * terms of the event list itself.
 */
module CustomAssertions {
  import opened PyText

  datatype Option<T> = None | Some(value: T)

  /** An event record: its text and its cumulative occurrence counter. */
  datatype Event = Event(message: string, count: int)

  /** An HTTP response; only its status code is inspected. */
  datatype Response = Response(statusCode: int)

  /** How an event's message is matched against the expected text. */
  datatype Matcher =
    | Substring(text: string)  // `event_text in message`
    | Prefix(text: string)     // `message.startswith(event_text)`

  predicate Matches(m: Matcher, message: string) {
    match m
    case Substring(t) => Contains(message, t)
    case Prefix(t) => StartsWith(message, t)
  }

  /** Why a helper failed the test. */
  datatype Failure =
    | LengthMismatch                          // the lists differ in length
    | NewEvent(message: string)               // a counter changed; the new list's message
    | NotFound(matcher: Matcher)              // no message matches
    | CountNotGreater(found: int, expected: int)
    | CountNotEqual(found: int, expected: int)
    | FieldMissing(field: string)             // a required field is absent from the message
    | StatusMismatch(response: nat, found: int, expected: int)
    | ConfigPresent                           // the configuration file exists
    | ConfigAbsent                            // the configuration file does not exist

  /** The result of a helper: it passes, passes returning a counter, or fails. */
  datatype Outcome = Pass | PassWith(count: int) | Fail(failure: Failure)

  // ---------------------------------------------------------------------------
  // The search the helpers share
  // ---------------------------------------------------------------------------

  /** Entry i matches and no later entry does: the helpers stop at i. */
  ghost predicate IsLatestMatch(events: seq<Event>, m: Matcher, i: int) {
    && 0 <= i < |events|
    && Matches(m, events[i].message)
    && forall j :: i < j < |events| ==> !Matches(m, events[j].message)
  }

  /** Index of the last event whose message matches m, if any. */
  function LastIndex(events: seq<Event>, m: Matcher): (r: Option<nat>)
    ensures r.Some? ==> IsLatestMatch(events, m, r.value)
    ensures r.None? ==> forall j :: 0 <= j < |events| ==> !Matches(m, events[j].message)
  {
    if |events| == 0 then None
    else if Matches(m, events[|events| - 1].message) then Some(|events| - 1)
    else LastIndex(events[..|events| - 1], m)
  }

  /** LastIndex finds i exactly when i is the latest match. */
  lemma LastIndexIff(events: seq<Event>, m: Matcher, i: nat)
    ensures LastIndex(events, m) == Some(i) <==> IsLatestMatch(events, m, i)
  {
  }

  /** LastIndex finds nothing exactly when no message matches. */
  lemma LastIndexNoneIff(events: seq<Event>, m: Matcher)
    ensures LastIndex(events, m) == None <==>
            forall j :: 0 <= j < |events| ==> !Matches(m, events[j].message)
  {
  }

  /** A newly appended matching event is always the one found ... */
  lemma LastIndexAppendMatching(events: seq<Event>, m: Matcher, e: Event)
    requires Matches(m, e.message)
    ensures LastIndex(events + [e], m) == Some(|events|)
  {
  }

  /** ... and a newly appended event that does not match changes nothing. */
  lemma LastIndexAppendOther(events: seq<Event>, m: Matcher, e: Event)
    requires !Matches(m, e.message)
    ensures LastIndex(events + [e], m) == LastIndex(events, m)
  {
  }

  // ---------------------------------------------------------------------------
  // assert_no_new_events
  // ---------------------------------------------------------------------------

  /** Highest index at which the two (equally long) lists' counters differ. */
  function LastChanged(oldList: seq<Event>, newList: seq<Event>): (r: Option<nat>)
    requires |oldList| == |newList|
    ensures r.Some? ==> && r.value < |newList|
                        && oldList[r.value].count != newList[r.value].count
                        && forall k :: r.value < k < |newList| ==> oldList[k].count == newList[k].count
    ensures r.None? ==> forall k :: 0 <= k < |newList| ==> oldList[k].count == newList[k].count
  {
    if |newList| == 0 then None
    else
      var n := |newList| - 1;
      if oldList[n].count != newList[n].count then Some(n)
      else LastChanged(oldList[..n], newList[..n])
  }

  /** Expected outcome of `assert_no_new_events(old_list, new_list)`. */
  function NoNewEvents(oldList: seq<Event>, newList: seq<Event>): Outcome {
    if |oldList| != |newList| then Fail(LengthMismatch)
    else match LastChanged(oldList, newList)
      case None => Pass
      case Some(j) => Fail(NewEvent(newList[j].message))
  }

  method AssertNoNewEvents(oldList: seq<Event>, newList: seq<Event>) returns (o: Outcome)
    ensures o == NoNewEvents(oldList, newList)
  {
    if |oldList| != |newList| {
      return Fail(LengthMismatch);
    }
    var i := |newList| - 1;
    while i >= 0
      invariant -1 <= i < |newList|
      invariant forall k :: i < k < |newList| ==> oldList[k].count == newList[k].count
    {
      if oldList[i].count != newList[i].count {
        return Fail(NewEvent(newList[i].message));
      }
      i := i - 1;
    }
    return Pass;
  }

  /** Lists of different lengths fail on the length alone, whatever the counters. */
  lemma NoNewEventsLengthFirst(oldList: seq<Event>, newList: seq<Event>)
    requires |oldList| != |newList|
    ensures NoNewEvents(oldList, newList) == Fail(LengthMismatch)
  {
  }

  /** The helper passes iff the lists agree in length and in every counter. */
  lemma NoNewEventsPassIff(oldList: seq<Event>, newList: seq<Event>)
    ensures NoNewEvents(oldList, newList) == Pass <==>
            |oldList| == |newList| &&
            forall k :: 0 <= k < |newList| ==> oldList[k].count == newList[k].count
  {
  }

  /** On a counter mismatch the new list's message at the highest mismatching index is reported. */
  lemma NoNewEventsReportsLastChange(oldList: seq<Event>, newList: seq<Event>, j: nat)
    requires |oldList| == |newList| && j < |newList|
    requires oldList[j].count != newList[j].count
    requires forall k :: j < k < |newList| ==> oldList[k].count == newList[k].count
    ensures NoNewEvents(oldList, newList) == Fail(NewEvent(newList[j].message))
  {
  }

  // ---------------------------------------------------------------------------
  // assert_event_count_increased
  // ---------------------------------------------------------------------------

  /** Expected outcome of `assert_event_count_increased(event_text, count, events_list)`. */
  function EventCountIncreased(eventText: string, count: int, events: seq<Event>): Outcome {
    match LastIndex(events, Substring(eventText))
    case None => Fail(NotFound(Substring(eventText)))
    case Some(i) =>
      if events[i].count > count then Pass
      else Fail(CountNotGreater(events[i].count, count))
  }

  method AssertEventCountIncreased(eventText: string, count: int, events: seq<Event>)
    returns (o: Outcome)
    ensures o == EventCountIncreased(eventText, count, events)
  {
    var i := |events| - 1;
    while i >= 0
      invariant -1 <= i < |events|
      invariant forall j :: i < j < |events| ==> !Contains(events[j].message, eventText)
    {
      if Contains(events[i].message, eventText) {
        assert IsLatestMatch(events, Substring(eventText), i);
        if events[i].count > count {
          return Pass;
        }
        return Fail(CountNotGreater(events[i].count, count));
      }
      i := i - 1;
    }
    return Fail(NotFound(Substring(eventText)));
  }

  /** Passes iff the latest matching event's counter is strictly above count. */
  lemma EventCountIncreasedPassIff(eventText: string, count: int, events: seq<Event>)
    ensures EventCountIncreased(eventText, count, events) == Pass <==>
            exists i :: IsLatestMatch(events, Substring(eventText), i) && events[i].count > count
  {
  }

  /** An unchanged counter is not an increase. */
  lemma EventCountIncreasedEqualFails(eventText: string, events: seq<Event>, i: nat)
    requires IsLatestMatch(events, Substring(eventText), i)
    ensures EventCountIncreased(eventText, events[i].count, events) ==
            Fail(CountNotGreater(events[i].count, events[i].count))
  {
  }

  // ---------------------------------------------------------------------------
  // assert_event_and_count
  // ---------------------------------------------------------------------------

  /** Expected outcome of `assert_event_and_count(event_text, count, events_list)`. */
  function EventAndCount(eventText: string, count: int, events: seq<Event>): Outcome {
    match LastIndex(events, Substring(eventText))
    case None => Fail(NotFound(Substring(eventText)))
    case Some(i) =>
      if events[i].count == count then Pass
      else Fail(CountNotEqual(events[i].count, count))
  }

  method AssertEventAndCount(eventText: string, count: int, events: seq<Event>)
    returns (o: Outcome)
    ensures o == EventAndCount(eventText, count, events)
  {
    var i := |events| - 1;
    while i >= 0
      invariant -1 <= i < |events|
      invariant forall j :: i < j < |events| ==> !Contains(events[j].message, eventText)
    {
      if Contains(events[i].message, eventText) {
        assert IsLatestMatch(events, Substring(eventText), i);
        if events[i].count == count {
          return Pass;
        }
        return Fail(CountNotEqual(events[i].count, count));
      }
      i := i - 1;
    }
    return Fail(NotFound(Substring(eventText)));
  }

  /** Passes iff the latest matching event's counter equals count. */
  lemma EventAndCountPassIff(eventText: string, count: int, events: seq<Event>)
    ensures EventAndCount(eventText, count, events) == Pass <==>
            exists i :: IsLatestMatch(events, Substring(eventText), i) && events[i].count == count
  {
  }

  /** Older matching events do not matter once a newer match is appended. */
  lemma EventAndCountIgnoresOlder(eventText: string, count: int, events: seq<Event>, e: Event)
    requires Contains(e.message, eventText)
    ensures EventAndCount(eventText, count, events + [e]) ==
            if e.count == count then Pass else Fail(CountNotEqual(e.count, count))
  {
  }

  // ---------------------------------------------------------------------------
  // assert_event_and_get_count
  // ---------------------------------------------------------------------------

  /** Expected outcome of `assert_event_and_get_count(event_text, events_list)`. */
  function EventAndGetCount(eventText: string, events: seq<Event>): Outcome {
    match LastIndex(events, Substring(eventText))
    case None => Fail(NotFound(Substring(eventText)))
    case Some(i) => PassWith(events[i].count)
  }

  method AssertEventAndGetCount(eventText: string, events: seq<Event>) returns (o: Outcome)
    ensures o == EventAndGetCount(eventText, events)
  {
    var i := |events| - 1;
    while i >= 0
      invariant -1 <= i < |events|
      invariant forall j :: i < j < |events| ==> !Contains(events[j].message, eventText)
    {
      if Contains(events[i].message, eventText) {
        assert IsLatestMatch(events, Substring(eventText), i);
        return PassWith(events[i].count);
      }
      i := i - 1;
    }
    return Fail(NotFound(Substring(eventText)));
  }

  /** The helper returns the latest matching event's counter ... */
  lemma EventAndGetCountReturnsLatest(eventText: string, events: seq<Event>, i: nat)
    requires IsLatestMatch(events, Substring(eventText), i)
    ensures EventAndGetCount(eventText, events) == PassWith(events[i].count)
  {
  }

  /** ... and, when nothing matches, fails without returning any value. */
  lemma EventAndGetCountMissFails(eventText: string, events: seq<Event>)
    ensures EventAndGetCount(eventText, events).PassWith? <==>
            exists j :: 0 <= j < |events| && Contains(events[j].message, eventText)
    ensures !EventAndGetCount(eventText, events).PassWith? ==>
            EventAndGetCount(eventText, events) == Fail(NotFound(Substring(eventText)))
  {
  }

  // ---------------------------------------------------------------------------
  // assert_response_codes
  // ---------------------------------------------------------------------------

  /** `assert_response_codes(resp_1, resp_2, code_1=200, code_2=200)`: the first
      response is checked first and a mismatch there stops the check. */
  function AssertResponseCodes(resp1: Response, resp2: Response,
                               code1: int := 200, code2: int := 200): (o: Outcome)
    ensures o == Pass <==> resp1.statusCode == code1 && resp2.statusCode == code2
    ensures resp1.statusCode != code1 ==> o == Fail(StatusMismatch(1, resp1.statusCode, code1))
    ensures resp1.statusCode == code1 && resp2.statusCode != code2 ==>
            o == Fail(StatusMismatch(2, resp2.statusCode, code2))
  {
    if resp1.statusCode != code1 then Fail(StatusMismatch(1, resp1.statusCode, code1))
    else if resp2.statusCode != code2 then Fail(StatusMismatch(2, resp2.statusCode, code2))
    else Pass
  }

  /** With the default codes both responses must be 200. */
  lemma ResponseCodesDefaultIs200(resp1: Response, resp2: Response)
    ensures AssertResponseCodes(resp1, resp2) == Pass <==>
            resp1.statusCode == 200 && resp2.statusCode == 200
  {
  }

  // ---------------------------------------------------------------------------
  // assert_event
  // ---------------------------------------------------------------------------

  /** Expected outcome of `assert_event(event_text, events_list)`. */
  function EventPresent(eventText: string, events: seq<Event>): Outcome {
    match LastIndex(events, Substring(eventText))
    case None => Fail(NotFound(Substring(eventText)))
    case Some(_) => Pass
  }

  method AssertEvent(eventText: string, events: seq<Event>) returns (o: Outcome)
    ensures o == EventPresent(eventText, events)
  {
    var i := |events| - 1;
    while i >= 0
      invariant -1 <= i < |events|
      invariant forall j :: i < j < |events| ==> !Contains(events[j].message, eventText)
    {
      if Contains(events[i].message, eventText) {
        assert IsLatestMatch(events, Substring(eventText), i);
        return Pass;
      }
      i := i - 1;
    }
    return Fail(NotFound(Substring(eventText)));
  }

  /** Passes iff some message contains the text; otherwise fails naming the text. */
  lemma EventPresentIff(eventText: string, events: seq<Event>)
    ensures EventPresent(eventText, events) == Pass <==>
            exists j :: 0 <= j < |events| && Contains(events[j].message, eventText)
    ensures EventPresent(eventText, events) != Pass ==>
            EventPresent(eventText, events) == Fail(NotFound(Substring(eventText)))
  {
  }

  /** An empty event list never passes. */
  lemma EventPresentEmptyFails(eventText: string)
    ensures EventPresent(eventText, []) == Fail(NotFound(Substring(eventText)))
  {
  }

  /** A text longer than every message is never contained in one, so it is not found. */
  lemma EventPresentTooLongFails(eventText: string, events: seq<Event>)
    requires forall j :: 0 <= j < |events| ==> |events[j].message| < |eventText|
    ensures EventPresent(eventText, events) == Fail(NotFound(Substring(eventText)))
  {
    forall j | 0 <= j < |events|
      ensures !Contains(events[j].message, eventText)
    {
      if Contains(events[j].message, eventText) {
        ContainsIsShorter(events[j].message, eventText);
      }
    }
  }

  // ---------------------------------------------------------------------------
  // assert_event_starts_with_text_and_contains_errors
  // ---------------------------------------------------------------------------

  /** Index of the first field of fields that message does not contain, if any. */
  function FirstMissing(message: string, fields: seq<string>): (r: Option<nat>)
    ensures r.Some? ==> && r.value < |fields|
                        && !Contains(message, fields[r.value])
                        && forall k :: 0 <= k < r.value ==> Contains(message, fields[k])
    ensures r.None? ==> forall k :: 0 <= k < |fields| ==> Contains(message, fields[k])
  {
    if |fields| == 0 then None
    else
      var n := |fields| - 1;
      match FirstMissing(message, fields[..n])
      case Some(k) => Some(k)
      case None => if Contains(message, fields[n]) then None else Some(n)
  }

  /** Expected outcome of
      `assert_event_starts_with_text_and_contains_errors(event_text, events_list, fields_list)`. */
  function StartsWithAndContainsFields(eventText: string, events: seq<Event>,
                                       fields: seq<string>): Outcome {
    match LastIndex(events, Prefix(eventText))
    case None => Fail(NotFound(Prefix(eventText)))
    case Some(i) =>
      match FirstMissing(events[i].message, fields)
      case None => Pass
      case Some(k) => Fail(FieldMissing(fields[k]))
  }

  method AssertEventStartsWithTextAndContainsErrors(eventText: string, events: seq<Event>,
                                                    fields: seq<string>)
    returns (o: Outcome)
    ensures o == StartsWithAndContainsFields(eventText, events, fields)
  {
    var i := |events| - 1;
    while i >= 0
      invariant -1 <= i < |events|
      invariant forall j :: i < j < |events| ==> !StartsWith(events[j].message, eventText)
    {
      if StartsWith(events[i].message, eventText) {
        assert IsLatestMatch(events, Prefix(eventText), i);
        var message := events[i].message;
        var k := 0;
        while k < |fields|
          invariant 0 <= k <= |fields|
          invariant forall j :: 0 <= j < k ==> Contains(message, fields[j])
        {
          if !Contains(message, fields[k]) {
            return Fail(FieldMissing(fields[k]));
          }
          k := k + 1;
        }
        return Pass;
      }
      i := i - 1;
    }
    return Fail(NotFound(Prefix(eventText)));
  }

  /** Passes iff some message has the prefix and the latest such message has every field. */
  lemma StartsWithAndContainsFieldsPassIff(eventText: string, events: seq<Event>,
                                            fields: seq<string>)
    ensures StartsWithAndContainsFields(eventText, events, fields) == Pass <==>
            exists i :: && IsLatestMatch(events, Prefix(eventText), i)
                        && forall k :: 0 <= k < |fields| ==> Contains(events[i].message, fields[k])
  {
  }

  /** A field missing from the latest prefix match fails the check, whatever older
      prefix matches contain. */
  lemma StartsWithAndContainsFieldsOnlyLatest(eventText: string, events: seq<Event>,
                                               fields: seq<string>, i: nat, f: nat)
    requires IsLatestMatch(events, Prefix(eventText), i)
    requires f < |fields| && !Contains(events[i].message, fields[f])
    ensures StartsWithAndContainsFields(eventText, events, fields).Fail?
  {
  }

  /** Messages that merely contain the text somewhere else do not count as matches. */
  lemma StartsWithAndContainsFieldsNeedsPrefix(eventText: string, events: seq<Event>,
                                                fields: seq<string>)
    requires forall j :: 0 <= j < |events| ==> !StartsWith(events[j].message, eventText)
    ensures StartsWithAndContainsFields(eventText, events, fields) ==
            Fail(NotFound(Prefix(eventText)))
  {
  }

  /** With no fields to check, the helper passes iff some message has the prefix. */
  lemma StartsWithNoFieldsIff(eventText: string, events: seq<Event>)
    ensures StartsWithAndContainsFields(eventText, events, []) == Pass <==>
            exists j :: 0 <= j < |events| && StartsWith(events[j].message, eventText)
  {
  }

  // ---------------------------------------------------------------------------
  // Worked examples on a concrete event list
  // ---------------------------------------------------------------------------

  /** One event "Event X happened" with counter 5, checked by each search helper. */
  lemma SingleEventExamples()
    ensures var l := [Event("Event X happened", 5)];
      && EventAndCount("Event X", 5, l) == Pass
      && EventAndCount("Event X", 6, l) == Fail(CountNotEqual(5, 6))
      && EventCountIncreased("Event X", 4, l) == Pass
      && EventCountIncreased("Event X", 5, l) == Fail(CountNotGreater(5, 5))
      && EventAndGetCount("Event X", l) == PassWith(5)
      && EventPresent("Y", l) == Fail(NotFound(Substring("Y")))
  {
    var l := [Event("Event X happened", 5)];
    assert StartsWith(l[0].message, "Event X");
    assert !Contains(l[0].message, "Y") by {
      ContainsCharIff(l[0].message, 'Y');
    }
  }

  /** Of two matching events the later one is used. */
  lemma LaterEventWinsExample()
    ensures var l := [Event("Event X old", 1), Event("Event X new", 2)];
      && EventAndGetCount("Event X", l) == PassWith(2)
      && EventAndCount("Event X", 1, l) == Fail(CountNotEqual(2, 1))
  {
  }

  // ---------------------------------------------------------------------------
  // assert_vs_conf_not_exists / assert_vs_conf_exists, on the fetched text
  // ---------------------------------------------------------------------------

  const NoSuchFile: string := "No such file or directory"

  /** `assert_vs_conf_not_exists`, given the text the configuration fetch returned. */
  function AssertVsConfNotExists(response: string): (o: Outcome) {
    if Contains(response, NoSuchFile) then Pass else Fail(ConfigPresent)
  }

  /** `assert_vs_conf_exists`, given the text the configuration fetch returned. */
  function AssertVsConfExists(response: string): (o: Outcome) {
    if Contains(response, NoSuchFile) then Fail(ConfigAbsent) else Pass
  }

  /** On any fetched text exactly one of the two configuration checks passes. */
  lemma VsConfChecksAreComplementary(response: string)
    ensures (AssertVsConfExists(response) == Pass) != (AssertVsConfNotExists(response) == Pass)
    ensures AssertVsConfNotExists(response) == Pass <==>
            exists k :: OccursAt(response, NoSuchFile, k)
  {
    ContainsIffOccurs(response, NoSuchFile);
  }
}
