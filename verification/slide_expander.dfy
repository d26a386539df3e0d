/**
 * The sequential explainer: the same two remote questions as the
 * asynchronous one, asked one after the other without catching anything,
 * and a loop over the slides that means to turn a failed slide into an error
 * note and carry on with the next.
 */
module SlideExpander {
  import opened Wrappers
  import opened PyDict
  import opened Service
  import GptSlideExplainer

  /** One remote call with nothing caught: every failure propagates. */
  function Ask(q: Request, oracle: Oracle): (r: Traced<string>)
    ensures r.calls == [q]
    ensures r.outcome.Returned? <==> oracle(q).Ok?
    ensures r.outcome.Raised? ==> r.outcome.error == ReplyError(oracle(q))
    ensures oracle(q).Ok? ==> r.outcome == Returned(oracle(q).content)
  {
    var reply := oracle(q);
    match reply
    case Ok(content) => Traced(Returned(content), [q])
    case _ => Traced(Raised(ReplyError(reply)), [q])
  }

  /** `generate_topic_for_presentation`: `''` without asking when the text is
      falsy; otherwise the service's answer, and any service error, the
      authentication failure included, reaches the caller. */
  function GenerateTopic(text: Option<string>, oracle: Oracle): (r: Traced<string>)
    ensures r.calls == [] <==> !Truthy(text)
    ensures !Truthy(text) ==> r.outcome == Returned("")
    ensures r.calls != [] ==> r.calls == [TopicRequest(text.value)]
    ensures r.outcome.Raised? <==> Truthy(text) && !oracle(TopicRequest(text.value)).Ok?
    ensures Truthy(text) && oracle(TopicRequest(text.value)).Ok? ==>
      r.outcome == Returned(oracle(TopicRequest(text.value)).content)
  {
    if Truthy(text) then Ask(TopicRequest(text.value), oracle)
    else Traced(Returned(""), [])
  }

  /** `generate_explanation_for_slide`: `''` without asking when the topic is
      falsy; otherwise the service's explanation, failures propagating. */
  function GenerateSlide(slideText: string, topic: Option<string>, oracle: Oracle): (r: Traced<string>)
    ensures r.calls == [] <==> !Truthy(topic)
    ensures !Truthy(topic) ==> r.outcome == Returned("")
    ensures r.calls != [] ==> r.calls == [SlideRequest(slideText, topic.value)]
    ensures r.outcome.Raised? <==> Truthy(topic) && !oracle(SlideRequest(slideText, topic.value)).Ok?
    ensures Truthy(topic) && oracle(SlideRequest(slideText, topic.value)).Ok? ==>
      r.outcome == Returned(oracle(SlideRequest(slideText, topic.value)).content)
  {
    if Truthy(topic) then Ask(SlideRequest(slideText, topic.value), oracle)
    else Traced(Returned(""), [])
  }

  /** The note stored for a slide whose explanation failed. */
  const FailureNote := "ERROR - explanation generation for this slide failed\n"

  /** What the intended loop stores for one slide: the explanation, or the
      failure note when the service call failed. */
  function Slot(slideText: string, topic: Option<string>, oracle: Oracle): (s: string)
    ensures s == FailureNote <==>
      GenerateSlide(slideText, topic, oracle).outcome.Raised? ||
      GenerateSlide(slideText, topic, oracle).outcome.value == FailureNote
    ensures !Truthy(topic) ==> s == ""
    ensures Truthy(topic) && oracle(SlideRequest(slideText, topic.value)).Ok? ==>
      s == oracle(SlideRequest(slideText, topic.value)).content
  {
    match GenerateSlide(slideText, topic, oracle).outcome
    case Returned(e) => e
    case Raised(_) => FailureNote
  }

  /** The slots for a sequence of slide texts, in order. */
  function Slots(texts: seq<string>, topic: Option<string>, oracle: Oracle): seq<string> {
    seq(|texts|, i requires 0 <= i < |texts| => Slot(texts[i], topic, oracle))
  }

  /** The requests asked for some slide texts, in order: one per text
      carrying the topic, none at all when the topic is falsy. */
  function SlideCalls(texts: seq<string>, topic: Option<string>): seq<Request> {
    if Truthy(topic) then seq(|texts|, i requires 0 <= i < |texts| => SlideRequest(texts[i], topic.value))
    else []
  }

  /** Asking about one more slide adds that slide's requests at the end. */
  lemma SlideCallsPrefix(texts: seq<string>, topic: Option<string>, oracle: Oracle, i: nat)
    requires i < |texts|
    ensures SlideCalls(texts[..i + 1], topic) == SlideCalls(texts[..i], topic) + GenerateSlide(texts[i], topic, oracle).calls
  {
  }

  /** `generate_explanation_for_presentation` as its `except` clause intends:
      a counter that starts at 0 and goes up before each slide names the
      slot; a failed slide gets the failure note and the loop goes on to ask
      about every later slide. */
  method GenerateForPresentation(state: Dict<int, string>, parsed: Dict<int, string>, topic: Option<string>,
                                 oracle: Oracle)
    returns (r: Dict<int, string>, calls: seq<Request>)
    ensures r == AssignNumbered(state, Slots(Values(parsed), topic, oracle))
    ensures calls == SlideCalls(Values(parsed), topic)
  {
    var texts := Values(parsed);
    ghost var slots := Slots(texts, topic, oracle);
    r := state;
    calls := [];
    var slideIndex := 0;
    var i := 0;
    while i < |texts|
      invariant 0 <= i <= |texts| && slideIndex == i
      invariant r == AssignNumbered(state, slots[..i])
      invariant calls == SlideCalls(texts[..i], topic)
    {
      slideIndex := slideIndex + 1;
      var t := GenerateSlide(texts[i], topic, oracle);
      SlideCallsPrefix(texts, topic, oracle, i);
      calls := calls + t.calls;
      var stored;
      match t.outcome {
        case Returned(explanation) =>
          stored := explanation;
        case Raised(_) =>
          stored := FailureNote;
      }
      StoresSlot(state, texts, topic, oracle, i);
      r := Assign(r, slideIndex, stored);
      i := i + 1;
    }
    AllSlots(texts, topic, oracle, i);
  }

  /** The next slot the intended loop stores is the slide's explanation, or
      the failure note when the slide's call failed. */
  lemma StoresSlot(state: Dict<int, string>, texts: seq<string>, topic: Option<string>, oracle: Oracle, i: nat)
    requires i < |texts|
    ensures AssignNumbered(state, Slots(texts, topic, oracle)[..i + 1])
            == Assign(AssignNumbered(state, Slots(texts, topic, oracle)[..i]), i + 1,
                      match GenerateSlide(texts[i], topic, oracle).outcome
                      case Returned(e) => e
                      case Raised(_) => FailureNote)
  {
    AssignNumberedPrefix(state, Slots(texts, topic, oracle), i);
  }

  /** After the last slide the prefixes are the whole. */
  lemma AllSlots(texts: seq<string>, topic: Option<string>, oracle: Oracle, i: nat)
    requires i == |texts|
    ensures Slots(texts, topic, oracle)[..i] == Slots(texts, topic, oracle)
    ensures texts[..i] == texts
  {
  }

  /** The intended loop stores the i-th value's slot under i + 1, adds the keys
      1 to N, and leaves every other key alone. */
  lemma StoredSlots(state: Dict<int, string>, parsed: Dict<int, string>, topic: Option<string>, oracle: Oracle)
    ensures var r := AssignNumbered(state, Slots(Values(parsed), topic, oracle));
      && Keys(r) == Keys(state) + NumberRange(|parsed|)
      && (forall i :: 0 <= i < |parsed| ==> Get(r, i + 1) == Some(Slot(parsed[i].1, topic, oracle)))
      && (forall k :: !(1 <= k <= |parsed|) ==> Get(r, k) == Get(state, k))
  {
    var slots := Slots(Values(parsed), topic, oracle);
    forall i | 0 <= i < |parsed| ensures slots[i] == Slot(parsed[i].1, topic, oracle) {
      assert Values(parsed)[i] == parsed[i].1;
    }
  }

  /** Where the loop as written stops: the first slide whose call fails, or
      the number of slides when none does. */
  function FirstFailure(texts: seq<string>, topic: Option<string>, oracle: Oracle): (f: nat)
    ensures f <= |texts|
    ensures forall j {:trigger GenerateSlide(texts[j], topic, oracle)} :: 0 <= j < f ==> GenerateSlide(texts[j], topic, oracle).outcome.Returned?
    ensures f < |texts| ==> GenerateSlide(texts[f], topic, oracle).outcome.Raised?
  {
    if |texts| == 0 then 0
    else if GenerateSlide(texts[0], topic, oracle).outcome.Raised? then 0
    else
      var f := FirstFailure(texts[1..], topic, oracle);
      assert forall j :: 0 < j <= f ==> texts[j] == texts[1..][j - 1];
      1 + f
  }

  /** A slide that succeeds before the first failure is not the first
      failure, and its explanation is the next slot the loop stores. */
  lemma KeepsGoing(state: Dict<int, string>, texts: seq<string>, topic: Option<string>, oracle: Oracle, i: nat)
    requires i < |texts| && i <= FirstFailure(texts, topic, oracle)
    requires GenerateSlide(texts[i], topic, oracle).outcome.Returned?
    ensures i < FirstFailure(texts, topic, oracle)
    ensures AssignNumbered(state, Slots(texts, topic, oracle)[..i + 1])
            == Assign(AssignNumbered(state, Slots(texts, topic, oracle)[..i]), i + 1,
                      GenerateSlide(texts[i], topic, oracle).outcome.value)
  {
    var slots := Slots(texts, topic, oracle);
    AssignNumberedPrefix(state, slots, i);
    assert slots[i] == GenerateSlide(texts[i], topic, oracle).outcome.value;
  }

  /** A slide that fails at or before the first failure is the first failure:
      the map holds the slots before it and the requests end with its own. */
  lemma StopsAt(state: Dict<int, string>, texts: seq<string>, topic: Option<string>, oracle: Oracle, i: nat)
    requires i < |texts| && i <= FirstFailure(texts, topic, oracle)
    requires GenerateSlide(texts[i], topic, oracle).outcome.Raised?
    ensures i == FirstFailure(texts, topic, oracle) < |texts|
    ensures AssignNumbered(state, Slots(texts, topic, oracle)[..i])
            == AssignNumbered(state, Slots(texts, topic, oracle)[..FirstFailure(texts, topic, oracle)])
    ensures SlideCalls(texts[..i], topic) + GenerateSlide(texts[i], topic, oracle).calls
            == SlideCalls(texts[..FirstFailure(texts, topic, oracle) + 1], topic)
  {
    SlideCallsPrefix(texts, topic, oracle, i);
  }

  /** A loop that got past every slide met no failure. */
  lemma RunsToEnd(state: Dict<int, string>, texts: seq<string>, topic: Option<string>, oracle: Oracle, i: nat)
    requires i == |texts| && i <= FirstFailure(texts, topic, oracle)
    ensures FirstFailure(texts, topic, oracle) == |texts|
    ensures AssignNumbered(state, Slots(texts, topic, oracle)[..i])
            == AssignNumbered(state, Slots(texts, topic, oracle)[..FirstFailure(texts, topic, oracle)])
    ensures SlideCalls(texts[..i], topic) == SlideCalls(texts, topic)
  {
    assert texts[..i] == texts;
  }

  /** `generate_explanation_for_presentation` as written: the `except` clause
      names the module `openai.error`, not an exception class, so the first
      failed slide raises `TypeError` out of the loop. The slots already
      written stay, and the later slides are never asked. */
  method GenerateForPresentationAsWritten(state: Dict<int, string>, parsed: Dict<int, string>,
                                          topic: Option<string>, oracle: Oracle)
    returns (r: Dict<int, string>, error: Option<Exception>, calls: seq<Request>)
    ensures r == AssignNumbered(state, Slots(Values(parsed), topic, oracle)[..FirstFailure(Values(parsed), topic, oracle)])
    ensures error.Some? <==> FirstFailure(Values(parsed), topic, oracle) < |parsed|
    ensures error.Some? ==> error == Some(TypeError)
    ensures error.Some? ==> calls == SlideCalls(Values(parsed)[..FirstFailure(Values(parsed), topic, oracle) + 1], topic)
    ensures error.None? ==> calls == SlideCalls(Values(parsed), topic)
  {
    r, error, calls := AskInTurn(state, Values(parsed), topic, oracle);
  }

  /** The loop as written over the slide texts: stores each explanation under
      its 1-based number until the first failure, which ends the loop with
      `TypeError` after that slide's request was sent. */
  method AskInTurn(state: Dict<int, string>, texts: seq<string>, topic: Option<string>, oracle: Oracle)
    returns (r: Dict<int, string>, error: Option<Exception>, calls: seq<Request>)
    ensures r == AssignNumbered(state, Slots(texts, topic, oracle)[..FirstFailure(texts, topic, oracle)])
    ensures error.Some? <==> FirstFailure(texts, topic, oracle) < |texts|
    ensures error.Some? ==> error == Some(TypeError)
    ensures error.Some? ==> calls == SlideCalls(texts[..FirstFailure(texts, topic, oracle) + 1], topic)
    ensures error.None? ==> calls == SlideCalls(texts, topic)
  {
    ghost var f := FirstFailure(texts, topic, oracle);
    ghost var slots := Slots(texts, topic, oracle);
    r := state;
    error := None;
    calls := [];
    var slideIndex := 0;
    var i := 0;
    while i < |texts|
      invariant 0 <= i <= f && slideIndex == i
      invariant r == AssignNumbered(state, slots[..i])
      invariant calls == SlideCalls(texts[..i], topic)
    {
      slideIndex := slideIndex + 1;
      var t := GenerateSlide(texts[i], topic, oracle);
      SlideCallsPrefix(texts, topic, oracle, i);
      calls := calls + t.calls;
      if t.outcome.Raised? {
        StopsAt(state, texts, topic, oracle, i);
        error := Some(TypeError);
        return;
      }
      KeepsGoing(state, texts, topic, oracle, i);
      r := Assign(r, slideIndex, t.outcome.value);
      i := i + 1;
    }
    RunsToEnd(state, texts, topic, oracle, i);
  }

  /** The failing call stops the loop as written: for three slides whose
      second call fails, it stops after slide 1, while the intended loop
      stores the failure note for slide 2 and still asks about slide 3. */
  lemma SecondSlideFails()
    ensures var oracle: Oracle := q => if q == SlideRequest("b", "t") then OtherErr("rate limit") else Ok("x");
      && FirstFailure(["a", "b", "c"], Some("t"), oracle) == 1
      && Slots(["a", "b", "c"], Some("t"), oracle) == ["x", FailureNote, "x"]
      && SlideCalls(["a", "b", "c"], Some("t")) == [SlideRequest("a", "t"), SlideRequest("b", "t"), SlideRequest("c", "t")]
  {
    var oracle: Oracle := q => if q == SlideRequest("b", "t") then OtherErr("rate limit") else Ok("x");
    var texts := ["a", "b", "c"];
    assert texts[1..] == ["b", "c"];
  }

  /** Where the service answers, both explainers keep the same explanation
      for a slide: the sequential one as a string, the asynchronous one as a
      present value. */
  lemma AgreesWithAsyncOnSuccess(slideText: string, topic: Option<string>, oracle: Oracle)
    requires Truthy(topic) ==> oracle(SlideRequest(slideText, topic.value)).Ok?
    ensures GptSlideExplainer.GenerateSlide(slideText, topic, oracle).outcome
            == Returned(Some(Slot(slideText, topic, oracle)))
    ensures Truthy(topic) ==>
      GptSlideExplainer.GenerateSlideAsWritten(slideText, topic, oracle).outcome == Raised(TypeError)
  {
  }

  /** A refused credential is where the two differ: the sequential loop
      stores the failure note, the asynchronous explainer stores `None`. */
  lemma DiffersOnAuthFailure(slideText: string, topic: Option<string>, oracle: Oracle)
    requires Truthy(topic) && oracle(SlideRequest(slideText, topic.value)).AuthErr?
    ensures Slot(slideText, topic, oracle) == FailureNote
    ensures GptSlideExplainer.GenerateSlide(slideText, topic, oracle).outcome == Returned(None)
  {
  }
}
