/**
 * The asynchronous explainer: one remote call for the topic, then one remote
 * call per slide, all gathered and written back under the numbers 1 to N.
 * The remote service is the oracle of module Service; `asyncio.gather`
 * without `return_exceptions` is an order-preserving map whose first failure
 * (in input order) is what the caller sees.
 */
module GptSlideExplainer {
  import opened Wrappers
  import opened PyDict
  import opened PyInt
  import opened Service

  /** One awaited remote call inside `try: ... except AuthenticationError:
      pass`. An authentication failure is swallowed and the coroutine runs off
      its end, returning `None`; any other service error propagates. */
  function AskSwallowingAuth(q: Request, oracle: Oracle): (r: Traced<Option<string>>)
    ensures r.calls == [q]
    ensures r.outcome == Returned(None) <==> oracle(q).AuthErr?
    ensures r.outcome.Raised? <==> oracle(q).OtherErr?
    ensures r.outcome.Raised? ==> r.outcome.error == OpenAIError(oracle(q).message)
    ensures oracle(q).Ok? ==> r.outcome == Returned(Some(oracle(q).content))
  {
    var reply := oracle(q);
    match reply
    case Ok(content) => Traced(Returned(Some(content)), [q])
    case AuthErr => Traced(Returned(None), [q])
    case OtherErr(_) => Traced(Raised(ReplyError(reply)), [q])
  }

  /** `generate_topic_for_presentation`: `''` without asking when the text is
      empty or `None`; otherwise the service's answer. */
  function GenerateTopic(text: Option<string>, oracle: Oracle): (r: Traced<Option<string>>)
    ensures |r.calls| <= 1
    ensures r.calls == [] <==> !Truthy(text)
    ensures !Truthy(text) ==> r.outcome == Returned(Some(""))
    ensures r.calls != [] ==> r.calls == [TopicRequest(text.value)]
    ensures r.outcome == Returned(None) <==> Truthy(text) && oracle(TopicRequest(text.value)).AuthErr?
    ensures r.outcome.Raised? <==> Truthy(text) && oracle(TopicRequest(text.value)).OtherErr?
    ensures r.outcome.Raised? ==> r.outcome.error.OpenAIError?
    ensures Truthy(text) && oracle(TopicRequest(text.value)).Ok? ==>
      r.outcome == Returned(Some(oracle(TopicRequest(text.value)).content))
  {
    if Truthy(text) then AskSwallowingAuth(TopicRequest(text.value), oracle)
    else Traced(Returned(Some("")), [])
  }

  /** `generate_explanation_for_slide`: `''` without asking when the topic is
      empty or `None`; otherwise the service's explanation of the slide. */
  function GenerateSlide(slideText: string, topic: Option<string>, oracle: Oracle): (r: Traced<Option<string>>)
    ensures |r.calls| <= 1
    ensures r.calls == [] <==> !Truthy(topic)
    ensures !Truthy(topic) ==> r.outcome == Returned(Some(""))
    ensures r.calls != [] ==> r.calls == [SlideRequest(slideText, topic.value)]
    ensures r.outcome == Returned(None) <==> Truthy(topic) && oracle(SlideRequest(slideText, topic.value)).AuthErr?
    ensures r.outcome.Raised? <==> Truthy(topic) && oracle(SlideRequest(slideText, topic.value)).OtherErr?
    ensures r.outcome.Raised? ==> r.outcome.error.OpenAIError?
    ensures Truthy(topic) && oracle(SlideRequest(slideText, topic.value)).Ok? ==>
      r.outcome == Returned(Some(oracle(SlideRequest(slideText, topic.value)).content))
  {
    if Truthy(topic) then AskSwallowingAuth(SlideRequest(slideText, topic.value), oracle)
    else Traced(Returned(Some("")), [])
  }

  /** `await asyncio.gather(*tasks)`: the results in task order when every
      task returns, otherwise the first failure in task order. Every task
      issues its requests whether or not another one fails. */
  function Gather<T>(ts: seq<Traced<T>>): (r: Traced<seq<T>>)
    ensures r.calls == AllCalls(ts)
    ensures r.outcome.Returned? <==> forall i :: 0 <= i < |ts| ==> ts[i].outcome.Returned?
    ensures r.outcome.Returned? ==>
      |r.outcome.value| == |ts| && forall i :: 0 <= i < |ts| ==> r.outcome.value[i] == ts[i].outcome.value
    ensures r.outcome.Raised? ==> exists i :: 0 <= i < |ts| && ts[i].outcome == Raised(r.outcome.error)
  {
    if |ts| == 0 then Traced(Returned([]), [])
    else
      var rest := Gather(ts[1..]);
      var outcome :=
        if ts[0].outcome.Raised? then Raised(ts[0].outcome.error)
        else if rest.outcome.Raised? then Raised(rest.outcome.error)
        else Returned([ts[0].outcome.value] + rest.outcome.value);
      GatherStep(ts, rest);
      Traced(outcome, ts[0].calls + rest.calls)
  }

  /** The facts about the tail's gather carry over to the whole sequence. */
  lemma GatherStep<T>(ts: seq<Traced<T>>, rest: Traced<seq<T>>)
    requires |ts| > 0
    requires rest.outcome.Returned? <==> forall i :: 0 <= i < |ts| - 1 ==> ts[1..][i].outcome.Returned?
    requires rest.outcome.Raised? ==>
      exists i :: 0 <= i < |ts| - 1 && ts[1..][i].outcome == Raised(rest.outcome.error)
    ensures (ts[0].outcome.Returned? && rest.outcome.Returned?) <==>
      forall i :: 0 <= i < |ts| ==> ts[i].outcome.Returned?
    ensures ts[0].outcome.Returned? && rest.outcome.Raised? ==>
      exists i :: 0 <= i < |ts| && ts[i].outcome == Raised(rest.outcome.error)
  {
    if ts[0].outcome.Returned? && rest.outcome.Raised? {
      var i :| 0 <= i < |ts| - 1 && ts[1..][i].outcome == Raised(rest.outcome.error);
      assert ts[i + 1].outcome == Raised(rest.outcome.error);
    }
    if ts[0].outcome.Returned? && rest.outcome.Returned? {
      forall i | 0 <= i < |ts| ensures ts[i].outcome.Returned? {
        if i > 0 {
          assert ts[1..][i - 1] == ts[i];
        }
      }
    }
  }

  /** One task per slide value, in the order `.values()` walks them. */
  function SlideTasks(texts: seq<string>, topic: Option<string>, oracle: Oracle): (ts: seq<Traced<Option<string>>>)
    ensures |ts| == |texts|
    ensures forall i :: 0 <= i < |texts| ==> ts[i] == GenerateSlide(texts[i], topic, oracle)
  {
    seq(|texts|, i requires 0 <= i < |texts| => GenerateSlide(texts[i], topic, oracle))
  }

  /** The requests the slide tasks issue: one per value, in order, each
      carrying that value and the topic; none at all when the topic is falsy. */
  lemma {:induction false} SlideTaskCalls(texts: seq<string>, topic: Option<string>, oracle: Oracle)
    ensures |AllCalls(SlideTasks(texts, topic, oracle))| == if Truthy(topic) then |texts| else 0
    ensures Truthy(topic) ==> forall i :: 0 <= i < |texts| ==>
      AllCalls(SlideTasks(texts, topic, oracle))[i] == SlideRequest(texts[i], topic.value)
  {
    var ts := SlideTasks(texts, topic, oracle);
    if |texts| > 0 {
      assert ts[1..] == SlideTasks(texts[1..], topic, oracle);
      SlideTaskCalls(texts[1..], topic, oracle);
      if Truthy(topic) {
        forall i | 0 <= i < |texts|
          ensures AllCalls(ts)[i] == SlideRequest(texts[i], topic.value)
        {
          if i > 0 {
            assert AllCalls(ts)[i] == AllCalls(ts[1..])[i - 1];
          }
        }
      }
    }
  }

  /** The explainer object: `expanded_slide_explanations`, created empty once
      and afterwards only assigned to. A slot holds `None` when the service
      refused the credentials for that slide. */
  type Explanations = Dict<int, Option<string>>

  /** The constructor's state. */
  function NewExplanations(): (e: Explanations)
    ensures Keys(e) == {}
  {
    []
  }

  /** What the gather over the slide tasks comes to, value by value. */
  lemma {:induction false} GatherSlides(texts: seq<string>, topic: Option<string>, oracle: Oracle)
    ensures var g := Gather(SlideTasks(texts, topic, oracle));
      && (g.outcome.Returned? <==>
          forall i :: 0 <= i < |texts| ==> GenerateSlide(texts[i], topic, oracle).outcome.Returned?)
      && (g.outcome.Returned? ==>
            && |g.outcome.value| == |texts|
            && forall i :: 0 <= i < |texts| ==>
                 g.outcome.value[i] == GenerateSlide(texts[i], topic, oracle).outcome.value)
      && (g.outcome.Raised? ==>
            && Truthy(topic)
            && g.outcome.error.OpenAIError?
            && exists i :: 0 <= i < |texts| && oracle(SlideRequest(texts[i], topic.value)).OtherErr?)
  {
    var ts := SlideTasks(texts, topic, oracle);
    var g := Gather(ts);
    if g.outcome.Raised? {
      var i :| 0 <= i < |ts| && ts[i].outcome == Raised(g.outcome.error);
      assert ts[i] == GenerateSlide(texts[i], topic, oracle);
    }
  }

  /** `generate_explanation_for_presentation`: explain every value of the
      parsed map and store the results under 1, 2, ..., N in value order. If
      any slide's call fails, the gather raises and nothing is stored. */
  function GenerateForPresentation(state: Explanations, parsed: Dict<int, string>, topic: Option<string>,
                                   oracle: Oracle): (r: Effect<Explanations>)
    ensures r.calls == AllCalls(SlideTasks(Values(parsed), topic, oracle))
    ensures r.error.None? <==>
      forall i :: 0 <= i < |parsed| ==> GenerateSlide(Values(parsed)[i], topic, oracle).outcome.Returned?
    ensures r.error.Some? ==> r.state == state
    ensures r.error.Some? ==> r.error.value.OpenAIError?
    ensures r.error.Some? ==>
      && Truthy(topic)
      && exists i :: 0 <= i < |parsed| && oracle(SlideRequest(Values(parsed)[i], topic.value)).OtherErr?
    ensures r.error.None? ==> Keys(r.state) == Keys(state) + NumberRange(|parsed|)
    ensures r.error.None? ==> forall i :: 0 <= i < |parsed| ==>
      Get(r.state, i + 1) == Some(GenerateSlide(Values(parsed)[i], topic, oracle).outcome.value)
    ensures forall k :: !(1 <= k <= |parsed|) ==> Get(r.state, k) == Get(state, k)
  {
    var texts := Values(parsed);
    var g := Gather(SlideTasks(texts, topic, oracle));
    GatherSlides(texts, topic, oracle);
    match g.outcome
    case Returned(results) => Effect(AssignNumbered(state, results), None, g.calls)
    case Raised(e) => Effect(state, Some(e), g.calls)
  }

  /** An empty or missing topic makes every slot `''` and asks nothing. */
  lemma EmptyTopicBlanksEverySlot(state: Explanations, parsed: Dict<int, string>, topic: Option<string>,
                                  oracle: Oracle)
    requires !Truthy(topic)
    ensures var r := GenerateForPresentation(state, parsed, topic, oracle);
      r.error.None? && r.calls == [] &&
      forall k :: 1 <= k <= |parsed| ==> Get(r.state, k) == Some(Some(""))
  {
    SlideTaskCalls(Values(parsed), topic, oracle);
    var r := GenerateForPresentation(state, parsed, topic, oracle);
    forall k | 1 <= k <= |parsed| ensures Get(r.state, k) == Some(Some("")) {
      assert GenerateSlide(Values(parsed)[k - 1], topic, oracle).outcome.value == Some("");
    }
  }

  /** The stored keys are 1 to N whatever slide numbers the parsed map had:
      starting from a fresh explainer, the keys are exactly 1 to N. */
  lemma DenseKeys(parsed: Dict<int, string>, topic: Option<string>, oracle: Oracle)
    requires GenerateForPresentation(NewExplanations(), parsed, topic, oracle).error.None?
    ensures forall k :: k in Keys(GenerateForPresentation(NewExplanations(), parsed, topic, oracle).state) <==>
      1 <= k <= |parsed|
  {
    var r := GenerateForPresentation(NewExplanations(), parsed, topic, oracle);
    assert Keys(r.state) == Keys(NewExplanations()) + NumberRange(|parsed|);
    assert Keys(NewExplanations()) == {};
  }

  /** The parser keeps slide numbers 1 and 3 for a deck whose second slide is
      blank; the explainer stores the two explanations under 1 and 2, so
      explanation 2 belongs to slide 3 and there is no key 3. */
  lemma SparseSlidesDenseSlots(a: string, c: string, oracle: Oracle)
    ensures var r := GenerateForPresentation(NewExplanations(), [(1, a), (3, c)], Some(""), oracle);
      r.error.None? && 2 in Keys(r.state) && 3 !in Keys(r.state)
  {
    var parsed := [(1, a), (3, c)];
    var r := GenerateForPresentation(NewExplanations(), parsed, Some(""), oracle);
    EmptyTopicBlanksEverySlot(NewExplanations(), parsed, Some(""), oracle);
    assert Keys(r.state) == NumberRange(2);
  }

  /** A second, shorter presentation leaves the earlier presentation's higher
      slots in place: the dict is never cleared. */
  lemma StaleSlotsSurvive(state: Explanations, parsed: Dict<int, string>, topic: Option<string>,
                          oracle: Oracle, k: int)
    requires k > |parsed| && k in Keys(state)
    ensures k in Keys(GenerateForPresentation(state, parsed, topic, oracle).state)
  {
    var r := GenerateForPresentation(state, parsed, topic, oracle);
    assert Get(r.state, k) == Get(state, k);
  }

  /** The message `process_slide_task` means to return for a failed slide. */
  function ErrorNote(slideIndex: int, message: string): (s: string)
    ensures |s| > |NotePrefix| + |message|
    ensures s[..|NotePrefix|] == NotePrefix
    ensures s[|s| - |message|..] == message
    ensures ParseInt(NoteSlideNumber(s)) == Some(slideIndex)
  {
    NoteFacts(NotePrefix, slideIndex, " failed: ", message);
    NotePrefix + (IntToString(slideIndex) + (" failed: " + message))
  }

  /** The words an error note starts with, before the slide number. */
  const NotePrefix := "ERROR - explanation generation for slide "

  /** The slide number a note names: what follows the fixed opening, up to
      the next space. */
  function NoteSlideNumber(s: string): string {
    if |s| < |NotePrefix| then "" else UpToSpace(s[|NotePrefix|..])
  }

  /** The facts behind a note, for any separator that starts with a space. */
  lemma NoteFacts(head: string, k: int, sep: string, tail: string)
    requires |sep| > 0 && sep[0] == ' '
    ensures var s := head + (IntToString(k) + (sep + tail));
      && |s| > |head| + |tail|
      && s[..|head|] == head
      && s[|s| - |tail|..] == tail
      && ParseInt(UpToSpace(s[|head|..])) == Some(k)
  {
    var w := IntToString(k);
    var rest := sep + tail;
    Framed(head, w, sep, tail);
    assert (head + (w + rest))[|head|..] == w + rest;
    assert rest[0] == ' ';
    UpToSpaceOfWord(w, rest);
    ParseIntRoundTrip(k);
  }

  /** The text before the first space (all of it when there is none). */
  function UpToSpace(s: string): string {
    if |s| == 0 || s[0] == ' ' then "" else [s[0]] + UpToSpace(s[1..])
  }

  /** A word followed by a space-led rest: the text up to the space is the
      word. */
  lemma {:induction false} UpToSpaceOfWord(w: string, rest: string)
    requires ' ' !in w && |rest| > 0 && rest[0] == ' '
    ensures UpToSpace(w + rest) == w
  {
    if |w| > 0 {
      assert (w + rest)[1..] == w[1..] + rest;
      UpToSpaceOfWord(w[1..], rest);
    }
  }

  /** Four texts put together: the head starts the whole, the tail ends it,
      and what follows the head is the rest. */
  lemma Framed(head: string, w: string, sep: string, tail: string)
    ensures var s := head + (w + (sep + tail));
      && |s| == |head| + |w| + |sep| + |tail|
      && s[..|head|] == head && s[|head|..] == w + (sep + tail) && s[|s| - |tail|..] == tail
  {
  }

  /** `process_slide_task` as its documentation describes it: a service error
      on the slide becomes an error note naming the slide, so the task never
      raises. `maxRetry` is accepted and not used, as in the source. */
  function ProcessSlideTask(slideText: string, topic: Option<string>, maxRetry: int, slideIndex: int,
                            oracle: Oracle): (r: Traced<Option<string>>)
    ensures r.outcome.Returned?
    ensures r.calls == GenerateSlide(slideText, topic, oracle).calls
    ensures GenerateSlide(slideText, topic, oracle).outcome.Returned? ==>
      r.outcome == GenerateSlide(slideText, topic, oracle).outcome
    ensures GenerateSlide(slideText, topic, oracle).outcome.Raised? ==>
      r.outcome == Returned(Some(ErrorNote(slideIndex, oracle(SlideRequest(slideText, topic.value)).message)))
  {
    var t := GenerateSlide(slideText, topic, oracle);
    match t.outcome
    case Returned(_) => t
    case Raised(e) => Traced(Returned(Some(ErrorNote(slideIndex, e.message))), t.calls)
  }

  /** `process_slide_task` as written: its `except` clause names the module
      `openai.error`, which is not an exception class, so testing a raised
      exception against it raises `TypeError` instead. It builds on the
      awaitable slide call, so it isolates the `except` defect alone: with
      the synchronous call the source awaits, an answered slide would raise
      `TypeError` too (see `GenerateSlideAsWritten`). */
  function ProcessSlideTaskAsWritten(slideText: string, topic: Option<string>, maxRetry: int,
                                     slideIndex: int, oracle: Oracle): (r: Traced<Option<string>>)
    ensures r.calls == GenerateSlide(slideText, topic, oracle).calls
    ensures r.outcome.Raised? <==> GenerateSlide(slideText, topic, oracle).outcome.Raised?
    ensures r.outcome.Raised? ==> r.outcome.error == TypeError
  {
    var t := GenerateSlide(slideText, topic, oracle);
    match t.outcome
    case Returned(_) => t
    case Raised(_) => Traced(Raised(TypeError), t.calls)
  }

  /** A rate-limit error on slide 2: the intended task returns a note naming
      slide 2, the task as written raises `TypeError`. */
  lemma ProcessSlideTaskDiffers()
    ensures var oracle: Oracle := q => OtherErr("rate limit");
      ProcessSlideTask("s", Some("t"), 3, 2, oracle).outcome
        == Returned(Some(ErrorNote(2, "rate limit"))) &&
      ProcessSlideTaskAsWritten("s", Some("t"), 3, 2, oracle).outcome == Raised(TypeError)
  {
  }

  /** A remote call as the source writes it: `await` applied to what the
      library's synchronous `ChatCompletion.create` returns. The request goes
      out first. An error reply raises from `create` itself, and an
      authentication failure is swallowed as before. An answer comes back as
      a plain response object, which cannot be awaited: Python raises
      `TypeError`, and `except AuthenticationError` does not catch it. */
  function AskAwaitingSync(q: Request, oracle: Oracle): (r: Traced<Option<string>>)
    ensures r.calls == [q]
    ensures r.outcome.Returned? <==> oracle(q).AuthErr?
    ensures r.outcome.Returned? ==> r.outcome.value == None
    ensures oracle(q).Ok? ==> r.outcome == Raised(TypeError)
    ensures !oracle(q).Ok? ==> r == AskSwallowingAuth(q, oracle)
  {
    match oracle(q)
    case Ok(_) => Traced(Raised(TypeError), [q])
    case AuthErr => Traced(Returned(None), [q])
    case OtherErr(_) => Traced(Raised(ReplyError(oracle(q))), [q])
  }

  /** `generate_topic_for_presentation` as written: the same request, but an
      answered one raises `TypeError`, so it never returns a usable topic. */
  function GenerateTopicAsWritten(text: Option<string>, oracle: Oracle): (r: Traced<Option<string>>)
    ensures r.calls == GenerateTopic(text, oracle).calls
    ensures r.outcome.Returned? ==> !Truthy(r.outcome.value)
    ensures Truthy(text) && oracle(TopicRequest(text.value)).Ok? ==> r.outcome == Raised(TypeError)
    ensures !(Truthy(text) && oracle(TopicRequest(text.value)).Ok?) ==> r == GenerateTopic(text, oracle)
  {
    if Truthy(text) then AskAwaitingSync(TopicRequest(text.value), oracle)
    else Traced(Returned(Some("")), [])
  }

  /** `generate_explanation_for_slide` as written: an answered slide request
      raises `TypeError`. */
  function GenerateSlideAsWritten(slideText: string, topic: Option<string>, oracle: Oracle): (r: Traced<Option<string>>)
    ensures r.calls == GenerateSlide(slideText, topic, oracle).calls
    ensures r.outcome.Returned? <==> !Truthy(topic) || oracle(SlideRequest(slideText, topic.value)).AuthErr?
    ensures r.outcome.Returned? ==> r.outcome.value == if Truthy(topic) then None else Some("")
    ensures Truthy(topic) && oracle(SlideRequest(slideText, topic.value)).Ok? ==> r.outcome == Raised(TypeError)
    ensures !(Truthy(topic) && oracle(SlideRequest(slideText, topic.value)).Ok?) ==>
      r == GenerateSlide(slideText, topic, oracle)
  {
    if Truthy(topic) then AskAwaitingSync(SlideRequest(slideText, topic.value), oracle)
    else Traced(Returned(Some("")), [])
  }

  /** One as-written task per slide value. */
  function SlideTasksAsWritten(texts: seq<string>, topic: Option<string>, oracle: Oracle): seq<Traced<Option<string>>> {
    seq(|texts|, i requires 0 <= i < |texts| => GenerateSlideAsWritten(texts[i], topic, oracle))
  }

  /** The as-written tasks issue the same requests as the intended ones. */
  lemma {:induction false} SlideTasksAsWrittenCalls(texts: seq<string>, topic: Option<string>, oracle: Oracle)
    ensures AllCalls(SlideTasksAsWritten(texts, topic, oracle)) == AllCalls(SlideTasks(texts, topic, oracle))
  {
    if |texts| > 0 {
      assert SlideTasksAsWritten(texts, topic, oracle)[1..] == SlideTasksAsWritten(texts[1..], topic, oracle);
      assert SlideTasks(texts, topic, oracle)[1..] == SlideTasks(texts[1..], topic, oracle);
      SlideTasksAsWrittenCalls(texts[1..], topic, oracle);
    }
  }

  /** `generate_explanation_for_presentation` over the as-written slide
      calls. It succeeds only when no slide is asked about or every slide
      request is refused, so no slot ever holds an explanation: each holds
      `''` or `None`. */
  function GenerateForPresentationAsWritten(state: Explanations, parsed: Dict<int, string>, topic: Option<string>,
                                            oracle: Oracle): (r: Effect<Explanations>)
    ensures r.calls == GenerateForPresentation(state, parsed, topic, oracle).calls
    ensures r.error.None? <==>
      !Truthy(topic) || forall i :: 0 <= i < |parsed| ==> oracle(SlideRequest(Values(parsed)[i], topic.value)).AuthErr?
    ensures r.error.Some? ==> r.state == state
    ensures r.error.None? ==> Keys(r.state) == Keys(state) + NumberRange(|parsed|)
    ensures r.error.None? ==> forall k :: 1 <= k <= |parsed| ==>
      Get(r.state, k) == Some(if Truthy(topic) then None else Some(""))
  {
    var texts := Values(parsed);
    var g := Gather(SlideTasksAsWritten(texts, topic, oracle));
    GatherSlidesAsWritten(texts, topic, oracle);
    match g.outcome
    case Returned(results) =>
      var d := AssignNumbered(state, results);
      forall k | 1 <= k <= |texts| ensures Get(d, k) == Some(results[k - 1]) {
        assert Get(d, (k - 1) + 1) == Some(results[k - 1]);
      }
      Effect(d, None, g.calls)
    case Raised(e) => Effect(state, Some(e), g.calls)
  }

  /** What the gather over the as-written slide tasks comes to: the intended
      requests, success exactly when no answer arrives, and then the same
      value in every slot. */
  lemma GatherSlidesAsWritten(texts: seq<string>, topic: Option<string>, oracle: Oracle)
    ensures var g := Gather(SlideTasksAsWritten(texts, topic, oracle));
      && g.calls == AllCalls(SlideTasks(texts, topic, oracle))
      && (g.outcome.Returned? <==>
            !Truthy(topic) || forall i :: 0 <= i < |texts| ==> oracle(SlideRequest(texts[i], topic.value)).AuthErr?)
      && (g.outcome.Returned? ==>
            && |g.outcome.value| == |texts|
            && forall i :: 0 <= i < |texts| ==> g.outcome.value[i] == if Truthy(topic) then None else Some(""))
  {
    var ts := SlideTasksAsWritten(texts, topic, oracle);
    SlideTasksAsWrittenCalls(texts, topic, oracle);
    assert forall i :: 0 <= i < |texts| ==> ts[i] == GenerateSlideAsWritten(texts[i], topic, oracle);
  }

  /** As written, a slide request the service answers makes the whole
      gather raise. */
  lemma AnsweredSlideRaises(state: Explanations, parsed: Dict<int, string>, topic: Option<string>,
                            oracle: Oracle, j: int)
    requires var e := GenerateForPresentationAsWritten(state, parsed, topic, oracle);
      0 <= j < |e.calls| && oracle(e.calls[j]).Ok?
    ensures GenerateForPresentationAsWritten(state, parsed, topic, oracle).error.Some?
  {
    var texts := Values(parsed);
    SlideTaskCalls(texts, topic, oracle);
    assert Truthy(topic);
    assert !oracle(SlideRequest(texts[j], topic.value)).AuthErr?;
  }
}
