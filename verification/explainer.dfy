/**
 * The background worker: one pass over the pending uploads, the explanation
 * of one presentation, and the file-name helpers of the older status-file
 * workflow. Loading a file and the clock are given to the model as
 * parameters.
 */
module Explainer {
  import opened Wrappers
  import opened PyPath
  import opened PyDict
  import opened Service
  import opened PresentationParser
  import G = GptSlideExplainer
  import DbEngine

  const UploadsFolder := "uploads"
  const OutputsFolder := "outputs"

  /** Whether only the first request of a trace may be a topic request: the
      topic, if asked at all, is asked once and before any slide. */
  predicate TopicFirst(calls: seq<Request>) {
    forall i :: 0 < i < |calls| ==> calls[i].SlideRequest?
  }

  /** The requests of the slide fan-out are all slide requests. */
  lemma SlideCallsAreSlideRequests(texts: seq<string>, topic: Option<string>, oracle: Oracle)
    ensures forall i :: 0 <= i < |AllCalls(G.SlideTasks(texts, topic, oracle))| ==>
      AllCalls(G.SlideTasks(texts, topic, oracle))[i].SlideRequest?
  {
    G.SlideTaskCalls(texts, topic, oracle);
  }

  /** `generate_explanation`: a fresh explainer; the topic is asked for only
      when `main_topic` is falsy; then the slides are explained under it and
      the explainer's map is the result. */
  function GenerateExplanation(parser: Parser, mainTopic: Option<string>, oracle: Oracle): (r: Effect<G.Explanations>)
    ensures TopicFirst(r.calls)
    ensures Truthy(mainTopic) ==> forall i :: 0 <= i < |r.calls| ==> r.calls[i].SlideRequest?
    ensures !Truthy(mainTopic) && AllPresentationText(parser) != "" ==>
      |r.calls| >= 1 && r.calls[0] == TopicRequest(AllPresentationText(parser))
    ensures r.error.Some? ==> r.error.value.OpenAIError? && Keys(r.state) == {}
    ensures r.error.None? ==> forall k :: k in Keys(r.state) <==> 1 <= k <= |parser.presentationText|
    ensures AllPresentationText(parser) == "" ==> r.calls == [] && r.error.None?
  {
    var explainer := G.NewExplanations();
    var t := TopicStep(parser, mainTopic, oracle);
    match t.outcome
    case Raised(err) => Effect(explainer, Some(err), t.calls)
    case Returned(topic) =>
      var e := G.GenerateForPresentation(explainer, parser.presentationText, topic, oracle);
      SlideCallsAreSlideRequests(Values(parser.presentationText), topic, oracle);
      NoTextNoSlides(parser, topic, oracle);
      Effect(e.state, e.error, t.calls + e.calls)
  }

  /** The topic step of `generate_explanation`: the given topic when it is
      truthy, otherwise the topic asked for the whole text. */
  function TopicStep(parser: Parser, mainTopic: Option<string>, oracle: Oracle): (t: Traced<Option<string>>)
    ensures Truthy(mainTopic) || AllPresentationText(parser) == "" ==> t.calls == []
    ensures !Truthy(mainTopic) && AllPresentationText(parser) != "" ==>
      t.calls == [TopicRequest(AllPresentationText(parser))]
    ensures t.outcome.Raised? ==> t.outcome.error.OpenAIError?
  {
    if Truthy(mainTopic) then Traced(Returned(mainTopic), [])
    else G.GenerateTopic(Some(AllPresentationText(parser)), oracle)
  }

  /** A parser with no text has no slides to explain, so the slide step asks
      nothing and succeeds. */
  lemma NoTextNoSlides(parser: Parser, topic: Option<string>, oracle: Oracle)
    ensures var e := G.GenerateForPresentation(G.NewExplanations(), parser.presentationText, topic, oracle);
      AllPresentationText(parser) == "" ==> e.calls == [] && e.error.None?
  {
    if AllPresentationText(parser) == "" {
      assert |Values(parser.presentationText)| == 0;
      G.SlideTaskCalls(Values(parser.presentationText), topic, oracle);
    }
  }

  /** A refused topic request leaves the topic `None`: only that request is
      issued, no slide is asked about, and every slot 1..N holds `''`. */
  lemma RefusedTopicBlanksEverySlot(parser: Parser, oracle: Oracle)
    requires AllPresentationText(parser) != ""
    requires oracle(TopicRequest(AllPresentationText(parser))).AuthErr?
    ensures var r := GenerateExplanation(parser, None, oracle);
      && r.error.None?
      && r.calls == [TopicRequest(AllPresentationText(parser))]
      && forall k :: 1 <= k <= |parser.presentationText| ==> Get(r.state, k) == Some(Some(""))
  {
    assert TopicStep(parser, None, oracle).outcome == Returned(None);
    G.EmptyTopicBlanksEverySlot(G.NewExplanations(), parser.presentationText, None, oracle);
  }

  /** A topic request that fails with any other service error leaves through
      the topic step: its error is raised after that one request, before any
      slide is asked about, and nothing is stored. */
  lemma FailedTopicRaisesFirst(parser: Parser, oracle: Oracle)
    requires AllPresentationText(parser) != ""
    requires oracle(TopicRequest(AllPresentationText(parser))).OtherErr?
    ensures var r := GenerateExplanation(parser, None, oracle);
      && r.error == Some(OpenAIError(oracle(TopicRequest(AllPresentationText(parser))).message))
      && r.calls == [TopicRequest(AllPresentationText(parser))]
      && Keys(r.state) == {}
  {
    assert TopicStep(parser, None, oracle).outcome
      == Raised(OpenAIError(oracle(TopicRequest(AllPresentationText(parser))).message));
  }

  /** `generate_explanation` over the as-written remote calls, where an
      answered request raises `TypeError`. Whatever it stores is `''` or
      `None`: the service's answers never reach the result. */
  function GenerateExplanationAsWritten(parser: Parser, mainTopic: Option<string>, oracle: Oracle)
    : (r: Effect<G.Explanations>)
    ensures TopicFirst(r.calls)
    ensures r.error.None? ==> forall k :: k in Keys(r.state) <==> 1 <= k <= |parser.presentationText|
    ensures r.error.None? ==> forall k :: 1 <= k <= |parser.presentationText| ==>
      Get(r.state, k) == Some(Some("")) || Get(r.state, k) == Some(None)
  {
    var explainer := G.NewExplanations();
    var t := TopicStepAsWritten(parser, mainTopic, oracle);
    match t.outcome
    case Raised(err) => Effect(explainer, Some(err), t.calls)
    case Returned(topic) =>
      var e := G.GenerateForPresentationAsWritten(explainer, parser.presentationText, topic, oracle);
      AsWrittenSlots(parser, topic, oracle);
      Effect(e.state, e.error, t.calls + e.calls)
  }

  /** The topic step of `generate_explanation` as written: the given topic,
      or at most one topic request, which was not answered if the step
      returned. */
  function TopicStepAsWritten(parser: Parser, mainTopic: Option<string>, oracle: Oracle): (t: Traced<Option<string>>)
    ensures |t.calls| <= 1
    ensures t.outcome.Returned? ==> forall i :: 0 <= i < |t.calls| ==> !oracle(t.calls[i]).Ok?
    ensures Truthy(mainTopic) ==> t == Traced(Returned(mainTopic), [])
  {
    if Truthy(mainTopic) then Traced(Returned(mainTopic), [])
    else G.GenerateTopicAsWritten(Some(AllPresentationText(parser)), oracle)
  }

  /** What the as-written slide step leaves in a fresh explainer: only slide
      requests, keys 1 to N, and `''` or `None` in each slot. */
  lemma AsWrittenSlots(parser: Parser, topic: Option<string>, oracle: Oracle)
    ensures var e := G.GenerateForPresentationAsWritten(G.NewExplanations(), parser.presentationText, topic, oracle);
      && (forall i :: 0 <= i < |e.calls| ==> e.calls[i].SlideRequest?)
      && (e.error.None? ==> forall k :: k in Keys(e.state) <==> 1 <= k <= |parser.presentationText|)
      && (e.error.None? ==> forall k :: 1 <= k <= |parser.presentationText| ==>
            Get(e.state, k) == Some(Some("")) || Get(e.state, k) == Some(None))
  {
    SlideCallsAreSlideRequests(Values(parser.presentationText), topic, oracle);
  }

  /** As written, a request the service answers always ends the explanation
      in an exception. For the worker's call, with no topic given and some
      text, an answered topic request raises `TypeError` straight away and
      no slide is asked about. */
  lemma AnsweredRequestRaises(parser: Parser, mainTopic: Option<string>, oracle: Oracle)
    ensures var r := GenerateExplanationAsWritten(parser, mainTopic, oracle);
      (exists i :: 0 <= i < |r.calls| && oracle(r.calls[i]).Ok?) ==> r.error.Some?
  {
    var r := GenerateExplanationAsWritten(parser, mainTopic, oracle);
    var t := TopicStepAsWritten(parser, mainTopic, oracle);
    if t.outcome.Returned? {
      var topic := t.outcome.value;
      var e := G.GenerateForPresentationAsWritten(G.NewExplanations(), parser.presentationText, topic, oracle);
      assert r == Effect(e.state, e.error, t.calls + e.calls);
      AnsweredAfterTopic(t.calls, parser.presentationText, topic, oracle);
    }
  }

  /** After a topic step nobody answered, an answered request belongs to the
      slide step, which then raises. */
  lemma AnsweredAfterTopic(before: seq<Request>, parsed: Dict<int, string>, topic: Option<string>, oracle: Oracle)
    requires forall j :: 0 <= j < |before| ==> !oracle(before[j]).Ok?
    ensures var e := G.GenerateForPresentationAsWritten(G.NewExplanations(), parsed, topic, oracle);
      forall i :: 0 <= i < |before + e.calls| && oracle((before + e.calls)[i]).Ok? ==> e.error.Some?
  {
    var e := G.GenerateForPresentationAsWritten(G.NewExplanations(), parsed, topic, oracle);
    forall i | 0 <= i < |before + e.calls| && oracle((before + e.calls)[i]).Ok?
      ensures e.error.Some?
    {
      AnsweredInTail(before, e.calls, oracle, i);
      G.AnsweredSlideRaises(G.NewExplanations(), parsed, topic, oracle, i - |before|);
    }
  }

  /** An answered request in `a + b`, when no request of `a` was answered,
      lies in `b`. */
  lemma AnsweredInTail(a: seq<Request>, b: seq<Request>, oracle: Oracle, i: int)
    requires forall j :: 0 <= j < |a| ==> !oracle(a[j]).Ok?
    requires 0 <= i < |a + b| && oracle((a + b)[i]).Ok?
    ensures |a| <= i && oracle(b[i - |a|]).Ok?
  {
  }

  /** The worker's call gives no topic: with some text, an answered topic
      request raises `TypeError` at once and no slide is asked about. */
  lemma AnsweredTopicRaises(parser: Parser, oracle: Oracle)
    requires AllPresentationText(parser) != ""
    requires oracle(TopicRequest(AllPresentationText(parser))).Ok?
    ensures GenerateExplanationAsWritten(parser, None, oracle)
      == Effect(G.NewExplanations(), Some(TypeError), [TopicRequest(AllPresentationText(parser))])
  {
  }

  /** Loading a presentation file, as a function the model is given: the
      presentation or the exception the loader raised. */
  type Loader = string -> Outcome<Presentation>

  /** `load_presentation`: load the file and parse it. */
  function LoadPresentation(path: string, loader: Loader): (r: Outcome<Parser>)
    ensures r.Returned? <==> loader(path).Returned?
    ensures r.Raised? ==> r.error == loader(path).error
    ensures r.Returned? ==> r.value.presentation == loader(path).value
    ensures r.Returned? ==> forall k :: k in Keys(r.value.presentationText) <==>
      1 <= k <= |loader(path).value.slides| && SlideText(loader(path).value.slides[k - 1]) != ""
  {
    match loader(path)
    case Raised(e) => Raised(e)
    case Returned(p) =>
      ParseExtracts(p);
      ExtractedKeys(p);
      Returned(Parse(NewParser(p)))
  }

  /** The path the worker reads an upload from: the uploads folder, a slash,
      and the upload's original file name. */
  function InputPath(filename: string): (p: string)
    ensures '/' !in filename ==> p == JoinPath(UploadsFolder, filename) && Basename(p) == filename
  {
    var p := UploadsFolder + "/" + filename;
    if '/' !in filename then
      BasenameOfJoin(UploadsFolder, filename);
      p
    else p
  }

  /** The worker reads from where intake saved the file exactly when the
      original name already is the saved name, uid and extension. */
  lemma InputPathMatchesSavedFileIff(uid: string, filename: string)
    requires '/' !in uid
    ensures InputPath(filename) == JoinPath(UploadsFolder, DbEngine.SavedName(uid, filename))
            <==> filename == DbEngine.SavedName(uid, filename)
  {
    var saved := DbEngine.SavedName(uid, filename);
    var ext := Splitext(filename).1;
    if saved != "" {
      if |uid| > 0 {
        assert saved[0] == uid[0];
        assert uid[0] in uid;
      } else {
        assert saved == ext;
      }
    }
    assert JoinPath(UploadsFolder, saved) == UploadsFolder + "/" + saved;
    if InputPath(filename) == JoinPath(UploadsFolder, saved) {
      assert (UploadsFolder + "/" + filename)[|UploadsFolder + "/"|..] == filename;
      assert (UploadsFolder + "/" + saved)[|UploadsFolder + "/"|..] == saved;
    }
  }

  /** `save_explanation`'s name: the outputs folder joined with the input's
      base name and `.json`. */
  function OutputPath(filePath: string): (p: string)
    ensures Basename(p) == Basename(filePath) + ".json"
    ensures p == OutputsFolder + "/" + Basename(p)
  {
    var name := Basename(filePath) + ".json";
    BasenameOfJoin(OutputsFolder, name);
    assert '/' !in name;
    JoinPath(OutputsFolder, name)
  }

  /** The part of the worker's `try` that runs before the row is touched:
      load the upload's file and explain it. */
  function ExplainUpload(u: DbEngine.Upload, loader: Loader, oracle: Oracle): (r: Effect<G.Explanations>)
    ensures loader(InputPath(u.filename)).Raised? ==>
      r.error == Some(loader(InputPath(u.filename)).error) && r.calls == []
    ensures loader(InputPath(u.filename)).Returned? && r.error.Some? ==> r.error.value.OpenAIError?
    ensures loader(InputPath(u.filename)).Returned? && r.error.None? ==>
      forall k :: k in Keys(r.state) <==> 1 <= k <= |ExtractText(loader(InputPath(u.filename)).value)|
    ensures TopicFirst(r.calls)
  {
    match LoadPresentation(InputPath(u.filename), loader)
    case Raised(e) => Effect(G.NewExplanations(), Some(e), [])
    case Returned(parser) => GenerateExplanation(parser, None, oracle)
  }

  /** How a pass explains one upload. */
  type Explain = DbEngine.Upload -> Effect<G.Explanations>

  /** Lines 34-35 of the worker: stamp the finish time and mark the upload
      done; nothing else in the row changes. */
  function MarkDone(u: DbEngine.Upload, now: string): (v: DbEngine.Upload)
    ensures v.status == DbEngine.Done && v.finishTime == Some(now)
    ensures v.id == u.id && v.uid == u.uid && v.filename == u.filename
    ensures v.uploadTime == u.uploadTime && v.userId == u.userId
  {
    u.(finishTime := Some(now), status := DbEngine.Done)
  }

  /** Whether a row makes the pass stop: a pending upload whose explanation
      raises something other than `KeyError`. */
  predicate Escapes(u: DbEngine.Upload, explain: Explain) {
    u.status == DbEngine.Pending && explain(u).error.Some? && explain(u).error.value != KeyError
  }

  /** The row a pass leaves behind for an upload it got to: a pending upload
      that was explained is done, every other row is as it was. */
  function Settled(u: DbEngine.Upload, explain: Explain, now: string): (v: DbEngine.Upload)
    ensures v == u || v == MarkDone(u, now)
    ensures u.status == DbEngine.Done ==> v == u
    ensures v.status == DbEngine.Done <==> (u.status == DbEngine.Done || explain(u).error.None?)
  {
    if u.status == DbEngine.Pending && explain(u).error.None? then MarkDone(u, now)
    else
      assert u.status == DbEngine.Done || explain(u).error.Some?;
      u
  }

  /** The result of one pass: the rows afterwards, the exception that ended
      it, the requests issued and the explanation files written, in order. */
  datatype Pass = Pass(rows: seq<DbEngine.Upload>, error: Option<Exception>, calls: seq<Request>,
                       written: seq<(string, G.Explanations)>)

  /** One iteration of `process_files`' loop over the rows the query
      returned: every pending upload in order is explained, marked done, its
      explanation written and the change committed on its own. `KeyError`
      skips the upload; any other exception ends the pass, keeping what was
      committed before it. */
  function Cycle(rows: seq<DbEngine.Upload>, explain: Explain, now: string): (r: Pass)
    ensures |r.rows| == |rows|
    ensures r.error.Some? ==> r.error.value != KeyError
    ensures |r.written| <= |rows|
  {
    if |rows| == 0 then Pass([], None, [], [])
    else
      var u := rows[0];
      var rest := Cycle(rows[1..], explain, now);
      if u.status != DbEngine.Pending then
        Pass([u] + rest.rows, rest.error, rest.calls, rest.written)
      else
        var e := explain(u);
        match e.error
        case Some(err) =>
          if err == KeyError then Pass([u] + rest.rows, rest.error, e.calls + rest.calls, rest.written)
          else Pass(rows, Some(err), e.calls, [])
        case None =>
          var out := (OutputPath(InputPath(u.filename)), e.state);
          Pass([MarkDone(u, now)] + rest.rows, rest.error, e.calls + rest.calls, [out] + rest.written)
  }

  /** A pass only ever marks rows done: every row is as it was or marked
      done. */
  lemma {:induction false} CycleMarksOnly(rows: seq<DbEngine.Upload>, explain: Explain, now: string)
    ensures var r := Cycle(rows, explain, now);
      forall i :: 0 <= i < |rows| ==> r.rows[i] == rows[i] || r.rows[i] == MarkDone(rows[i], now)
  {
    if |rows| > 0 {
      CycleMarksOnly(rows[1..], explain, now);
      CycleHead(rows, explain, now);
    }
  }

  /** How a pass treats its first row: a row that stops the pass leaves all
      rows as they were; any other row is settled and the rest of the pass
      follows. */
  lemma CycleHead(rows: seq<DbEngine.Upload>, explain: Explain, now: string)
    requires |rows| > 0
    ensures var r := Cycle(rows, explain, now);
      var rest := Cycle(rows[1..], explain, now);
      && (Escapes(rows[0], explain) ==> r.rows == rows && r.error == explain(rows[0]).error)
      && (!Escapes(rows[0], explain) ==> r.rows == [Settled(rows[0], explain, now)] + rest.rows && r.error == rest.error)
      && (forall i :: 0 < i < |rows| ==> rows[i] == rows[1..][i - 1])
  {
  }

  /** A pass never touches a row that is already done, so done never goes
      back to pending. */
  lemma {:induction false} CycleKeepsDone(rows: seq<DbEngine.Upload>, explain: Explain, now: string)
    ensures var r := Cycle(rows, explain, now);
      forall i :: 0 <= i < |rows| && rows[i].status == DbEngine.Done ==> r.rows[i] == rows[i]
  {
    if |rows| > 0 {
      CycleKeepsDone(rows[1..], explain, now);
      CycleHead(rows, explain, now);
    }
  }

  /** Row `i` is the first row that makes a pass stop. */
  predicate FirstEscape(rows: seq<DbEngine.Upload>, explain: Explain, i: int) {
    0 <= i < |rows| && Escapes(rows[i], explain) && forall j :: 0 <= j < i ==> !Escapes(rows[j], explain)
  }

  /** The pass ends in an exception exactly when some pending upload raises
      something other than `KeyError`, and that exception is the first such
      upload's. */
  lemma {:induction false} CycleErrorIff(rows: seq<DbEngine.Upload>, explain: Explain, now: string)
    ensures Cycle(rows, explain, now).error.Some? <==> exists i :: 0 <= i < |rows| && Escapes(rows[i], explain)
    ensures Cycle(rows, explain, now).error.Some? ==>
      exists i :: FirstEscape(rows, explain, i) && explain(rows[i]).error == Cycle(rows, explain, now).error
  {
    if |rows| > 0 {
      CycleErrorIff(rows[1..], explain, now);
      assert forall i :: 0 < i < |rows| ==> rows[i] == rows[1..][i - 1];
      if Escapes(rows[0], explain) {
        assert FirstEscape(rows, explain, 0);
      } else if Cycle(rows, explain, now).error.Some? {
        var i :| FirstEscape(rows[1..], explain, i) &&
                 explain(rows[1..][i]).error == Cycle(rows[1..], explain, now).error;
        assert FirstEscape(rows, explain, i + 1);
      }
    }
  }

  /** A pass that stops at row `i` has settled every row before it and left
      that row and every later one as it was. */
  lemma {:induction false} CycleStopsAt(rows: seq<DbEngine.Upload>, explain: Explain, now: string, i: int)
    requires FirstEscape(rows, explain, i)
    ensures var r := Cycle(rows, explain, now);
      && r.error == explain(rows[i]).error
      && (forall j :: 0 <= j < i ==> r.rows[j] == Settled(rows[j], explain, now))
      && (forall j :: i <= j < |rows| ==> r.rows[j] == rows[j])
  {
    CycleHead(rows, explain, now);
    if i > 0 {
      assert FirstEscape(rows[1..], explain, i - 1);
      CycleStopsAt(rows[1..], explain, now, i - 1);
      CycleStopsLater(rows, explain, now, i);
    }
  }

  /** The step of `CycleStopsAt` for a stop after the first row: the first
      row is settled and the rest of the pass stops one row earlier. */
  lemma CycleStopsLater(rows: seq<DbEngine.Upload>, explain: Explain, now: string, i: int)
    requires FirstEscape(rows, explain, i) && i > 0
    requires var rest := Cycle(rows[1..], explain, now);
      && rest.error == explain(rows[i]).error
      && (forall j :: 0 <= j < i - 1 ==> rest.rows[j] == Settled(rows[j + 1], explain, now))
      && (forall j :: i - 1 <= j < |rows| - 1 ==> rest.rows[j] == rows[j + 1])
    ensures var r := Cycle(rows, explain, now);
      && r.error == explain(rows[i]).error
      && (forall j :: 0 <= j < i ==> r.rows[j] == Settled(rows[j], explain, now))
      && (forall j :: i <= j < |rows| ==> r.rows[j] == rows[j])
  {
    CycleHead(rows, explain, now);
    assert !Escapes(rows[0], explain);
  }

  /** A pass that ends without an exception settles every row: pending
      uploads that were explained are done, the rest are as they were. */
  lemma {:induction false} CycleSettles(rows: seq<DbEngine.Upload>, explain: Explain, now: string)
    ensures var r := Cycle(rows, explain, now);
      r.error.None? ==> forall i :: 0 <= i < |rows| ==> r.rows[i] == Settled(rows[i], explain, now)
  {
    if |rows| > 0 {
      CycleSettles(rows[1..], explain, now);
      CycleHead(rows, explain, now);
    }
  }

  /** A pass that ends without an exception leaves nothing for a second pass
      with the same outcomes to do: no row changes and no file is written. */
  lemma {:induction false} CycleIdempotent(rows: seq<DbEngine.Upload>, explain: Explain, now: string)
    requires Cycle(rows, explain, now).error.None?
    ensures var once := Cycle(rows, explain, now);
      var twice := Cycle(once.rows, explain, now);
      twice.rows == once.rows && twice.error.None? && twice.written == []
  {
    if |rows| > 0 {
      CycleIdempotent(rows[1..], explain, now);
      var once := Cycle(rows, explain, now);
      assert once.rows[1..] == Cycle(rows[1..], explain, now).rows;
    }
  }

  /** The worker's way of explaining an upload, with the loader and the
      service fixed. */
  function ExplainWith(loader: Loader, oracle: Oracle): (explain: Explain)
    ensures forall u :: explain(u) == ExplainUpload(u, loader, oracle)
  {
    u => ExplainUpload(u, loader, oracle)
  }

  /** The exception that ends a pass of the worker is a service error or
      what the loader raised for a pending upload's path. */
  lemma PollErrorSource(rows: seq<DbEngine.Upload>, loader: Loader, oracle: Oracle, now: string)
    ensures var r := Cycle(rows, ExplainWith(loader, oracle), now);
      r.error.Some? ==>
        || r.error.value.OpenAIError?
        || exists i :: 0 <= i < |rows| && rows[i].status == DbEngine.Pending &&
                       loader(InputPath(rows[i].filename)) == Raised(r.error.value)
  {
    var explain := ExplainWith(loader, oracle);
    var r := Cycle(rows, explain, now);
    CycleErrorIff(rows, explain, now);
    if r.error.Some? {
      var i :| 0 <= i < |rows| && Escapes(rows[i], explain) && explain(rows[i]).error == r.error;
      var e := ExplainUpload(rows[i], loader, oracle);
      assert e.error == r.error;
      if loader(InputPath(rows[i].filename)).Raised? {
        assert loader(InputPath(rows[i].filename)) == Raised(r.error.value);
      }
    }
  }

  /** One pass of the worker with the loader and the service. */
  function PollOnce(rows: seq<DbEngine.Upload>, loader: Loader, oracle: Oracle, now: string): (r: Pass)
    ensures |r.rows| == |rows|
    ensures r.error.Some? ==>
      || r.error.value.OpenAIError?
      || exists i :: 0 <= i < |rows| && rows[i].status == DbEngine.Pending &&
                     loader(InputPath(rows[i].filename)) == Raised(r.error.value)
  {
    PollErrorSource(rows, loader, oracle, now);
    Cycle(rows, ExplainWith(loader, oracle), now)
  }

  /** `load_status`: the status file's map, or an empty map when there is no
      file. */
  function LoadStatus(file: Option<Dict<string, int>>): (r: Dict<string, int>)
    ensures file.None? ==> Keys(r) == {}
    ensures file.Some? ==> forall k :: Get(r, k) == Get(file.value, k)
  {
    match file
    case None => []
    case Some(d) => d
  }

  /** `update_status`: record the time under the file's base name; every
      other entry stays. */
  function UpdateStatus(status: Dict<string, int>, filePath: string, time: int): (r: Dict<string, int>)
    ensures Get(r, Basename(filePath)) == Some(time)
    ensures Keys(r) == Keys(status) + {Basename(filePath)}
    ensures forall k :: k != Basename(filePath) ==> Get(r, k) == Get(status, k)
  {
    Assign(status, Basename(filePath), time)
  }

  /** `find_unprocessed_files`: in listing order, the uploads folder joined
      with each listed name that is not a key of the status map. */
  function FindUnprocessedFiles(listing: seq<string>, status: Dict<string, int>): (r: seq<string>)
    ensures |r| <= |listing|
    ensures forall p :: p in r <==>
      exists name :: name in listing && name !in Keys(status) && p == JoinPath(UploadsFolder, name)
  {
    if |listing| == 0 then []
    else
      var rest := FindUnprocessedFiles(listing[1..], status);
      assert forall name :: name in listing <==> name == listing[0] || name in listing[1..];
      if listing[0] !in Keys(status) then [JoinPath(UploadsFolder, listing[0])] + rest else rest
  }

  /** A name listed later is reported later: scanning one more name appends
      at most that name's path. */
  lemma {:induction false} FindUnprocessedAppend(listing: seq<string>, name: string, status: Dict<string, int>)
    ensures FindUnprocessedFiles(listing + [name], status) ==
      FindUnprocessedFiles(listing, status) + (if name !in Keys(status) then [JoinPath(UploadsFolder, name)] else [])
  {
    if |listing| > 0 {
      assert (listing + [name])[1..] == listing[1..] + [name];
      FindUnprocessedAppend(listing[1..], name, status);
    } else {
      assert listing + [name] == [name];
    }
  }

  /** Once a file's status is recorded, it is no longer reported as
      unprocessed. */
  lemma RecordedFileNotUnprocessed(listing: seq<string>, status: Dict<string, int>, name: string, time: int)
    requires '/' !in name && name != ""
    ensures JoinPath(UploadsFolder, name) !in
      FindUnprocessedFiles(listing, UpdateStatus(status, JoinPath(UploadsFolder, name), time))
  {
    var path := JoinPath(UploadsFolder, name);
    BasenameOfJoin(UploadsFolder, name);
    var st := UpdateStatus(status, path, time);
    assert name in Keys(st);
  }
}
