# Slide explainer: a Dafny model of its data path

The system accepts PowerPoint uploads and stores them under generated names.
A background worker later explains each pending upload slide by slide with a
remote text-generation service. A web endpoint reports the upload's status
from the stored name. This project models the deterministic part of that
pipeline and proves properties of it:

- **Slide text extraction** (`PresentationParser`). A presentation is slides
  of shapes of paragraphs of runs. The result maps each slide's original
  1-based number to its stripped text, and blank slides are left out.
- **The two explainers**. `GptSlideExplainer` is the asynchronous one: a
  gather of one task per slide, with results stored under 1..N.
  `SlideExpander` is the sequential one.
- **The worker** (`Explainer`). It covers one pass over the pending uploads,
  the explanation of one presentation, and the helpers of the older
  status-file workflow.
- **The web endpoints' naming scheme** (`WebApi`). A file is stored as
  `<stem>_<timestamp>_<uid>`, found by its uid and read back.
- **The upload registry** (`DbEngine`). Users and uploads are records with
  the table constraints as an invariant.

Python's own behaviour is spelled out in small modules:

- `PyStr`: `strip` over an explicit whitespace predicate, `split`, `join`
  and `in`.
- `PyInt`: `int()` and `str()` of integers.
- `PyPath`: `basename`, `join` and `splitext` (POSIX).
- `PyDict`: an insertion-ordered `dict` as a sequence of pairs.

The remote service is an oracle `Request -> Reply`. A reply is `Ok(content)`,
`AuthErr` or `OtherErr(message)`. Every modelled call returns the requests it
issued, in order, so "no remote call" is a provable statement.
`asyncio.gather` is an order-preserving map. The clock, the random uid, the
file system and the presentation loader are parameters.

The model follows the code except in three places. In each, the code as
written raises `TypeError` where its evident intent is plain. The main
members model the intent, and the code as written is modelled beside them.
Each place is a row under "## Findings":

- The asynchronous explainer awaits the synchronous
  `openai.ChatCompletion.create` (gpt_slide_explainer.py:71 and :103), so
  every answered request raises. `AskSwallowingAuth` and the members built on
  it model the awaitable call; `AskAwaitingSync` and the `AsWritten` members
  model the code.
- `process_slide_task` catches `openai.error`, a module
  (gpt_slide_explainer.py:131-135). `ProcessSlideTask` models the documented
  error note; `ProcessSlideTaskAsWritten` models the code.
- The sequential loop catches the same module (slide_expander.py:36-41).
  `SlideExpander.GenerateForPresentation` models the intended failure note;
  `SlideExpander.GenerateForPresentationAsWritten` models the code.

The upload endpoint takes its timestamp as a parameter. So the `strftime`
stamp the code uses (web_api.py:33) and the intended integer stamp are both
modelled, and the fourth Findings row compares them.

Apart from the three places above, where the code and its documentation
disagree the model follows the code. (The second place above is also where a
docstring disagrees with the code: `process_slide_task` is documented to
return an error note on a service error, gpt_slide_explainer.py:127, and
`ProcessSlideTask` models that note.) The other places are these four:

- The poller reads `uploads/<original filename>` (explainer.py:31), while
  intake saves the file as `<uid><extension>` (db/db_engine.py:108).
  `Explainer.InputPathMatchesSavedFileIff` states exactly when the two agree.
- The asynchronous explainer is documented to raise `RuntimeError` when the
  topic cannot be fetched (gpt_slide_explainer.py:33-34). Instead an
  authentication error gives a `None` topic, and any other service error from
  the topic request leaves `generate_topic_for_presentation` through the
  first `asyncio.run` (explainer.py:133-134), before any slide is asked
  about (`Explainer.FailedTopicRaisesFirst`). A service error from a slide
  request is the one that leaves through the gather
  (gpt_slide_explainer.py:47) and the second `asyncio.run`.
- The asynchronous explainer is documented to map slide indexes to
  explanations, but it re-keys results densely as 1..N, while the parser's
  keys are the original, possibly sparse, slide numbers.
- `upload_path` is documented to compute the path of the uploaded file
  (db/db_engine.py:77-81). For a file name with no dot it names
  `<uid>.<filename>`, while intake saved the file as the bare uid
  (db/db_engine.py:108). `DbEngine.UploadPathWithoutDot` models the code.

## Model

| member | source | states |
|---|---|---|
| PresentationParser.SlideText | presentation_parser.py:62-68 | a slide's text is the concatenated text of its framed shapes, stripped, so it never starts or ends with whitespace |
| PresentationParser.CollectTexts | presentation_parser.py:41-49 | after the first n slides the map's keys are exactly the numbers k <= n whose slide text is non-empty; keys strictly increase in insertion order; each entry holds its own slide's text |
| PresentationParser.CollectStep | presentation_parser.py:43-47 | one turn of the loop keeps the key-set, ordering, bound and entry invariants |
| PresentationParser.CollectKeep | presentation_parser.py:46-47 | a slide with text appends its entry after every earlier, smaller key |
| PresentationParser.ExtractText | presentation_parser.py:31-49 | k is a key iff 1 <= k <= number of slides and slide k's text is non-empty; keys strictly increase; every value is slide k's non-empty text |
| PresentationParser.ExtractedKeysDistinct | presentation_parser.py:43-47 | no slide number is stored twice |
| PresentationParser.ExtractedTextsStripped | presentation_parser.py:46-47 | every stored value is non-empty, and the second strip() leaves it unchanged |
| PresentationParser.BlankSlideDropped | presentation_parser.py:43-47 | slide k is absent from the map iff all of its framed text is whitespace |
| PresentationParser.StripLine | presentation_parser.py:68 | a stripped line followed by the paragraph's line break strips back to the line |
| PresentationParser.OneRunText | presentation_parser.py:99-100 | a single run contributes its stripped text |
| PresentationParser.OneShapeText | presentation_parser.py:64-66 | a framed shape contributes exactly its paragraphs' text |
| PresentationParser.OneLineSlideText | presentation_parser.py:52-68 | a slide with one text box of one stripped line has that line as its text |
| PresentationParser.CollectKeeps | presentation_parser.py:46-47 | a slide with text adds its entry at the end of the map built so far |
| PresentationParser.CollectSkips | presentation_parser.py:46 | a blank slide leaves the map built so far unchanged |
| PresentationParser.BlankMiddleSlide | presentation_parser.py:43-47 | slides a, blank, c give exactly [(1, a), (3, c)]: the blank slide is dropped and nothing is renumbered |
| PresentationParser.SpacedJoin | presentation_parser.py:110 | the joined text has at least one character per value and is empty iff there are no values |
| PresentationParser.SpacedJoinAppend | presentation_parser.py:110 | one more value adds that value and one space at the end |
| PresentationParser.NewParser | presentation_parser.py:22 | a new parser holds the presentation and an empty text map |
| PresentationParser.Parse | presentation_parser.py:24-25 | parse() keeps the presentation, and every key it stores is a slide number of it |
| PresentationParser.AllTextEmptyIff | presentation_parser.py:104-110 | before parse() the joined text is empty; after it the text is empty iff every slide's text is empty |
| PyStr.Strip | presentation_parser.py:68 | strip() removes exactly whitespace from both ends and leaves a middle with no whitespace at either end |
| PyStr.StripIdempotent | presentation_parser.py:47 | stripping twice is stripping once |
| PyStr.StripEmptyIff | presentation_parser.py:46 | a text strips to empty iff it is all whitespace |
| GptSlideExplainer.AskSwallowingAuth | gpt_slide_explainer.py:102-112 | one request is issued; an authentication failure gives None; any other failure raises OpenAIError with its message; Ok gives the content |
| GptSlideExplainer.GenerateTopic | gpt_slide_explainer.py:53-82 | no request and '' iff the text is empty or None; otherwise exactly one topic request, answered with its content, None on AuthErr and a raised OpenAIError on other errors |
| GptSlideExplainer.GenerateSlide | gpt_slide_explainer.py:84-114 | no request and '' iff the topic is empty or None; otherwise exactly one slide request, answered with its content, None on AuthErr and a raised OpenAIError on other errors |
| GptSlideExplainer.Gather | gpt_slide_explainer.py:47 | all tasks' requests are issued; the gather returns iff every task returns, with the results in task order; otherwise it raises some task's error |
| GptSlideExplainer.SlideTaskCalls | gpt_slide_explainer.py:41-44 | the tasks issue one request per value, in value order, each carrying that value and the topic; none at all when the topic is falsy |
| GptSlideExplainer.GatherSlides | gpt_slide_explainer.py:41-47 | the gather returns iff every slide call returns, and then holds slide i's result at position i; a raise means the topic is truthy and some slide's reply was a non-authentication error |
| GptSlideExplainer.NewExplanations | gpt_slide_explainer.py:17 | the explanation map starts with no keys |
| GptSlideExplainer.GenerateForPresentation | gpt_slide_explainer.py:26-51 | on success keys 1..N are added and slot i+1 holds the i-th value's result; on failure the map is unchanged and the error is an OpenAIError; keys outside 1..N are never touched |
| GptSlideExplainer.EmptyTopicBlanksEverySlot | gpt_slide_explainer.py:94 | an empty or missing topic issues no request and stores '' in every slot 1..N |
| GptSlideExplainer.DenseKeys | gpt_slide_explainer.py:50-51 | from a fresh explainer, the keys are exactly 1..N whatever the parsed slide numbers were |
| GptSlideExplainer.SparseSlidesDenseSlots | gpt_slide_explainer.py:50-51 | parsed keys {1, 3} become stored keys {1, 2}: there is a slot 2 and no slot 3 |
| GptSlideExplainer.StaleSlotsSurvive | gpt_slide_explainer.py:50-51 | a key above N left by an earlier presentation is still present afterwards |
| GptSlideExplainer.ErrorNote | gpt_slide_explainer.py:135 | the note opens with 'ERROR - explanation generation for slide ', ends with the message, is longer than both together, and the word after the opening reads back with int() as the slide index |
| GptSlideExplainer.ProcessSlideTask | gpt_slide_explainer.py:116-135 | as documented: never raises; issues the slide's requests; passes a result through and turns a service error into the note naming the slide and the message |
| GptSlideExplainer.ProcessSlideTaskAsWritten | gpt_slide_explainer.py:131-135 | as written as far as the except clause goes: raises iff the slide call raises, and then raises TypeError; it builds on the awaitable slide call, so it isolates only the except defect |
| GptSlideExplainer.ProcessSlideTaskDiffers | gpt_slide_explainer.py:131-135 | a rate-limit error on slide 2: the documented task returns the note for slide 2, the written one raises TypeError |
| GptSlideExplainer.AskAwaitingSync | gpt_slide_explainer.py:71-80 | as written: the one request is issued; an answered request raises TypeError; a refused one gives None; any other failure raises as in AskSwallowingAuth |
| GptSlideExplainer.GenerateTopicAsWritten | gpt_slide_explainer.py:53-82 | as written: the same requests as GenerateTopic; whatever it returns is falsy; an answered topic request raises TypeError; otherwise it agrees with GenerateTopic |
| GptSlideExplainer.GenerateSlideAsWritten | gpt_slide_explainer.py:84-114 | as written: the same requests as GenerateSlide; it returns iff the topic is falsy or the request is refused, and then returns '' or None; an answered request raises TypeError |
| GptSlideExplainer.SlideTasksAsWrittenCalls | gpt_slide_explainer.py:41-44 | the as-written slide tasks issue the same requests as the intended ones |
| GptSlideExplainer.GatherSlidesAsWritten | gpt_slide_explainer.py:41-47 | as written: the gather returns iff the topic is falsy or every slide request is refused, and then every result is '' or every result is None |
| GptSlideExplainer.GenerateForPresentationAsWritten | gpt_slide_explainer.py:26-51 | as written: the same requests; success iff the topic is falsy or every slide request is refused; then keys 1..N are added and each holds '' or None, never an explanation; a failure leaves the map unchanged |
| GptSlideExplainer.AnsweredSlideRaises | gpt_slide_explainer.py:41-47 | as written: one answered slide request makes the whole gather raise |
| SlideExpander.Ask | slide_expander.py:60-67 | one request; an Ok reply returns its content; any failure, authentication included, raises that reply's error |
| SlideExpander.GenerateTopic | slide_expander.py:44-69 | no request and '' iff the text is falsy; otherwise exactly one topic request, which raises iff the reply is not Ok and otherwise returns the service's topic |
| SlideExpander.GenerateSlide | slide_expander.py:72-98 | no request and '' iff the topic is falsy; otherwise exactly one slide request, which raises iff the reply is not Ok and otherwise returns the service's explanation |
| SlideExpander.Slot | slide_expander.py:36-41 | the stored slot is the failure note iff the call failed or itself answered with that note; it is '' when the topic is falsy and the service's explanation when the request is answered |
| SlideExpander.SlideCallsPrefix | slide_expander.py:35-38 | one more slide appends exactly that slide's requests |
| SlideExpander.GenerateForPresentation | slide_expander.py:21-41 | as intended: the i-th value's slot is stored under i+1 for every value, a failed slide gets the failure note, and one request per value is issued in order |
| SlideExpander.StoresSlot | slide_expander.py:37-41 | each turn stores the explanation, or the failure note, under the next number |
| SlideExpander.StoredSlots | slide_expander.py:34-41 | the intended loop adds keys 1..N, slot i+1 holds the i-th value's slot, and other keys keep their values |
| SlideExpander.FirstFailure | slide_expander.py:35-40 | the stopping point: every earlier slide call returns, and the slide there raises |
| SlideExpander.KeepsGoing | slide_expander.py:37-39 | a returning slide before the first failure stores its explanation as the next slot |
| SlideExpander.StopsAt | slide_expander.py:38-40 | a raising slide reached by the loop is the first failure, and the requests so far end with its own |
| SlideExpander.GenerateForPresentationAsWritten | slide_expander.py:34-41 | as written: the slots before the first failure are stored; it raises TypeError iff some slide fails, after that slide's request and before any later one |
| SlideExpander.AskInTurn | slide_expander.py:35-41 | the as-written loop over the value sequence, with the same guarantees stated over the texts |
| SlideExpander.SecondSlideFails | slide_expander.py:36-41 | three slides with the second failing: the loop as written stops after slide 1, the intended one stores [x, note, x] and still asks about slide 3 |
| SlideExpander.AgreesWithAsyncOnSuccess | slide_expander.py:72-98 | where the service answers, both explainers compute the same explanation for a slide; the asynchronous call as written raises TypeError there instead |
| SlideExpander.DiffersOnAuthFailure | slide_expander.py:36-41 | on a refused credential the sequential loop stores the failure note and the asynchronous one stores None |
| Explainer.GenerateExplanation | explainer.py:119-140 | at most one topic request, asked first and only for a falsy main topic over a non-empty text; an empty text asks nothing and succeeds; on success the keys are exactly 1..N; an error is an OpenAIError with nothing stored |
| Explainer.TopicStep | explainer.py:131-133 | a truthy main topic, or an empty text, asks nothing; otherwise exactly one topic request for the whole text; a raised error is an OpenAIError |
| Explainer.TopicStepAsWritten | explainer.py:131-133 | as written: at most one request, and when the step returns, no request it issued was answered |
| Explainer.GenerateExplanationAsWritten | explainer.py:119-140 | as written: the topic request comes first; on success the keys are exactly 1..N and each slot holds '' or None |
| Explainer.AnsweredRequestRaises | explainer.py:119-140 | as written: if the service answers any request that was issued, generate_explanation raises |
| Explainer.AnsweredTopicRaises | explainer.py:131-133 | as written, with no main topic and some text: an answered topic request raises TypeError at once, after that one request, with nothing stored |
| Explainer.RefusedTopicBlanksEverySlot | explainer.py:133-139 | a refused topic request yields topic None: only that request is issued, and every slot is '' |
| Explainer.FailedTopicRaisesFirst | explainer.py:133-134 | a topic request failing with any other service error raises that error out of generate_explanation after that one request, before any slide request, with nothing stored |
| Explainer.LoadPresentation | explainer.py:106-118 | the loader's exception propagates unchanged; otherwise the parser holds the loaded presentation, and k is a key iff 1 <= k <= its slide count and slide k has text |
| Explainer.InputPath | explainer.py:31 | for a name without '/', the path is the uploads folder joined with the name, whose basename is the name |
| Explainer.InputPathMatchesSavedFileIff | explainer.py:31 | the worker's path equals the file intake saved iff the original name already equals uid plus extension |
| Explainer.OutputPath | explainer.py:154-155 | the path is the outputs folder, '/', and the input's basename followed by .json |
| Explainer.ExplainUpload | explainer.py:31-33 | a loader exception is passed through with no requests; otherwise errors are OpenAIError and on success the keys are 1..number of extracted slides |
| Explainer.MarkDone | explainer.py:34-35 | the row becomes done with the finish time set, and every other field is kept |
| Explainer.Settled | explainer.py:29-40 | a row is either unchanged or marked done; a done row is unchanged; it ends done iff it was done or its explanation raised nothing |
| Explainer.Cycle | explainer.py:29-40 | a pass keeps the row count; the exception ending it is never KeyError; at most one file is written per row |
| Explainer.CycleMarksOnly | explainer.py:34-35 | every row after a pass is the same row or that row marked done |
| Explainer.CycleKeepsDone | explainer.py:27-28 | rows already done are untouched, so done never reverts to pending |
| Explainer.CycleErrorIff | explainer.py:39-40 | a pass raises iff some pending upload raises something other than KeyError, and it raises the first such upload's exception |
| Explainer.CycleStopsAt | explainer.py:29-40 | a pass stopping at the first raising upload raises that upload's exception, has settled every earlier row, and leaves that row and every later one unchanged |
| Explainer.CycleSettles | explainer.py:29-40 | a pass that raises nothing settles every row |
| Explainer.CycleIdempotent | explainer.py:27-35 | after a clean pass, a second pass with the same outcomes changes no row, raises nothing and writes no file |
| Explainer.PollErrorSource | explainer.py:29-40 | the exception ending a worker pass is a service error or the loader's exception for a pending upload's path |
| Explainer.PollOnce | explainer.py:25-40 | one pass keeps the row count, and its exception comes from the service or from loading a pending upload |
| Explainer.LoadStatus | explainer.py:82-88 | no status file gives the empty map; otherwise the file's entries |
| Explainer.UpdateStatus | explainer.py:98-100 | the basename's entry is set to the time, the key set gains only that name, and every other entry is unchanged |
| Explainer.FindUnprocessedFiles | explainer.py:64-72 | a path is reported iff it is the uploads folder joined with a listed name that is not a status key; there are no more results than names |
| Explainer.FindUnprocessedAppend | explainer.py:68-70 | results follow the listing order: one more listed name appends at most its own path |
| Explainer.RecordedFileNotUnprocessed | explainer.py:64-72 | once update_status recorded a file, find_unprocessed_files no longer reports it |
| PyDict.Assign | explainer.py:100 | item assignment sets one key and leaves every other key's value alone |
| PyDict.AssignNumbered | gpt_slide_explainer.py:50-51 | assigning values under 1..n adds exactly those keys, puts the i-th value under i+1, and keeps every other key |
| WebApi.GetFilename | web_api.py:94-104 | the stem followed by the splitext extension is the original name |
| WebApi.CanonicalUuidHasNoSeparator | web_api.py:84-91 | a canonical version-4 uuid string has no '_' and no '/' |
| WebApi.UploadEndpoint | web_api.py:16-38 | 400 with the error body iff there is no file part; otherwise the uid body, with the file saved as uploads/stem_timestamp_uid |
| WebApi.GetFileDetails | web_api.py:139-156 | IndexError iff the basename has no '_'; the only other failure is ValueError; the explanation is present iff the status is 'done', and is then stem_output.json |
| WebApi.SplitUploadName | web_api.py:150-151 | a stored name splits into the stem's own fields, then the timestamp, then the uid |
| WebApi.DetailsOfUploadName | web_api.py:150-152 | reading a stored name back returns the whole stem, even one containing '_', and fails iff int() rejects the timestamp field |
| PyStr.SplitJoin | web_api.py:150-151 | split undoes join for parts without the separator |
| WebApi.Pad2 | web_api.py:33 | a two-digit zero-padded field whose digits spell the number |
| WebApi.StrftimeStamp | web_api.py:33 | the strftime stamp has no '_' or '/', starts and ends with a digit, and has a '-' after its first character |
| WebApi.StrftimeStampNotInt | web_api.py:33 | int() rejects every strftime stamp |
| WebApi.UploadDetailsAsWritten | web_api.py:152 | as written, reading back any stored upload raises ValueError |
| WebApi.EpochStamp | web_api.py:33 | the integer-seconds stamp has no separator, and int() reads back the same seconds |
| WebApi.UploadDetailsRoundTrip | web_api.py:150-156 | with the integer stamp, reading back gives the stem, the seconds and the explanation name exactly |
| PyInt.ParseIntRoundTrip | web_api.py:152 | int(str(n)) == n for every integer |
| WebApi.FirstContaining | web_api.py:117-118 | the position of the first listed name containing the uid, with no earlier one containing it |
| WebApi.FindFileByUid | web_api.py:107-120 | None iff no listed name contains the uid; otherwise the folder joined with the first name that does |
| WebApi.UploadNameContainsUid | web_api.py:34 | a stored name contains its own uid |
| WebApi.FindsStoredUpload | web_api.py:117-120 | an upload's stored name is found by its uid when no earlier name contains the uid |
| WebApi.GetStatus | web_api.py:123-136 | only 'done' or 'pending', and 'done' iff the output file is found |
| WebApi.StatusEndpoint | web_api.py:41-81 | an unknown uid gives 404 with 'not found', empty fields and no explanation; a 404 means not found; otherwise 200 with status done or pending and an explanation iff done; failures are IndexError or ValueError |
| WebApi.StatusOfStoredUploadAsWritten | web_api.py:64-66 | as written, a status query for a stored, found upload raises ValueError |
| DbEngine.StatusName | db/db_engine.py:20-22 | a status is stored as 'pending' or 'done' |
| DbEngine.ParseStatus | db/db_engine.py:67-68 | the enum column accepts exactly 'pending' and 'done' |
| DbEngine.StatusNameRoundTrip | db/db_engine.py:20-22 | status names and statuses correspond one to one |
| DbEngine.NewUpload | db/db_engine.py:66-68 | a new upload is pending with no finish time |
| DbEngine.EmptyRegistry | db/db_engine.py:84-89 | fresh tables satisfy every constraint and hold no uid or email |
| DbEngine.FindUserByEmail | db/db_engine.py:126 | present iff some user has the email, and then it is the first such user in table order |
| DbEngine.InsertUpload | db/db_engine.py:63 | the unique uid column: IntegrityError iff the uid is taken, and otherwise exactly one new pending row at the end |
| DbEngine.InsertUploadValid | db/db_engine.py:62-69 | a committed insertion with an existing owner keeps the table constraints |
| DbEngine.SaveUpload | db/db_engine.py:92-109 | returns the uid iff it is fresh, adds one ownerless row, saves the file as uploads/uid+extension; a failure changes nothing; constraints are kept |
| DbEngine.FindOrCreateUser | db/db_engine.py:126-130 | an existing user with the email is reused; otherwise exactly one user is appended; the emails gain only this one; constraints are kept |
| DbEngine.NewUserValid | db/db_engine.py:43-44 | a user with an unused email keeps ids and emails unique |
| DbEngine.SaveUploadWithEmail | db/db_engine.py:112-137 | at most one user is created; the upload row is owned by that user; a uid collision leaves the uploads unchanged; emails stay unique |
| DbEngine.SameEmailOneUser | db/db_engine.py:126-130 | two uploads with one new email create exactly one user |
| DbEngine.LastDotPiece | db/db_engine.py:81 | the last '.'-piece contains no dot |
| DbEngine.LastDotPieceOfExtension | db/db_engine.py:81 | the last piece of root.rest is rest |
| DbEngine.UploadPathMatchesSavedName | db/db_engine.py:81 | with a splitext extension, upload_path's file name is the name intake saved the file under |
| DbEngine.UploadPathWithoutDot | db/db_engine.py:81 | without a dot, upload_path names uid.filename while intake saved the bare uid |
| PyPath.Splitext | db/db_engine.py:107 | root plus extension is the name; the extension is empty or a dot with no further dot or '/'; it is non-empty iff the basename has a dot after some non-dot character, so leading dots never start an extension |
| PyPath.BasenameOfJoin | explainer.py:154-155 | a name joined under a folder has that name as its basename |
| DbEngine.FinishTimeText | db/db_engine.py:157 | a missing finish time is written as "None", a present one as its own text |
| DbEngine.SaveToJson | db/db_engine.py:140-159 | exactly the five keys uid, status, filename, finish time and explanation, in that order, with the given values; the finish time is its text, or "None" when missing |
| DbEngine.UploadsNotOwnedBy | db/db_engine.py:45 | the remaining uploads are exactly those not owned by the user |
| DbEngine.UsersExcept | db/db_engine.py:45 | the remaining users are exactly those with another id |
| DbEngine.DeleteUser | db/db_engine.py:45 | deleting a user deletes exactly that user and their uploads, and leaves the counters unchanged |
| DbEngine.DeleteUserKeepsOwners | db/db_engine.py:45 | after the cascade every remaining owned upload's owner still exists |

## Left out

- Loading `.pptx` files and the `FileNotFoundError` re-wrapping (presentation_parser.py:17-19) are left out: the presentation is given as nested sequences, and loading as a `Loader` function.
- The remote service's prompts, model name, token limit and temperature are fixed strings and are left out. Only the varying texts are kept in a request.
- GptSlideExplainer.AskSwallowingAuth, GptSlideExplainer.GenerateTopic and GptSlideExplainer.GenerateSlide model the awaitable call, where an answer is returned. As written, awaiting the synchronous `create` raises `TypeError` on every answer. That behaviour is modelled by the `AsWritten` members and listed under "## Findings".
- asyncio's event-loop policy, `create_task`, `shield` and real concurrency are left out.
- GptSlideExplainer.Gather: when several tasks fail, asyncio reports the one that fails first in time. The model only promises the error is some failing task's, and its definition picks the first in input order.
- `process_slide_task` is never called by the pipeline. It is modelled on its own, as written and as documented.
- `maxRetry` is accepted and not used, as in the source.
- Flask routing, request parsing, `jsonify`, and `file.save` are not modelled. Nor are `os.listdir`, `os.path.isfile`, `open`, and JSON reading and writing. A directory listing is a sequence of names, and "output found" is a predicate.
- JSON serialisation is not modelled, for example integer keys becoming strings.
- The hard-coded Windows path in `get_output_file` (web_api.py:170), `parse_output_file`, and merging its data into the status reply are left out. This is file I/O on a machine-specific path.
- SQLAlchemy engines, sessions, commits and queries are left out. The database is an immutable registry value, and a commit is a new value.
- `String(36)`/`String(128)` column lengths are not enforced.
- DbEngine.SaveUpload, DbEngine.SaveUploadWithEmail and Explainer.Cycle: the model assumes a store that accepts the timestamp strings. In the source the `DateTime` columns (db/db_engine.py:65-66) receive `strftime` strings (db/db_engine.py:104 and 131, explainer.py:34). SQLAlchemy's SQLite `DateTime` type rejects a string when the session flushes, with a `StatementError`. So `save_upload`'s commit raises. `save_upload_with_email` raises at the upload's commit, after the new user was already committed. The poller's commit at explainer.py:38 raises an exception that is not `KeyError`, which ends the pass. This is not executed, and the model does not show it.
- DbEngine.DeleteUser and DbEngine.Registry: ids are modelled as counters that never go back. SQLite gives an `INTEGER` primary key declared without its `AUTOINCREMENT` keyword (db/db_engine.py:43, :62) the value max(rowid)+1, so deleting the newest user or upload lets its id be used again. No proved property depends on ids never being reused.
- The clock (`datetime.now`, `time.time`) and `uuid4` randomness are parameters. A uid is assumed fresh except where the unique constraint is modelled.
- `secure_filename`-style cleaning does not exist in the source. Lemmas that need a name without `/` say so in their requires.
- The `while True` loop, `time.sleep`, and the `print` calls of `process_files` are left out. One pass is modelled.
- Explainer.Cycle: the finish time is one `now` for the whole pass. The source reads the clock once per upload.
- Explainer.Cycle: a failure while writing the explanation file, and the commented-out status-file loop inside `process_files`, are not modelled.
- DbEngine.FinishTimeText and DbEngine.SaveToJson: the finish time is given as its text. `str()` of a `datetime` is not modelled.
- PyInt.ParseInt: `int()` is modelled for ASCII digits with an optional sign and surrounding whitespace. `_` digit separators and non-ASCII digits are not accepted.
- main.py (command-line driver) and web_app_client.py (HTTP client) are outside the core and left out. So are the three integration scripts, which need live servers.

## Findings

| source | as written | input that shows it | evidently intended | confidence | as-written member | corrected member |
|---|---|---|---|---|---|---|
| gpt_slide_explainer.py:131-135 | `except openai.error as e` names a module, not an exception class, so a raised service error makes Python raise `TypeError` while matching the clause | slide 2 with the service answering `OtherErr("rate limit")` (`ProcessSlideTaskDiffers`) | return "ERROR - explanation generation for slide 2 failed: rate limit" | not executed | GptSlideExplainer.ProcessSlideTaskAsWritten | GptSlideExplainer.ProcessSlideTask |
| slide_expander.py:36-41 | the same `except openai.error` clause: the first failing slide raises `TypeError` out of the loop, so later slides are never asked about | three slides whose second call fails (`SecondSlideFails`): the loop stops after slide 1 | store the failure note for slide 2 and still explain slide 3 | not executed | SlideExpander.GenerateForPresentationAsWritten | SlideExpander.GenerateForPresentation |
| gpt_slide_explainer.py:71-112 | `await openai.ChatCompletion.create(...)`: in the pre-1.0 library `create` is synchronous and returns a response object, which cannot be awaited, so every answered request raises `TypeError` after it was issued; `except AuthenticationError` does not catch it | any non-empty text whose topic request the service answers (`Explainer.AnsweredTopicRaises`); more generally any answered request (`Explainer.AnsweredRequestRaises`) | await the awaitable `openai.ChatCompletion.acreate(...)` and return the answer | not executed | GptSlideExplainer.AskAwaitingSync | GptSlideExplainer.AskSwallowingAuth |
| web_api.py:33 | the stored name's timestamp is `strftime('%Y-%m-%d-%H-%M-%S')`, which contains `-`, and web_api.py:152 applies `int()` to it | any upload, for example at 2024-01-02 03:04:05, stored as `deck_2024-01-02-03-04-05_<uid>` | the integer seconds of the commented-out `int(time.time())`, which reads back | not executed | WebApi.UploadDetailsAsWritten | WebApi.UploadDetailsRoundTrip |
