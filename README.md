# st-ocr pipeline model

A Dafny model of the per-frame pipeline in the st-ocr live text-recognition
assistant, with proofs about it. The application shows webcam frames in a
Streamlit page. It hands frames to a background OCR thread through a
one-slot queue and takes detection batches back through another. It draws
the detections above a confidence threshold on a copy of the frame. It
spelling-corrects and space-joins their texts, keeps every non-empty text
in the session list `latest`, and on Freeze asks a remote chat model for
the most likely reading of that list.

Modules, one per part of the source:

- `Wrappers` (wrappers.dfy): `Option`, for Python's `None`.
- `Spelling` (spelling.dfy): `correct_spelling` from scripts/spelling.py, its
  whitespace split and join, and a character-level reference for
  `' '.join(s.split())`.
- `Channel` (channel.dfy): the `queue.Queue(maxsize=1)` discipline of
  main.py, as a class `Slot` with put-if-empty and get-if-present.
- `Annotator` (annotator.dfy): `process_frame`, the threshold filter, the
  corrected texts, and the drawing with its `try`/`except`.
- `Session` (session.dfy): `initialize_system`, the session state
  (`camera_frozen`, `latest`, `likely_text`), the Freeze/Resume toggle, the
  capture loop and one rerun of the script.

These are parameters, because they are foreign calls or I/O:

- the spelling corrector, `string -> Option<string>`;
- `cv2.rectangle` and `cv2.putText`, each returning `None` when it raises;
- `cv2.resize`, called with the constants 840 and 480;
- the remote reconciliation, `seq<string> -> Option<string>`, where `None` means the call raised;
- what the OCR worker does after each frame, a `WorkerTurn`: whether it takes the queued frame, and the batch it delivers, if any;
- the camera, a finite sequence of reads where `None` is a failed read.

A queue with `maxsize=1` is a `Slot` whose one field is an `Option`, so
it can never hold more than one item.

Confidences are exact `real`s and the threshold is an `int`. The
comparison `confidence > conf_thresh / 100.0` is therefore exact. Frames
are values (`seq<seq<int>>`), so drawing on the copy cannot change the
frame that is displayed or queued.

Behaviours of the code that the model keeps as they are:

- The history `latest` is never bounded or evicted (main.py:78-79).
- Resuming keeps the old `likely_text` (main.py:66-69).
- Box corners are passed to the drawing calls unchanged, with no
  truncation to integers (main.py:47-48).
- main.py imports `correct_spelling` from `src.spelling`. The modelled body
  is scripts/spelling.py.

A property proved about the code as written (`BlankCorrectionsGiveSpace`):
two passing detections whose corrections are both empty give the text
`" "`. That text is non-empty, so `latest` records it.

## Model

| member | source | states |
|---|---|---|
| `Spelling.IsSpace` | scripts/spelling.py:6 | the whitespace `str.split()` splits on includes space, tab, line feed and carriage return, and no printable ASCII character |
| `Spelling.Words` | scripts/spelling.py:6 | `text.split()` yields no more words than the text has characters |
| `Spelling.Join` | scripts/spelling.py:11 | `' '.join` puts a space between neighbours, so a list of n entries gives at least n - 1 characters |
| `Spelling.WordsAreWords` | scripts/spelling.py:6 | every piece `text.split()` yields is non-empty and free of Python whitespace |
| `Spelling.WordsConcat` | scripts/spelling.py:6 | the words, concatenated, are exactly the non-whitespace characters of the text, in order |
| `Spelling.WordsEmptyIffBlank` | scripts/spelling.py:6 | a text has no words if and only if it is empty or whitespace only |
| `Spelling.WordsOfJoin` | scripts/spelling.py:11 | splitting the single-space join of a list of words gives back that list |
| `Spelling.JoinWordsIsNormalize` | scripts/spelling.py:6-11 | `' '.join(s.split())` equals an independent character-level normaliser: leading and trailing whitespace removed, inner runs collapsed to one space |
| `Spelling.Kept` | scripts/spelling.py:7-9 | the kept corrections are no more than the words, and none of them is empty: `if corrected_word:` drops `None` and `""` |
| `Spelling.KeptAppend` | scripts/spelling.py:6-9 | keeping distributes over concatenation, so corrections keep the order of their words |
| `Spelling.KeptIdentity` | scripts/spelling.py:7-9 | a corrector that returns every word unchanged keeps every word |
| `Spelling.CorrectedText` | scripts/spelling.py:3-11 | a text with no words gives `""`; a one-word text with a truthy correction gives exactly that correction |
| `Spelling.CorrectSpelling` | scripts/spelling.py:3-11 | the loop returns the single-space join of the truthy corrections of the words, in order |
| `Spelling.CorrectedBlank` | scripts/spelling.py:6-11 | empty or whitespace-only input gives `""` |
| `Spelling.CorrectedSplitsBack` | scripts/spelling.py:6-11 | if no kept correction contains whitespace, splitting the output gives exactly the kept list, with no more words than the input |
| `Spelling.CorrectedIdentity` | scripts/spelling.py:3-11 | with an identity corrector the output is the input stripped, with inner whitespace runs collapsed to single spaces |
| `Channel.Slot.constructor` | main.py:18-21 | a new `maxsize=1` queue is empty |
| `Channel.Slot.IsEmpty` | main.py:38 | `empty()` holds exactly when the queue holds no item |
| `Channel.Slot.TryPut` | main.py:83-84 | put-if-empty stores the item only into an empty queue, and otherwise leaves the pending item untouched |
| `Channel.Slot.TryGet` | main.py:38-41 | returns the pending item or `None`, and leaves the queue empty (unchanged if it was empty) |
| `Annotator.Passes` | main.py:45 | at threshold 100 or more no confidence of at most 1 passes; at 0 or less every positive confidence passes |
| `Annotator.Passing` | main.py:44-45 | a detection is kept if and only if it is in the batch and its confidence is strictly above `conf_thresh/100` |
| `Annotator.Labels` | main.py:43-51 | `detected_texts` has one entry per kept detection: the corrected text of the k-th kept detection |
| `Annotator.DetectedText` | main.py:52 | the text is `""` when no detection passes, and is never empty when two or more pass, whatever their corrections |
| `Annotator.Draw` | main.py:46-50 | a box with fewer than three corners raises before anything is drawn; any change to the copy needs a successful rectangle from corner 0 to corner 2; a `putText` that raises keeps the drawn rectangle |
| `Annotator.ProcessFrame` | main.py:36-52 | with no pending batch: `(None, "")` and the queue stays empty; otherwise the queue is emptied, the copy has every kept detection drawn, and the text is the join of the kept corrected texts, whatever the drawing calls do |
| `Annotator.PassingAppend` | main.py:44-45 | filtering distributes over concatenation, so batch order is kept |
| `Annotator.LabelsAppend` | main.py:44-51 | the texts of a concatenation of batches are the concatenated texts |
| `Annotator.NothingPasses` | main.py:45 | the comparison is strict: when no confidence is above the threshold, equal ones included, nothing is kept and the text is `""` |
| `Annotator.FullThreshold` | main.py:45 | at threshold 100 no confidence of at most 1 passes |
| `Annotator.ThresholdMonotone` | main.py:45 | a higher threshold keeps a sub-list of what a lower threshold keeps |
| `Annotator.AnnotateOnlyPassing` | main.py:44-50 | only kept detections are drawn |
| `Annotator.AnnotateKeepsFrame` | main.py:42-50 | the copy equals the frame when no detection passes, and when no box has three corners |
| `Annotator.FailedDrawingKeepsFrame` | main.py:46-50 | when every rectangle call raises, the annotated copy equals the input frame |
| `Annotator.DetectedTextSplitsBack` | main.py:52 | when each kept text is a single word, splitting the joined text gives the kept texts back |
| `Annotator.BlankCorrectionsGiveSpace` | main.py:51-52 | two kept detections whose corrections are both empty give the non-empty text `" "` |
| `Session.History` | main.py:78-79 | recording keeps only non-empty texts, at most one per frame |
| `Session.HistoryAppend` | main.py:78-79 | recording distributes over concatenation: later texts are appended after the earlier ones |
| `Session.HistoryKeepsAll` | main.py:78-79 | nothing is evicted: every non-empty text is kept, however many there are |
| `Session.HistorySkipsEmpty` | main.py:76-79 | frames with empty text add nothing to the history |
| `Session.Outcome` | main.py:76-80 | a frame adds a text only when a batch was pending and one of its detections passes |
| `Session.InitializeSystem` | main.py:15-24 | four fresh, empty single-slot queues |
| `Session.SessionState.constructor` | main.py:56-57 | a new session is not frozen, with empty `latest` and `likely_text` |
| `Session.SessionState.ToggleFreeze` | main.py:66-69 | the button flips `camera_frozen`; on the way into the frozen state `likely_text` becomes the reconciliation of `latest`, unless that call raises, which is reported and leaves the old `likely_text` with the flip already done; resuming keeps `likely_text` |
| `Session.SessionState.Record` | main.py:78-79 | a non-empty text is appended at the end of `latest`; an empty one changes nothing |
| `Session.SessionState.Step` | main.py:75-84 | one frame: shows the annotated copy or the frame, records its text, empties the result queue, and queues the resized frame only if the frame queue was empty |
| `Session.SessionState.Turn` | main.py:75-84 | one frame followed by the worker's turn: the frame's output is the `Outcome` of the batch pending before it; afterwards the result queue holds exactly what the worker delivered, and the frame queue is empty if the worker took its frame, else holds the earlier frame or, if there was none, this one |
| `Session.SessionState.Capture` | main.py:71-84 | reads only while `run` holds and the camera is not frozen, stopping at the first failed read; frame 0 sees the entry state of the result queue and frame i + 1 sees the worker's delivery after frame i; `latest` grows by exactly the non-empty texts in order; the frame queue ends as `QueuedAfter` the frames read and the worker's takes |
| `Session.QueuedIsRead` | main.py:83-84 | the frame queue only ever holds nothing, its entry item, or a frame that was read, resized to 840 by 480 |
| `Session.QueuedUntilTaken` | main.py:83-84 | a queued frame is never replaced: while the worker takes nothing, later puts leave it in place |
| `Session.SessionState.Rerun` | main.py:59-90 | one script run from fresh queues: the toggle first, and if its remote call raises the run ends there, frozen, with nothing read or written; no frame read while frozen or not running; stops at the first failed read; one shown frame and one text per frame read, each the `Outcome` of that frame; the first frame finds no batch, and frame i + 1 finds what the worker delivered after frame i; `latest` grows by exactly the non-empty texts; the frame left for the worker follows the puts and the worker's takes; the reconciled text is written only when frozen and non-empty |

## Left out

- The OCR worker thread started in `initialize_system` (`src.ocr.ocr_thread` is not part of this model), `thread_lock`, and every interleaving with it. The model is single-threaded. The worker is the `worker` parameter of `Capture` and `Rerun`: one `WorkerTurn` per frame, between that frame's put and the next frame's check. The model does not tie a delivered batch to the frame it was computed from, and it does not let the worker act between the check at main.py:38 and the `get` at main.py:41, or between the check and the put at main.py:83-84.
- `Session.SessionState.Rerun`: main.py:59 calls `initialize_system()` on every run, so each run gets new, empty queues and starts one more OCR thread. The model creates the new queues, so the first frame of a run never finds a batch. It does not start a thread. Threads left over from earlier runs, which still hold the old queues, are not modelled.
- `Session.SessionState.Capture`: it does not model an endless camera. The camera is a finite list of reads, and the loop also stops when the list runs out.
- Streamlit: the title, the image widget, the `Run` checkbox, the slider and its 0-100 range, and the button label. These are UI; `run`, the threshold and the button press are parameters. Streamlit stopping a running loop to rerun the script is not modelled.
- `print` calls (main.py:50, 77, 88, 90). `st.write` (main.py:87) is modelled as the `message` output of `Rerun`.
- `setup_video_capture`, `cap.read`, `cap.release`, `cv2.resize`, `cv2.rectangle` and `cv2.putText`. These are device and image calls. A call that raises is modelled as changing nothing; a partly drawn image is not modelled.
- `fetch_likely_text` and `chat_completion`. main.py imports `chat_completion` from `src.perplexity_api`; the body present in the repository is scripts/perplexity_api.py. The prompt text built from Python's list `repr`, the HTTP request and the `"Error"` fallback are all inside the `reconcile` parameter. An exception from `requests.post` or from indexing the response (scripts/perplexity_api.py:45, 49) is the `None` answer, and it ends the run as `Rerun` states. A response without a `content` field, which makes `likely_text` Python's `None`, is not distinguished from `""`. The `None` return for an empty prompt cannot happen, because the prompt always starts with `latest_ocr_values = `.
- `run_chatbot`. It is UI.
- `SpellChecker` internals, and building a new `SpellChecker` on every call. The corrector is a parameter.
- src/preprocessing.py. It is OpenCV and deskew image filtering on pixel arrays.
- Floating point. Confidences and `conf_thresh / 100.0` are exact reals, so rounding of the Python floats is not modelled.
- Aliasing of numpy arrays. Frames are values, so "the input frame is not modified" holds by construction and is not a separate proof.
