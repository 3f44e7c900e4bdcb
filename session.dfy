/**
  One run of the `main` script of main.py: the session state kept across
  Streamlit reruns, the Freeze/Resume toggle, and the capture loop that
  shows frames, records detected texts and offers frames to the OCR worker.

  The camera is a sequence of reads (`None` for a failed `cap.read()`); the
  resize, the drawing calls, the spelling corrector and the remote
  reconciliation are parameters.
 */
module Session {
  import opened Wrappers
  import opened Spelling
  import opened Channel
  import opened Annotator

  /** The size every captured frame is resized to before use. */
  const DisplayWidth: nat := 840
  const DisplayHeight: nat := 480

  /** The texts that are recorded, in order: the non-empty ones. */
  function History(texts: seq<string>): (r: seq<string>)
    ensures |r| <= |texts|
    ensures forall k :: 0 <= k < |r| ==> r[k] != ""
  {
    if texts == [] then []
    else (if texts[0] != "" then [texts[0]] else []) + History(texts[1..])
  }

  /** Recording distributes over concatenation: earlier entries stay first. */
  lemma {:induction false} HistoryAppend(a: seq<string>, b: seq<string>)
    ensures History(a + b) == History(a) + History(b)
  {
    if a == [] {
      assert a + b == b;
    } else {
      assert (a + b)[1..] == a[1..] + b;
      HistoryAppend(a[1..], b);
    }
  }

  /** Nothing is ever evicted: every non-empty text is kept, however many. */
  lemma {:induction false} HistoryKeepsAll(texts: seq<string>)
    requires forall k :: 0 <= k < |texts| ==> texts[k] != ""
    ensures History(texts) == texts
  {
    if texts != [] {
      HistoryKeepsAll(texts[1..]);
      assert [texts[0]] + texts[1..] == texts;
    }
  }

  /** An empty text, such as the `""` of a frame with no pending batch,
      leaves the history as it is. */
  lemma {:induction false} HistorySkipsEmpty(texts: seq<string>)
    requires forall k :: 0 <= k < |texts| ==> texts[k] == ""
    ensures History(texts) == []
  {
    if texts != [] {
      HistorySkipsEmpty(texts[1..]);
    }
  }

  /** What the loop shows and records for a frame, given what the result
      queue held: the annotated copy and the joined texts of a pending
      batch, or the frame itself and `""` when nothing was pending. Only a
      pending batch with a passing detection adds a text. */
  function Outcome(frame: Image, pending: Option<Batch>, confThresh: int,
                   correct: string -> Option<string>, painter: Painter): (r: (Image, string))
    ensures r.1 != "" ==> pending.Some? && Passing(pending.value, confThresh) != []
  {
    match pending
    case None => (frame, "")
    case Some(batch) => (Annotate(frame, batch, confThresh, correct, painter), DetectedText(batch, confThresh, correct))
  }

  /** What the OCR worker does between one frame's offer (main.py:84) and
      the next frame's check (main.py:38): whether it takes the frame that
      is queued for it, and the batch, if any, that it delivers into the
      result queue. */
  datatype WorkerTurn = WorkerTurn(takes: bool, delivers: Option<Batch>)

  /** The batch frame `i` of the loop finds in the result queue: what the
      queue held on entry for the first frame, and the worker's delivery
      after the previous frame for every later one. */
  function PendingAt(first: Option<Batch>, worker: seq<WorkerTurn>, i: nat): Option<Batch>
    requires i <= |worker|
  {
    if i == 0 then first else worker[i - 1].delivers
  }

  /** The frame queue after `n` turns: a successfully read frame is put
      only into an empty queue, and a take by the worker empties it. */
  function QueuedAfter(entry: Option<Image>, captured: seq<Option<Image>>, worker: seq<WorkerTurn>,
                       resize: (Image, nat, nat) -> Image, n: nat): Option<Image>
    requires n <= |captured| <= |worker|
  {
    if n == 0 then entry
    else
      var before := QueuedAfter(entry, captured, worker, resize, n - 1);
      if worker[n - 1].takes then None
      else if before.Some? || captured[n - 1].None? then before
      else Some(resize(captured[n - 1].value, DisplayWidth, DisplayHeight))
  }

  /** The frame queue only ever holds the entry item or a frame that was
      read, resized to the display size. */
  lemma {:induction false} QueuedIsRead(entry: Option<Image>, captured: seq<Option<Image>>,
                                        worker: seq<WorkerTurn>, resize: (Image, nat, nat) -> Image, n: nat)
    requires n <= |captured| <= |worker|
    ensures var q := QueuedAfter(entry, captured, worker, resize, n);
      q == None || q == entry ||
      exists i :: 0 <= i < n && captured[i].Some? && q == Some(resize(captured[i].value, DisplayWidth, DisplayHeight))
  {
    if n > 0 {
      QueuedIsRead(entry, captured, worker, resize, n - 1);
      var q := QueuedAfter(entry, captured, worker, resize, n);
      var before := QueuedAfter(entry, captured, worker, resize, n - 1);
      if !worker[n - 1].takes && before == None && captured[n - 1].Some? {
        assert q == Some(resize(captured[n - 1].value, DisplayWidth, DisplayHeight));
      }
    }
  }

  /** A queued frame is never replaced: until the worker takes it, every
      later put leaves it where it is. */
  lemma {:induction false} QueuedUntilTaken(entry: Option<Image>, captured: seq<Option<Image>>,
                                            worker: seq<WorkerTurn>, resize: (Image, nat, nat) -> Image, m: nat, n: nat)
    requires m <= n <= |captured| <= |worker|
    requires QueuedAfter(entry, captured, worker, resize, m).Some?
    requires forall i :: m <= i < n ==> !worker[i].takes
    ensures QueuedAfter(entry, captured, worker, resize, n) == QueuedAfter(entry, captured, worker, resize, m)
    decreases n - m
  {
    if m < n {
      QueuedUntilTaken(entry, captured, worker, resize, m, n - 1);
    }
  }

  /** The first `|shown|` reads all succeeded, and each shown frame and
      text is the `Outcome` of its read and of the batch it found. */
  ghost predicate ShownSoFar(shown: seq<Image>, texts: seq<string>, captured: seq<Option<Image>>,
                             first: Option<Batch>, worker: seq<WorkerTurn>, confThresh: int,
                             correct: string -> Option<string>, painter: Painter,
                             resize: (Image, nat, nat) -> Image)
  {
    |shown| == |texts| <= |captured| == |worker| &&
    forall i :: 0 <= i < |shown| ==>
      captured[i].Some? &&
      (shown[i], texts[i]) == Outcome(resize(captured[i].value, DisplayWidth, DisplayHeight),
                                      PendingAt(first, worker, i), confThresh, correct, painter)
  }

  /** One more successfully read frame extends what was shown. */
  lemma ShownExtend(shown: seq<Image>, texts: seq<string>, captured: seq<Option<Image>>,
                    first: Option<Batch>, worker: seq<WorkerTurn>, confThresh: int,
                    correct: string -> Option<string>, painter: Painter,
                    resize: (Image, nat, nat) -> Image, show: Image, detected: string)
    requires ShownSoFar(shown, texts, captured, first, worker, confThresh, correct, painter, resize)
    requires |shown| < |captured| && captured[|shown|].Some?
    requires (show, detected) == Outcome(resize(captured[|shown|].value, DisplayWidth, DisplayHeight),
                                         PendingAt(first, worker, |shown|), confThresh, correct, painter)
    ensures ShownSoFar(shown + [show], texts + [detected], captured, first, worker, confThresh,
                       correct, painter, resize)
  {
  }

  /** `initialize_system()` (main.py:15-24): four fresh single-slot queues.
      Starting the OCR thread on the first two is not part of this model. */
  method InitializeSystem() returns (frameQueue: Slot<Image>, textQueue: Slot<Batch>,
                                      promptQueue: Slot<string>, ppxQueue: Slot<string>)
    ensures fresh(frameQueue) && fresh(textQueue) && fresh(promptQueue) && fresh(ppxQueue)
    ensures frameQueue.item == None && textQueue.item == None
    ensures promptQueue.item == None && ppxQueue.item == None
  {
    frameQueue := new Slot();
    textQueue := new Slot();
    promptQueue := new Slot();
    ppxQueue := new Slot();
  }

  /** `st.session_state`: `camera_frozen`, `latest` and `likely_text`. */
  class SessionState {
    var cameraFrozen: bool
    var latest: seq<string>
    var likelyText: string

    /** The first run of a session (main.py:56-57). */
    constructor ()
      ensures !cameraFrozen && latest == [] && likelyText == ""
    {
      cameraFrozen := false;
      latest := [];
      likelyText := "";
    }

    /** The Freeze/Resume button (main.py:66-69): flips `camera_frozen`, and
        only on the way into the frozen state asks the reconciler about the
        current history; resuming keeps the old `likely_text`. The
        reconciler answers `None` when the remote call raises; the flip has
        already happened then, `likely_text` is not assigned, and `raised`
        reports the exception that ends the run. */
    method ToggleFreeze(reconcile: seq<string> -> Option<string>) returns (raised: bool)
      modifies this`cameraFrozen, this`likelyText
      ensures cameraFrozen == !old(cameraFrozen)
      ensures raised == (cameraFrozen && reconcile(latest).None?)
      ensures likelyText == if cameraFrozen && !raised then reconcile(latest).value else old(likelyText)
    {
      cameraFrozen := !cameraFrozen;
      raised := false;
      if cameraFrozen {
        var answer := reconcile(latest);
        if answer.None? {
          raised := true;
        } else {
          likelyText := answer.value;
        }
      }
    }

    /** `if detected_text: latest.append(detected_text)` (main.py:78-79). */
    method Record(detected: string)
      modifies this`latest
      ensures latest == old(latest) + History([detected])
      ensures latest == if detected != "" then old(latest) + [detected] else old(latest)
    {
      assert [detected][1..] == [];
      if detected != "" {
        latest := latest + [detected];
      }
    }

    /** The body of the capture loop for one successfully read frame
        (main.py:75-84): resize, `process_frame`, record a non-empty text,
        show the annotated copy or else the frame, and put the frame into
        the frame queue only if that is empty. */
    method Step(raw: Image, confThresh: int, frameQueue: Slot<Image>, textQueue: Slot<Batch>,
                correct: string -> Option<string>, painter: Painter,
                resize: (Image, nat, nat) -> Image)
        returns (shown: Image, detected: string)
      modifies this`latest, frameQueue, textQueue
      ensures (shown, detected) == Outcome(resize(raw, DisplayWidth, DisplayHeight), old(textQueue.item),
                                           confThresh, correct, painter)
      ensures latest == old(latest) + History([detected])
      ensures textQueue.item == None
      ensures frameQueue.item ==
        if old(frameQueue.item).Some? then old(frameQueue.item) else Some(resize(raw, DisplayWidth, DisplayHeight))
    {
      var frame := resize(raw, DisplayWidth, DisplayHeight);
      var processed, text := ProcessFrame(frame, textQueue, confThresh, correct, painter);
      detected := text;
      Record(detected);
      shown := if processed.Some? then processed.value else frame;
      var _ := frameQueue.TryPut(frame);
    }

    /** One turn of the capture loop as the two threads see it: `Step` for
        the frame, then the worker's turn: it may take the queued frame, and
        it may deliver a batch into the result queue that `process_frame`
        has just emptied. */
    method Turn(raw: Image, turn: WorkerTurn, confThresh: int,
                frameQueue: Slot<Image>, textQueue: Slot<Batch>,
                correct: string -> Option<string>, painter: Painter,
                resize: (Image, nat, nat) -> Image)
        returns (shown: Image, detected: string)
      modifies this`latest, frameQueue, textQueue
      ensures (shown, detected) == Outcome(resize(raw, DisplayWidth, DisplayHeight), old(textQueue.item),
                                           confThresh, correct, painter)
      ensures latest == old(latest) + History([detected])
      ensures textQueue.item == turn.delivers
      ensures frameQueue.item ==
        if turn.takes then None
        else if old(frameQueue.item).Some? then old(frameQueue.item)
        else Some(resize(raw, DisplayWidth, DisplayHeight))
    {
      shown, detected := Step(raw, confThresh, frameQueue, textQueue, correct, painter, resize);
      if turn.takes {
        var _ := frameQueue.TryGet();
      }
      if turn.delivers.Some? {
        var _ := textQueue.TryPut(turn.delivers.value);
      }
    }

    /** The capture loop (main.py:71-84). It runs only while `run` is set
        and the camera is not frozen, and stops at the first failed read
        (or when the given reads run out).

        `worker[i]` is what the OCR worker does after frame `i` is read:
        whether it takes the queued frame, and what it delivers before the
        next frame's check. `process_frame` empties the result queue on
        every frame, so frame `i + 1` sees exactly `worker[i].delivers`, and
        the first frame sees what the queue held on entry. */
    method Capture(run: bool, confThresh: int, captured: seq<Option<Image>>,
                   worker: seq<WorkerTurn>,
                   frameQueue: Slot<Image>, textQueue: Slot<Batch>,
                   correct: string -> Option<string>, painter: Painter,
                   resize: (Image, nat, nat) -> Image)
        returns (frames: nat, shown: seq<Image>, texts: seq<string>)
      requires |worker| == |captured|
      modifies this`latest, frameQueue, textQueue
      ensures frames <= |captured| && |shown| == frames && |texts| == frames
      ensures !run || cameraFrozen ==> frames == 0
      ensures forall i :: 0 <= i < frames ==> captured[i].Some?
      ensures run && !cameraFrozen && frames < |captured| ==> captured[frames].None?
      ensures latest == old(latest) + History(texts)
      ensures textQueue.item == PendingAt(old(textQueue.item), worker, frames)
      ensures frameQueue.item == QueuedAfter(old(frameQueue.item), captured, worker, resize, frames)
      ensures forall i :: 0 <= i < frames ==>
        (shown[i], texts[i]) == Outcome(resize(captured[i].value, DisplayWidth, DisplayHeight),
                                        PendingAt(old(textQueue.item), worker, i),
                                        confThresh, correct, painter)
    {
      frames, shown, texts := 0, [], [];
      ghost var first, entry, before := textQueue.item, frameQueue.item, latest;
      while run && !cameraFrozen && frames < |captured|
        invariant frames <= |captured| && |shown| == frames
        invariant !run || cameraFrozen ==> frames == 0
        invariant ShownSoFar(shown, texts, captured, first, worker, confThresh, correct, painter, resize)
        invariant latest == before + History(texts)
        invariant textQueue.item == PendingAt(first, worker, frames)
        invariant frameQueue.item == QueuedAfter(entry, captured, worker, resize, frames)
        decreases |captured| - frames
      {
        var read := captured[frames];
        if read.None? {
          break;
        }
        var show, detected := Turn(read.value, worker[frames], confThresh, frameQueue, textQueue,
                                   correct, painter, resize);
        ShownExtend(shown, texts, captured, first, worker, confThresh, correct, painter, resize, show, detected);
        HistoryAppend(texts, [detected]);
        shown := shown + [show];
        texts := texts + [detected];
        frames := frames + 1;
      }
    }

    /** One run of the script body once the session exists (main.py:59-90).
        `initialize_system()` makes fresh, empty queues on every run (line
        59), so the first frame of a run never finds a batch: the new worker
        has no frame before the first offer at line 84. The button press is
        handled first; if the remote call behind it raises, the run ends
        there, frozen, before the loop and before anything is written. Then
        the capture loop runs, and the reconciled text is written out only
        when frozen and non-empty. `offered` is the frame left in the frame
        queue for the worker. */
    method Rerun(pressed: bool, run: bool, confThresh: int, captured: seq<Option<Image>>,
                 worker: seq<WorkerTurn>,
                 correct: string -> Option<string>, painter: Painter,
                 resize: (Image, nat, nat) -> Image, reconcile: seq<string> -> Option<string>)
        returns (frames: nat, shown: seq<Image>, texts: seq<string>, offered: Option<Image>,
                 message: Option<string>, aborted: bool)
      requires |worker| == |captured|
      modifies this
      ensures cameraFrozen == (old(cameraFrozen) != pressed)
      ensures aborted == (pressed && cameraFrozen && reconcile(old(latest)).None?)
      ensures likelyText ==
        if pressed && cameraFrozen && !aborted then reconcile(old(latest)).value else old(likelyText)
      ensures frames <= |captured| && |shown| == frames && |texts| == frames
      ensures !run || cameraFrozen ==> frames == 0 && latest == old(latest)
      ensures forall i :: 0 <= i < frames ==> captured[i].Some?
      ensures !aborted && run && !cameraFrozen && frames < |captured| ==> captured[frames].None?
      ensures latest == old(latest) + History(texts)
      ensures offered == QueuedAfter(None, captured, worker, resize, frames)
      ensures forall i :: 0 <= i < frames ==>
        (shown[i], texts[i]) == Outcome(resize(captured[i].value, DisplayWidth, DisplayHeight),
                                        PendingAt(None, worker, i),
                                        confThresh, correct, painter)
      ensures message == if !aborted && cameraFrozen && likelyText != "" then Some(likelyText) else None
    {
      var frameQueue, textQueue, promptQueue, ppxQueue := InitializeSystem();
      aborted := false;
      if pressed {
        aborted := ToggleFreeze(reconcile);
      }
      if aborted {
        return 0, [], [], None, None, true;
      }
      frames, shown, texts := Capture(run, confThresh, captured, worker, frameQueue, textQueue, correct, painter, resize);
      offered := frameQueue.item;
      message := if cameraFrozen && likelyText != "" then Some(likelyText) else None;
    }
  }
}
