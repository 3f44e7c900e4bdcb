/**
  `process_frame` of main.py: consume the pending OCR batch, if any, keep the
  detections whose confidence is above the threshold, draw each of them on a
  copy of the frame, and join their spelling-corrected texts with spaces.

  Drawing stands for the two OpenCV calls, each of which may raise; the
  source catches that inside the loop, so a failed drawing loses neither the
  detection's text nor the rest of the batch.
 */
module Annotator {
  import opened Wrappers
  import opened Spelling
  import opened Channel

  /** A video frame: rows of pixel values. Frames are values here, so the
      frame a caller passes in cannot be changed by drawing on its copy. */
  type Image = seq<seq<int>>

  /** A box corner as the OCR engine reports it; the drawing calls may
      reject corners they cannot use. */
  datatype Point = Point(x: real, y: real)

  /** One OCR result: the corners of its box, its text and its confidence. */
  datatype Detection = Detection(box: seq<Point>, text: string, confidence: real)

  /** The detections of one frame, in the engine's order. */
  type Batch = seq<Detection>

  /** `cv2.rectangle` and `cv2.putText`; `None` means the call raised. */
  datatype Painter = Painter(
    rectangle: (Image, Point, Point) -> Option<Image>,
    putText: (Image, string, Point) -> Option<Image>)

  /** `confidence > conf_thresh / 100.0`, exactly. At the slider's top no
      confidence of at most 1 passes; at its bottom every positive one does. */
  predicate Passes(d: Detection, confThresh: int): (b: bool)
    ensures confThresh >= 100 && d.confidence <= 1.0 ==> !b
    ensures confThresh <= 0 && d.confidence > 0.0 ==> b
  {
    d.confidence > confThresh as real / 100.0
  }

  /** The detections that pass the threshold, in batch order. */
  function Passing(batch: Batch, confThresh: int): (r: Batch)
    ensures |r| <= |batch|
    ensures forall d :: d in r <==> d in batch && Passes(d, confThresh)
  {
    if batch == [] then []
    else (if Passes(batch[0], confThresh) then [batch[0]] else []) + Passing(batch[1..], confThresh)
  }

  /** The list `detected_texts` that `process_frame` builds. */
  function Labels(batch: Batch, confThresh: int, correct: string -> Option<string>): (r: seq<string>)
    ensures |r| == |Passing(batch, confThresh)|
    ensures forall k :: 0 <= k < |r| ==> r[k] == CorrectedText(Passing(batch, confThresh)[k].text, correct)
  {
    if batch == [] then []
    else (if Passes(batch[0], confThresh) then [CorrectedText(batch[0].text, correct)] else [])
         + Labels(batch[1..], confThresh, correct)
  }

  /** The text `process_frame` returns for a pending batch: empty when no
      detection passes, and never empty once two or more pass, whatever
      their corrections are (the separating space is always there). */
  function DetectedText(batch: Batch, confThresh: int, correct: string -> Option<string>): (r: string)
    ensures Passing(batch, confThresh) == [] ==> r == ""
    ensures |Passing(batch, confThresh)| >= 2 ==> r != ""
  {
    Join(Labels(batch, confThresh, correct))
  }

  /** The `try` block of one passing detection: a box with fewer than three
      corners raises while its corners are read, before anything is drawn;
      a rectangle that raises leaves the image as it was; a label that
      raises leaves the rectangle drawn. */
  function Draw(img: Image, d: Detection, correct: string -> Option<string>, painter: Painter): (r: Image)
    ensures |d.box| < 3 ==> r == img
    ensures r != img ==> |d.box| >= 3 && painter.rectangle(img, d.box[0], d.box[2]).Some?
    ensures |d.box| >= 3 && painter.rectangle(img, d.box[0], d.box[2]).Some? &&
            painter.putText(painter.rectangle(img, d.box[0], d.box[2]).value,
                            CorrectedText(d.text, correct), d.box[0]) == None
            ==> r == painter.rectangle(img, d.box[0], d.box[2]).value
  {
    if |d.box| < 3 then img
    else
      match painter.rectangle(img, d.box[0], d.box[2])
      case None => img
      case Some(boxed) =>
        match painter.putText(boxed, CorrectedText(d.text, correct), d.box[0])
        case None => boxed
        case Some(labelled) => labelled
  }

  /** The copy of the frame after the loop has drawn every passing detection. */
  function Annotate(img: Image, batch: Batch, confThresh: int, correct: string -> Option<string>, painter: Painter): Image {
    if batch == [] then img
    else
      var last := batch[|batch| - 1];
      var before := Annotate(img, batch[..|batch| - 1], confThresh, correct, painter);
      if Passes(last, confThresh) then Draw(before, last, correct, painter) else before
  }

  /** `process_frame(frame, text_queue, conf_thresh)` (main.py:36-52). With
      nothing pending it returns `(None, "")` and leaves the queue alone;
      otherwise it empties the queue and returns the annotated copy and the
      joined corrected texts, which do not depend on the painter at all. */
  method ProcessFrame(frame: Image, textQueue: Slot<Batch>, confThresh: int,
                      correct: string -> Option<string>, painter: Painter)
      returns (annotated: Option<Image>, text: string)
    modifies textQueue
    ensures textQueue.item == None
    ensures old(textQueue.item) == None ==> annotated == None && text == ""
    ensures old(textQueue.item).Some? ==>
      var batch := old(textQueue.item).value;
      annotated == Some(Annotate(frame, batch, confThresh, correct, painter)) &&
      text == DetectedText(batch, confThresh, correct)
  {
    var pending := textQueue.TryGet();
    if pending.None? {
      return None, "";
    }
    var detections := pending.value;
    var canvas := frame;
    var detectedTexts: seq<string> := [];
    for i := 0 to |detections|
      invariant canvas == Annotate(frame, detections[..i], confThresh, correct, painter)
      invariant detectedTexts == Labels(detections[..i], confThresh, correct)
      invariant textQueue.item == None
    {
      var d := detections[i];
      assert detections[..i + 1] == detections[..i] + [d];
      StepOne(frame, detections[..i], d, confThresh, correct, painter);
      ghost var passes := Passes(d, confThresh);
      if d.confidence > confThresh as real / 100.0 {
        assert passes;
        canvas := Draw(canvas, d, correct, painter);
        var corrected := CorrectSpelling(d.text, correct);
        detectedTexts := detectedTexts + [corrected];
      }
    }
    assert detections[..|detections|] == detections;
    annotated := Some(canvas);
    text := Join(detectedTexts);
  }

  /** One turn of the loop of `process_frame`, on the specification side. */
  lemma StepOne(img: Image, done: Batch, d: Detection, confThresh: int,
                correct: string -> Option<string>, painter: Painter)
    ensures Annotate(img, done + [d], confThresh, correct, painter) ==
      var before := Annotate(img, done, confThresh, correct, painter);
      if Passes(d, confThresh) then Draw(before, d, correct, painter) else before
    ensures Labels(done + [d], confThresh, correct) ==
      Labels(done, confThresh, correct) + (if Passes(d, confThresh) then [CorrectedText(d.text, correct)] else [])
  {
    assert (done + [d])[..|done|] == done;
    LabelsOne(d, confThresh, correct);
    LabelsAppend(done, [d], confThresh, correct);
  }

  lemma LabelsOne(d: Detection, confThresh: int, correct: string -> Option<string>)
    ensures Labels([d], confThresh, correct) == if Passes(d, confThresh) then [CorrectedText(d.text, correct)] else []
  {
  }

  // ---------------------------------------------------------------------
  // Properties of the filter, the labels and the drawing

  /** Filtering distributes over concatenation: order is kept. */
  lemma {:induction false} PassingAppend(a: Batch, b: Batch, confThresh: int)
    ensures Passing(a + b, confThresh) == Passing(a, confThresh) + Passing(b, confThresh)
  {
    if a == [] {
      assert a + b == b;
    } else {
      assert (a + b)[1..] == a[1..] + b;
      PassingAppend(a[1..], b, confThresh);
    }
  }

  /** The texts of a concatenation are the concatenated texts. */
  lemma {:induction false} LabelsAppend(a: Batch, b: Batch, confThresh: int, correct: string -> Option<string>)
    ensures Labels(a + b, confThresh, correct) == Labels(a, confThresh, correct) + Labels(b, confThresh, correct)
  {
    if a == [] {
      assert a + b == b;
    } else {
      assert (a + b)[1..] == a[1..] + b;
      LabelsAppend(a[1..], b, confThresh, correct);
    }
  }

  /** The threshold is strict: when no confidence is above it, even those
      equal to it, nothing is kept and the text is empty. */
  lemma {:induction false} NothingPasses(batch: Batch, confThresh: int, correct: string -> Option<string>)
    requires forall k :: 0 <= k < |batch| ==> batch[k].confidence <= confThresh as real / 100.0
    ensures Passing(batch, confThresh) == []
    ensures DetectedText(batch, confThresh, correct) == ""
  {
    if batch != [] {
      NothingPasses(batch[1..], confThresh, correct);
    }
  }

  /** With the slider at 100, no confidence of at most 1 passes. */
  lemma FullThreshold(batch: Batch, correct: string -> Option<string>)
    requires forall k :: 0 <= k < |batch| ==> batch[k].confidence <= 1.0
    ensures DetectedText(batch, 100, correct) == ""
  {
    NothingPasses(batch, 100, correct);
  }

  /** A higher threshold keeps a sub-list of what a lower one keeps:
      filtering at the higher one after the lower one changes nothing. */
  lemma {:induction false} ThresholdMonotone(batch: Batch, low: int, high: int)
    requires low <= high
    ensures Passing(Passing(batch, low), high) == Passing(batch, high)
    ensures |Passing(batch, high)| <= |Passing(batch, low)|
  {
    if batch != [] {
      var d := batch[0];
      ThresholdMonotone(batch[1..], low, high);
      PassingAppend(if Passes(d, low) then [d] else [], Passing(batch[1..], low), high);
      if Passes(d, low) {
        assert [d][1..] == [];
      }
    }
  }

  /** Only passing detections are drawn: annotating the whole batch is
      annotating its passing part. */
  lemma {:induction false} AnnotateOnlyPassing(img: Image, batch: Batch, confThresh: int,
                                                correct: string -> Option<string>, painter: Painter)
    ensures Annotate(img, batch, confThresh, correct, painter) ==
            Annotate(img, Passing(batch, confThresh), confThresh, correct, painter)
  {
    if batch != [] {
      var init := batch[..|batch| - 1];
      var last := batch[|batch| - 1];
      assert batch == init + [last];
      AnnotateOnlyPassing(img, init, confThresh, correct, painter);
      PassingAppend(init, [last], confThresh);
      assert [last][1..] == [];
      var p := Passing(init, confThresh);
      if Passes(last, confThresh) {
        assert Passing(batch, confThresh) == p + [last];
        assert (p + [last])[..|p|] == p;
      } else {
        assert Passing(batch, confThresh) == p;
      }
    }
  }

  /** The copy is the frame itself when nothing passes, or when no box has
      the three corners the drawing needs. */
  lemma {:induction false} AnnotateKeepsFrame(img: Image, batch: Batch, confThresh: int,
                                               correct: string -> Option<string>, painter: Painter)
    ensures (forall k :: 0 <= k < |batch| ==> !Passes(batch[k], confThresh)) ==>
            Annotate(img, batch, confThresh, correct, painter) == img
    ensures (forall k :: 0 <= k < |batch| ==> |batch[k].box| < 3) ==>
            Annotate(img, batch, confThresh, correct, painter) == img
  {
    if batch != [] {
      AnnotateKeepsFrame(img, batch[..|batch| - 1], confThresh, correct, painter);
    }
  }

  /** When every rectangle raises, the copy stays equal to the frame. */
  lemma {:induction false} FailedDrawingKeepsFrame(img: Image, batch: Batch, confThresh: int,
                                                    correct: string -> Option<string>, painter: Painter)
    requires forall i, p, q :: painter.rectangle(i, p, q) == None
    ensures Annotate(img, batch, confThresh, correct, painter) == img
  {
    if batch != [] {
      FailedDrawingKeepsFrame(img, batch[..|batch| - 1], confThresh, correct, painter);
    }
  }

  /** The joined text splits back into the kept texts when each of them is
      a single non-empty word. */
  lemma DetectedTextSplitsBack(batch: Batch, confThresh: int, correct: string -> Option<string>)
    requires AllWords(Labels(batch, confThresh, correct))
    ensures Words(DetectedText(batch, confThresh, correct)) == Labels(batch, confThresh, correct)
  {
    WordsOfJoin(Labels(batch, confThresh, correct));
  }

  /** Two passing detections whose corrections both come out empty still
      give a non-empty text, a single space. */
  lemma BlankCorrectionsGiveSpace(d1: Detection, d2: Detection, confThresh: int, correct: string -> Option<string>)
    requires Passes(d1, confThresh) && Passes(d2, confThresh)
    requires CorrectedText(d1.text, correct) == "" && CorrectedText(d2.text, correct) == ""
    ensures DetectedText([d1, d2], confThresh, correct) == " "
  {
    LabelsAppend([d1], [d2], confThresh, correct);
    assert [d1] + [d2] == [d1, d2];
    assert [d1][1..] == [] && [d2][1..] == [];
    assert Join(["", ""]) == "" + " " + Join([""]);
  }
}
