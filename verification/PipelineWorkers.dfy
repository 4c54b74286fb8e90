/**
 * The code of the camera callback and of the three worker threads, section by
 * section: each method is what a thread does between two points at which another
 * thread may interfere, and is one step of the pipeline. The two trim loops hold no
 * lock; they are a run of steps, here without interference.
 */
module PipelineWorkers {
  import opened Prelude
  import opened Pipeline

  const MAX_IMAGE_SIZE := 12441600

  /** What a callback sees besides the frame. */
  datatype Seen = Seen(sizeBytes: int, bytesInPipe: int, debug: bool, timing: bool,
                       imageClients: nat, detectionClients: nat)

  /** Nobody looks at the results, and no timing or debugging is asked for. */
  predicate Unwatched(seen: Seen) {
    !seen.debug && !seen.timing && seen.imageClients == 0 && seen.detectionClients == 0
  }

  /** The frames skipped so far, and whether this one goes into the ring. */
  function Decide(nSkipped: int, skipNFrames: int, seen: Seen): (int, bool) {
    if nSkipped < skipNFrames then (nSkipped + 1, false)
    else if seen.bytesInPipe > 0 then (1, false)
    else (0, !Unwatched(seen) && seen.sizeBytes <= MAX_IMAGE_SIZE)
  }

  ghost predicate IsCallbackRun(skipNFrames: int, counts: seq<int>, seen: seq<Seen>) {
    && |counts| == |seen| + 1
    && forall k :: 0 <= k < |seen| ==> counts[k + 1] == Decide(counts[k], skipNFrames, seen[k]).0
  }

  /** Call `k` puts its frame into the ring. */
  ghost predicate Pushes(skipNFrames: int, counts: seq<int>, seen: seq<Seen>, k: nat)
    requires k < |seen| < |counts|
  {
    Decide(counts[k], skipNFrames, seen[k]).1
  }

  /** After a frame that went in, at least `skipNFrames` callbacks are skipped. */
  lemma {:induction false} PushesAreApart(skipNFrames: int, counts: seq<int>, seen: seq<Seen>, i: nat, j: nat)
    requires IsCallbackRun(skipNFrames, counts, seen) && i < j < |seen|
    requires Pushes(skipNFrames, counts, seen, i) && j - i <= skipNFrames
    ensures counts[j] == j - i - 1 && !Pushes(skipNFrames, counts, seen, j)
  {
    if i + 1 < j {
      PushesAreApart(skipNFrames, counts, seen, i, j - 1);
    }
  }

  /** The pipe is empty, somebody is watching, and the frame fits its slot. */
  ghost predicate Wanted(seen: Seen) {
    && seen.bytesInPipe <= 0 && seen.sizeBytes <= 12441600
    && (seen.imageClients > 0 || seen.detectionClients > 0 || seen.debug || seen.timing)
  }

  lemma DecideOnWanted(nSkipped: int, skipNFrames: int, seen: Seen)
    requires Wanted(seen)
    ensures Decide(nSkipped, skipNFrames, seen) == if nSkipped < skipNFrames then (nSkipped + 1, false) else (0, true)
  {
  }

  lemma OneMoreSkipped(c: int, n: nat, seen: Seen, k: nat)
    requires n > 0 && Wanted(seen) && c == k % n
    ensures Decide(c, n - 1, seen).0 == (k + 1) % n
  {
    DecideOnWanted(c, n - 1, seen);
    NextRemainder(k, n);
  }

  lemma {:induction false} SkippedSoFar(n: nat, counts: seq<int>, seen: seq<Seen>, k: nat)
    requires n > 0 && IsCallbackRun(n - 1, counts, seen) && k <= |seen| && counts[0] == 0
    requires forall i :: 0 <= i < |seen| ==> Wanted(seen[i])
    ensures counts[k] == k % n
  {
    if k > 0 {
      SkippedSoFar(n, counts, seen, k - 1);
      OneMoreSkipped(counts[k - 1], n, seen[k - 1], k - 1);
    }
  }

  /**
   * With frames that are all wanted, from the start of the program, exactly every `n`-th
   * goes into the ring, `n` being one more than the number to skip.
   */
  lemma EveryNthFrameExactly(n: nat, counts: seq<int>, seen: seq<Seen>, k: nat)
    requires n > 0 && IsCallbackRun(n - 1, counts, seen) && k < |seen| && counts[0] == 0
    requires forall i :: 0 <= i < |seen| ==> Wanted(seen[i])
    ensures Pushes(n - 1, counts, seen, k) <==> (k + 1) % n == 0
  {
    SkippedSoFar(n, counts, seen, k);
    DecideOnWanted(counts[k], n - 1, seen[k]);
    NextRemainder(k, n);
  }

  lemma NextRemainder(k: nat, n: nat)
    requires n > 0
    ensures (k + 1) % n == if k % n == n - 1 then 0 else k % n + 1
  {
    var q, r := k / n, k % n;
    assert k == q * n + r && (q + 1) * n == q * n + n;
    if r == n - 1 {
      DivUnique(k + 1, n, q + 1);
    } else {
      DivUnique(k + 1, n, q);
    }
  }

  /** Both queues are trimmed from the front, one frame at a time, without a lock. */
  ghost function TrimmedPre(s: Pipe): Pipe
    decreases |s.preQ|
  {
    if |s.preQ| <= QUEUE_LIMIT then s
    else TrimmedPre(s.(preQ := s.preQ[1..], gone := s.gone[s.preQ[0] := Trimmed]))
  }

  ghost function TrimmedInf(s: Pipe): Pipe
    decreases |s.infQ|
  {
    if |s.infQ| <= QUEUE_LIMIT then s
    else TrimmedInf(s.(infQ := s.infQ[1..], gone := s.gone[s.infQ[0] := InfTrimmed]))
  }

  /** Trimming the first queue keeps its newest frame; trimming the second never does anything. */
  lemma {:induction false} TrimmingKeepsNewest(s: Pipe)
    requires Shakes(s) && s.inf.TrimmingPre?
    ensures TrimmedPre(s).preQ == if |s.preQ| <= QUEUE_LIMIT then s.preQ else [Last(s.preQ)]
    ensures TrimmedPre(s) == s.(preQ := TrimmedPre(s).preQ, gone := TrimmedPre(s).gone)
    ensures TrimmedInf(TrimmedPre(s)) == TrimmedPre(s)
    decreases |s.preQ|
  {
    if |s.preQ| > QUEUE_LIMIT {
      TrimmingKeepsNewest(s.(preQ := s.preQ[1..], gone := s.gone[s.preQ[0] := Trimmed]));
    }
  }

  /** With no step of another thread in between, trimming is a run of steps. */
  lemma {:induction false} TrimmingIsSteps(s: Pipe) returns (states: seq<Pipe>, steps: seq<Step>)
    requires s.inf.TrimmingPre?
    ensures |states| == |steps| + 1 && states[0] == s && states[|steps|] == TrimmedPre(s).(inf := TrimmingInf)
    ensures forall k :: 0 <= k < |steps| ==> Next(states[k], steps[k], states[k + 1])
    decreases |s.preQ|
  {
    if |s.preQ| <= QUEUE_LIMIT {
      states, steps := [s, s.(inf := TrimmingInf)], [TrimPreEnds];
    } else {
      var s' := s.(preQ := s.preQ[1..], gone := s.gone[s.preQ[0] := Trimmed]);
      states, steps := TrimmingIsSteps(s');
      assert Next(s, TrimPre, s');
      states, steps := [s] + states, [TrimPre] + steps;
    }
  }

  class Handler {
    const queue: array<Image>
    var insertIdx: nat
    var queueIndex: nat
    var nSkipped: int
    var numFramesProcessed: nat
    var framesProcessed: nat
    var preprocessInferenceQueue: seq<Frame>
    var inferencePostprocessQueue: seq<Frame>
    var postprocessFinish: bool
    // The two shared buffers, told by the frame they hold
    var resizeOutput: Option<Frame>
    var outputTensor: Option<Frame>
    // What the program does not record: counters, places and outcomes
    ghost var captures: seq<Image>
    ghost var taken: seq<Frame>
    ghost var pre: Pre
    ghost var inf: Inf
    ghost var post: Post
    ghost var finished: seq<Frame>
    ghost var gone: map<Frame, Fate>

    ghost predicate Valid()
      reads this
    {
      && queue.Length == QUEUE_SIZE && insertIdx < QUEUE_SIZE && queueIndex < QUEUE_SIZE
      && numFramesProcessed == |taken| - (if pre.Reading? then 1 else 0)
      && (pre.Reading? ==> pre.frame.ticket == |taken| - 1)
      && framesProcessed == |finished|
    }

    ghost function State(): Pipe
      reads this, queue
    {
      Pipe(Ring(queue[..], insertIdx, queueIndex, captures), taken,
           pre, preprocessInferenceQueue, resizeOutput,
           inf, outputTensor, inferencePostprocessQueue, postprocessFinish,
           post, finished, gone)
    }

    constructor ()
      ensures Valid() && fresh(queue) && Init(State()) && nSkipped == 0
    {
      queue := new Image[QUEUE_SIZE](_ => Image(0, false));
      insertIdx, queueIndex, nSkipped, numFramesProcessed, framesProcessed := 0, 0, 0, 0, 0;
      preprocessInferenceQueue, inferencePostprocessQueue, postprocessFinish := [], [], false;
      resizeOutput, outputTensor, captures, taken := None, None, [], [];
      pre, inf, post, finished, gone := PreIdle, Clearing, PostIdle, [], map[];
    }

    method CameraHelperCb(skipNFrames: int, seen: Seen, frame: Image) returns (ghost pushed: bool)
      requires Valid() && frame.id == |captures|
      modifies this, queue
      ensures Valid()
      ensures (nSkipped, pushed) == Decide(old(nSkipped), skipNFrames, seen)
      ensures pushed <==> old(nSkipped) >= skipNFrames && Wanted(seen)
      ensures old(nSkipped) >= skipNFrames ==> nSkipped == if seen.bytesInPipe > 0 then 1 else 0
      ensures if pushed then Next(old(State()), Capture(frame.grey), State()) else State() == old(State())
    {
      pushed := false;
      if nSkipped < skipNFrames {
        nSkipped := nSkipped + 1;
        return;
      }
      nSkipped := 0;
      if seen.bytesInPipe > 0 {
        nSkipped := nSkipped + 1;
        return;
      }
      if !seen.debug && !seen.timing {
        if seen.imageClients == 0 && seen.detectionClients == 0 {
          return;
        }
      }
      if seen.sizeBytes > MAX_IMAGE_SIZE {
        return;
      }
      var queueInd := insertIdx;
      queue[queueInd] := frame;
      insertIdx := (queueInd + 1) % QUEUE_SIZE;
      pushed, captures := true, captures + [frame];
    }

    // The preprocessing thread

    /** A frame is told by how many were processed before it and by the image in its slot. */
    method TakeFrame() returns (frame: Option<Frame>)
      requires Valid() && pre.PreIdle?
      modifies this
      ensures Valid() && (frame.None? <==> old(queueIndex) == insertIdx)
      ensures if frame.Some? then Next(old(State()), Take, State()) && pre == Reading(frame.value)
              else State() == old(State())
    {
      if queueIndex == insertIdx {
        return None;
      }
      var newFrame := Frame(numFramesProcessed, queue[queueIndex]);
      queueIndex := (queueIndex + 1) % QUEUE_SIZE;
      pre, taken := Reading(newFrame), taken + [newFrame];
      return Some(newFrame);
    }

    /**
     * The first frame only sets up the resize map; after it `supported` decides, whether
     * the frame's format is one of those known. The resized pixels go into the shared buffer.
     */
    method Preprocess(frame: Frame, supported: bool) returns (ok: bool)
      requires Valid() && pre == Reading(frame)
      modifies this
      ensures Valid() && ok == (supported && frame.ticket > 0)
      ensures Next(old(State()), if ok then Resize else Reject, State())
    {
      numFramesProcessed := numFramesProcessed + 1;
      if numFramesProcessed == 1 || !supported {
        pre, gone := PreIdle, gone[frame := Rejected];
        return false;
      }
      resizeOutput := Some(frame);
      pre := Resized(frame);
      return true;
    }

    method PushPreprocessed(frame: Frame)
      requires Valid() && pre == Resized(frame)
      modifies this
      ensures Valid() && Next(old(State()), PushPre, State())
    {
      preprocessInferenceQueue := preprocessInferenceQueue + [frame];
      pre := PreIdle;
    }

    // The inference thread

    method ClearFinish()
      requires Valid() && inf.Clearing?
      modifies this
      ensures Valid() && Next(old(State()), ClearFlag, State())
    {
      postprocessFinish := false;
      inf := Popping;
    }

    /** The wait before this section ends only when the queue is not empty. */
    method PopForInference() returns (frame: Frame)
      requires Valid() && inf.Popping? && preprocessInferenceQueue != []
      modifies this
      ensures Valid() && inf == Running(frame) && Next(old(State()), PopPre, State())
    {
      frame := preprocessInferenceQueue[0];
      if preprocessInferenceQueue != [] {
        preprocessInferenceQueue := preprocessInferenceQueue[1..];
      }
      inf := Running(frame);
    }

    /**
     * `ok` is what the interpreter answers; a result is queued, a failure goes straight
     * on. `pixels` tells whose pixels were read: a grey frame refers to its own copy, a
     * coloured one to the shared buffer.
     */
    method RunInference(frame: Frame, ok: bool) returns (pixels: Option<Frame>)
      requires Valid() && inf == Running(frame)
      modifies this
      ensures Valid() && Next(old(State()), Infer(ok), State())
      ensures old(Conserved(State()) && InputFollows(pre, preprocessInferenceQueue, resizeOutput, inf)) ==>
                (pixels == Some(frame) <==> frame.image.grey || (preprocessInferenceQueue == [] && !pre.Resized?))
      ensures old(Shakes(State())) ==> post.PostIdle?
      ensures if ok then inf == Pushing(frame) && gone == old(gone) else inf.Clearing? && frame in gone
    {
      ghost var before := State();
      if frame.image.grey {
        pixels := Some(frame);
      } else {
        pixels := resizeOutput;
      }
      outputTensor := Some(frame);
      if ok {
        inf := Pushing(frame);
      } else {
        inf, gone := Clearing, gone[frame := InferenceFailed];
      }
      if Conserved(before) && InputFollows(before.pre, before.preQ, before.input, before.inf) {
        OwnPixelsExactly(before);
      }
    }

    method PushResult(frame: Frame)
      requires Valid() && inf == Pushing(frame)
      modifies this
      ensures Valid() && Next(old(State()), PushInf, State())
    {
      inferencePostprocessQueue := inferencePostprocessQueue + [frame];
      inf := TrimmingPre;
    }

    method TrimPreprocessed()
      requires Valid() && inf.TrimmingPre?
      modifies this
      ensures Valid() && State() == TrimmedPre(old(State())).(inf := TrimmingInf)
    {
      while |preprocessInferenceQueue| > QUEUE_LIMIT && preprocessInferenceQueue != []
        invariant Valid() && TrimmedPre(State()) == TrimmedPre(old(State()))
        decreases |preprocessInferenceQueue|
      {
        gone := gone[preprocessInferenceQueue[0] := Trimmed];
        preprocessInferenceQueue := preprocessInferenceQueue[1..];
      }
      inf := TrimmingInf;
    }

    method TrimResults()
      requires Valid() && inf.TrimmingInf?
      modifies this
      ensures Valid() && State() == TrimmedInf(old(State())).(inf := Waiting)
    {
      while |inferencePostprocessQueue| > QUEUE_LIMIT && inferencePostprocessQueue != []
        invariant Valid() && TrimmedInf(State()) == TrimmedInf(old(State()))
        decreases |inferencePostprocessQueue|
      {
        gone := gone[inferencePostprocessQueue[0] := InfTrimmed];
        inferencePostprocessQueue := inferencePostprocessQueue[1..];
      }
      inf := Waiting;
    }

    // The postprocessing thread

    method PopForPostprocessing() returns (frame: Frame)
      requires Valid() && post.PostIdle? && inferencePostprocessQueue != []
      modifies this
      ensures Valid() && post == Working(frame) && Next(old(State()), PopInf, State())
    {
      frame := inferencePostprocessQueue[0];
      if inferencePostprocessQueue != [] {
        inferencePostprocessQueue := inferencePostprocessQueue[1..];
      }
      post := Working(frame);
    }

    /** `ok` is what the model's worker answers; `result` tells whose tensor it has read. */
    method FinishFrame(frame: Frame, ok: bool) returns (result: Option<Frame>)
      requires Valid() && post == Working(frame)
      modifies this
      ensures Valid() && Next(old(State()), Finish(ok), State())
      ensures old(Shakes(State())) ==> result == Some(frame)
      ensures framesProcessed == old(framesProcessed) + if ok then 1 else 0
      ensures finished == old(finished) + if ok then [frame] else []
    {
      result := outputTensor;
      post := Flagging;
      assert finished + [] == finished;
      if ok {
        framesProcessed := framesProcessed + 1;
        finished := finished + [frame];
      } else {
        gone := gone[frame := PostFailed];
      }
    }

    method SetFinish()
      requires Valid() && post.Flagging?
      modifies this
      ensures Valid() && Next(old(State()), SetFlag, State())
    {
      postprocessFinish := true;
      post := PostIdle;
    }
  }
}
