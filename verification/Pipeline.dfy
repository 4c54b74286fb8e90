/**
 * The inference pipeline: a camera callback fills a ring, and three threads take
 * frames from it through preprocessing, inference and postprocessing, joined by
 * two queues and one flag. Every interleaving of their steps is a run.
 */
module Pipeline {
  import opened Prelude

  const QUEUE_SIZE := 24
  const QUEUE_LIMIT := 1

  /** The `id`-th image captured; grey means one of the RAW8 formats. */
  datatype Image = Image(id: nat, grey: bool)

  /** The `ticket`-th frame taken from the ring, with the image its slot held then. */
  datatype Frame = Frame(ticket: nat, image: Image)

  /** `captures` lists all images ever put in; the program itself keeps only slots and indices. */
  datatype Ring = Ring(slots: seq<Image>, insertIdx: nat, queueIndex: nat, captures: seq<Image>)

  /** Where the preprocessing thread is; `Resized` means the shared input buffer is written. */
  datatype Pre = PreIdle | Reading(frame: Frame) | Resized(frame: Frame)

  /** Where the inference thread is. */
  datatype Inf =
    | Clearing | Popping | Running(frame: Frame) | Pushing(frame: Frame)
    | TrimmingPre | TrimmingInf | Waiting

  /** Where the postprocessing thread is. */
  datatype Post = PostIdle | Working(frame: Frame) | Flagging

  datatype Fate = Rejected | InferenceFailed | Trimmed | InfTrimmed | PostFailed

  /** `input` and `tensor` tell whose frame the shared input buffer and the output tensor hold. */
  datatype Pipe = Pipe(ring: Ring, taken: seq<Frame>,
                       pre: Pre, preQ: seq<Frame>, input: Option<Frame>,
                       inf: Inf, tensor: Option<Frame>, infQ: seq<Frame>, postprocessFinish: bool,
                       post: Post, finished: seq<Frame>, gone: map<Frame, Fate>)

  ghost predicate Init(s: Pipe) {
    && |s.ring.slots| == QUEUE_SIZE && s.ring == Ring(s.ring.slots, 0, 0, [])
    && s == Pipe(s.ring, [], PreIdle, [], None, Clearing, None, [], false, PostIdle, [], map[])
  }

  // ---------------------------------------------------------------------------
  // Steps

  datatype Step =
    | Capture(grey: bool)
    | Take | Reject | Resize | PushPre
    | ClearFlag | PopPre | Infer(ok: bool) | PushInf | TrimPre | TrimPreEnds | TrimInf | TrimInfEnds | Wake
    | PopInf | Finish(ok: bool) | SetFlag

  /** The callback writes the slot and moves the index; it never looks at the other index. */
  function Captured(r: Ring, grey: bool): Ring
    requires r.insertIdx < |r.slots|
  {
    var image := Image(|r.captures|, grey);
    Ring(r.slots[r.insertIdx := image], (r.insertIdx + 1) % QUEUE_SIZE, r.queueIndex, r.captures + [image])
  }

  ghost predicate NextPre(s: Pipe, step: Step, s': Pipe)
    requires step.Take? || step.Reject? || step.Resize? || step.PushPre?
  {
    match step
    case Take =>
      && s.pre.PreIdle?
      && s.ring.queueIndex != s.ring.insertIdx
      && s.ring.queueIndex < |s.ring.slots|
      && var f := Frame(|s.taken|, s.ring.slots[s.ring.queueIndex]);
         s' == s.(pre := Reading(f), taken := s.taken + [f],
                  ring := s.ring.(queueIndex := (s.ring.queueIndex + 1) % QUEUE_SIZE))
    case Reject => s.pre.Reading? && s' == s.(pre := PreIdle, gone := s.gone[s.pre.frame := Rejected])
    case Resize =>
      // the very first frame only sets up the resize map and is turned down
      && s.pre.Reading? && s.pre.frame.ticket > 0
      && s' == s.(pre := Resized(s.pre.frame), input := Some(s.pre.frame))
    case PushPre => s.pre.Resized? && s' == s.(pre := PreIdle, preQ := s.preQ + [s.pre.frame])
  }

  ghost predicate NextInf(s: Pipe, step: Step, s': Pipe) {
    match step
    case ClearFlag => s.inf.Clearing? && s' == s.(inf := Popping, postprocessFinish := false)
    case PopPre => s.inf.Popping? && s.preQ != [] && s' == s.(inf := Running(s.preQ[0]), preQ := s.preQ[1..])
    case Infer(ok) =>
      && s.inf.Running?
      && s' == if ok then s.(inf := Pushing(s.inf.frame), tensor := Some(s.inf.frame))
               else s.(inf := Clearing, tensor := Some(s.inf.frame), gone := s.gone[s.inf.frame := InferenceFailed])
    case PushInf => s.inf.Pushing? && s' == s.(inf := TrimmingPre, infQ := s.infQ + [s.inf.frame])
    case TrimPre =>
      && s.inf.TrimmingPre? && |s.preQ| > QUEUE_LIMIT
      && s' == s.(preQ := s.preQ[1..], gone := s.gone[s.preQ[0] := Trimmed])
    case TrimPreEnds => s.inf.TrimmingPre? && |s.preQ| <= QUEUE_LIMIT && s' == s.(inf := TrimmingInf)
    case TrimInf =>
      && s.inf.TrimmingInf? && |s.infQ| > QUEUE_LIMIT
      && s' == s.(infQ := s.infQ[1..], gone := s.gone[s.infQ[0] := InfTrimmed])
    case TrimInfEnds => s.inf.TrimmingInf? && |s.infQ| <= QUEUE_LIMIT && s' == s.(inf := Waiting)
    case Wake => s.inf.Waiting? && s.postprocessFinish && s' == s.(inf := Clearing)
    case _ => false
  }

  ghost predicate NextPost(s: Pipe, step: Step, s': Pipe)
    requires step.PopInf? || step.Finish? || step.SetFlag?
  {
    match step
    case PopInf => s.post.PostIdle? && s.infQ != [] && s' == s.(post := Working(s.infQ[0]), infQ := s.infQ[1..])
    case Finish(ok) =>
      && s.post.Working?
      && s' == if ok then s.(post := Flagging, finished := s.finished + [s.post.frame])
               else s.(post := Flagging, gone := s.gone[s.post.frame := PostFailed])
    case SetFlag => s.post.Flagging? && s' == s.(post := PostIdle, postprocessFinish := true)
  }

  ghost predicate Next(s: Pipe, step: Step, s': Pipe) {
    match step
    case Capture(grey) => s.ring.insertIdx < |s.ring.slots| && s' == s.(ring := Captured(s.ring, grey))
    case Take | Reject | Resize | PushPre => NextPre(s, step, s')
    case PopInf | Finish(_) | SetFlag => NextPost(s, step, s')
    case _ => NextInf(s, step, s')
  }

  ghost predicate IsRun(states: seq<Pipe>, steps: seq<Step>) {
    && |states| == |steps| + 1
    && Init(states[0])
    && forall k :: 0 <= k < |steps| ==> Next(states[k], steps[k], states[k + 1])
  }

  // ---------------------------------------------------------------------------
  // The handshake

  /** The one result on its way: queued, being worked on, or announced by the flag. */
  ghost predicate OneResult(tensor: Option<Frame>, infQ: seq<Frame>, flag: bool, post: Post) {
    || (|infQ| == 1 && tensor == Some(infQ[0]) && post.PostIdle? && !flag)
    || (infQ == [] && post.Working? && tensor == Some(post.frame) && !flag)
    || (infQ == [] && post.Flagging? && !flag)
    || (infQ == [] && post.PostIdle? && flag)
  }

  ghost predicate Handshake(inf: Inf, tensor: Option<Frame>, infQ: seq<Frame>, flag: bool, post: Post) {
    match inf
    case Clearing => infQ == [] && post.PostIdle?
    case Popping | Running(_) => infQ == [] && post.PostIdle? && !flag
    case Pushing(f) => infQ == [] && post.PostIdle? && !flag && tensor == Some(f)
    case _ => OneResult(tensor, infQ, flag, post)
  }

  ghost predicate Shakes(s: Pipe) {
    Handshake(s.inf, s.tensor, s.infQ, s.postprocessFinish, s.post)
  }

  lemma StepShakes(s: Pipe, step: Step, s': Pipe)
    requires Shakes(s) && Next(s, step, s')
    ensures Shakes(s') && !step.TrimInf?
  {
  }

  lemma {:induction false} RunShakes(states: seq<Pipe>, steps: seq<Step>, k: nat)
    requires IsRun(states, steps) && k < |states|
    ensures Shakes(states[k])
  {
    if k > 0 {
      RunShakes(states, steps, k - 1);
      StepShakes(states[k - 1], steps[k - 1], states[k]);
    }
  }

  /**
   * In every interleaving inference and postprocessing exclude each other, at most
   * one result is queued, the trim loop never drops one, and the output tensor that
   * postprocessing reads is that of its own frame.
   */
  lemma PostprocessingReadsItsOwnTensor(states: seq<Pipe>, steps: seq<Step>, k: nat)
    requires IsRun(states, steps) && k < |states|
    ensures !(states[k].inf.Running? && states[k].post.Working?)
    ensures |states[k].infQ| <= 1
    ensures states[k].post.Working? ==> states[k].tensor == Some(states[k].post.frame)
    ensures k < |steps| ==> !steps[k].TrimInf?
  {
    RunShakes(states, steps, k);
    if k < |steps| {
      StepShakes(states[k], steps[k], states[k + 1]);
    }
  }

  // ---------------------------------------------------------------------------
  // Order and conservation

  function Last(fs: seq<Frame>): Frame
    requires fs != []
  {
    fs[|fs| - 1]
  }

  function PreFrames(pre: Pre): seq<Frame> {
    if pre.PreIdle? then [] else [pre.frame]
  }

  function InfFrames(inf: Inf): seq<Frame> {
    if inf.Running? || inf.Pushing? then [inf.frame] else []
  }

  function PostFrames(post: Post): seq<Frame> {
    if post.Working? then [post.frame] else []
  }

  /** The finished frames and then, from the far end back, the frames still on their way. */
  function Line(s: Pipe): seq<Frame> {
    s.finished + (PostFrames(s.post) + s.infQ + InfFrames(s.inf) + (s.preQ + PreFrames(s.pre)))
  }

  ghost predicate Ascending(fs: seq<Frame>) {
    forall i, j :: 0 <= i < j < |fs| ==> fs[i].ticket < fs[j].ticket
  }

  ghost predicate Ticketed(taken: seq<Frame>) {
    forall i :: 0 <= i < |taken| ==> taken[i].ticket == i
  }

  /** Every frame taken is either in the line, in one place, or gone for one reason. */
  ghost predicate Accounted(line: seq<Frame>, taken: seq<Frame>, gone: map<Frame, Fate>) {
    && Ticketed(taken)
    && Ascending(line)
    && (forall f :: f in taken <==> f in line || f in gone)
    && (forall f :: f in line ==> f !in gone)
  }

  ghost predicate Conserved(s: Pipe) {
    Accounted(Line(s), s.taken, s.gone)
  }

  lemma NewTicket(line: seq<Frame>, taken: seq<Frame>, gone: map<Frame, Fate>, f: Frame)
    requires Accounted(line, taken, gone) && f.ticket == |taken|
    ensures Accounted(line + [f], taken + [f], gone)
  {
    forall g | g in line || g in gone ensures g.ticket < |taken| {
      assert g in taken;
    }
    assert f !in gone;
    assert forall g :: g in taken + [f] <==> g in taken || g == f;
    assert forall g :: g in line + [f] <==> g in line || g == f;
  }

  lemma OneGoes(a: seq<Frame>, f: Frame, b: seq<Frame>, taken: seq<Frame>, gone: map<Frame, Fate>, fate: Fate)
    requires Accounted(a + [f] + b, taken, gone)
    ensures Accounted(a + b, taken, gone[f := fate])
  {
    var line, rest := a + [f] + b, a + b;
    forall i, j | 0 <= i < j < |rest| ensures rest[i].ticket < rest[j].ticket {
      assert rest[i] == line[if i < |a| then i else i + 1] && rest[j] == line[if j < |a| then j else j + 1];
    }
    assert line[|a|] == f;
    forall g ensures (g in line <==> g in rest || g == f) && (g in rest ==> g != f) {
      if i :| 0 <= i < |rest| && rest[i] == g {
        assert line[if i < |a| then i else i + 1] == g;
      }
    }
  }

  /** The line behind the frames that are being or have been postprocessed. */
  function Rest(s: Pipe): seq<Frame> {
    s.preQ + PreFrames(s.pre)
  }

  lemma TakeConserves(s: Pipe, s': Pipe)
    requires Conserved(s) && Next(s, Take, s')
    ensures Conserved(s')
  {
    NewTicket(Line(s), s.taken, s.gone, s'.pre.frame);
    assert Line(s') == Line(s) + [s'.pre.frame];
  }

  lemma RejectConserves(s: Pipe, s': Pipe)
    requires Conserved(s) && Next(s, Reject, s')
    ensures Conserved(s')
  {
    var a := s.finished + (PostFrames(s.post) + s.infQ + InfFrames(s.inf) + s.preQ);
    assert Line(s) == a + [s.pre.frame] + [] && Line(s') == a + [];
    OneGoes(a, s.pre.frame, [], s.taken, s.gone, Rejected);
  }

  lemma FailedInferenceConserves(s: Pipe, s': Pipe)
    requires Conserved(s) && Next(s, Infer(false), s')
    ensures Conserved(s')
  {
    var a := s.finished + (PostFrames(s.post) + s.infQ);
    assert Line(s) == a + [s.inf.frame] + Rest(s) && Line(s') == a + Rest(s);
    OneGoes(a, s.inf.frame, Rest(s), s.taken, s.gone, InferenceFailed);
  }

  lemma TrimConserves(s: Pipe, s': Pipe)
    requires Conserved(s) && Next(s, TrimPre, s')
    ensures Conserved(s')
  {
    var a := s.finished + (PostFrames(s.post) + s.infQ + InfFrames(s.inf));
    assert Line(s) == a + [s.preQ[0]] + Rest(s') && Line(s') == a + Rest(s');
    OneGoes(a, s.preQ[0], Rest(s'), s.taken, s.gone, Trimmed);
  }

  lemma FinishConserves(s: Pipe, ok: bool, s': Pipe)
    requires Conserved(s) && Next(s, Finish(ok), s')
    ensures Conserved(s')
  {
    var b := s.infQ + InfFrames(s.inf) + Rest(s);
    assert Line(s) == s.finished + [s.post.frame] + b;
    if ok {
      assert Line(s') == s.finished + [s.post.frame] + b;
    } else {
      assert Line(s') == s.finished + b;
      OneGoes(s.finished, s.post.frame, b, s.taken, s.gone, PostFailed);
    }
  }

  /** A frame that moves from one stage or queue to the next keeps its place in the line. */
  lemma MoveInConserves(s: Pipe, step: Step, s': Pipe)
    requires Conserved(s) && (step.PushPre? || step.PopPre?) && Next(s, step, s')
    ensures Conserved(s')
  {
    assert InfFrames(s'.inf) + Rest(s') == InfFrames(s.inf) + Rest(s);
    assert Line(s') == Line(s);
  }

  lemma MoveOutConserves(s: Pipe, step: Step, s': Pipe)
    requires Conserved(s) && Shakes(s) && (step.PushInf? || step.PopInf?) && Next(s, step, s')
    ensures Conserved(s')
  {
    assert Line(s') == Line(s);
  }

  /** The steps that move no frame. */
  ghost predicate Idle(step: Step) {
    || step.Capture? || step.Resize? || step.ClearFlag? || step == Infer(true)
    || step.TrimPreEnds? || step.TrimInfEnds? || step.Wake? || step.SetFlag?
  }

  lemma IdleConserves(s: Pipe, step: Step, s': Pipe)
    requires Conserved(s) && Idle(step) && Next(s, step, s')
    ensures Conserved(s')
  {
    assert s'.taken == s.taken && s'.gone == s.gone;
    assert Line(s') == Line(s);
  }

  lemma PreConserves(s: Pipe, step: Step, s': Pipe)
    requires Conserved(s) && (step.Take? || step.Reject? || step.Resize? || step.PushPre?) && Next(s, step, s')
    ensures Conserved(s')
  {
    match step
    case Take => TakeConserves(s, s');
    case Reject => RejectConserves(s, s');
    case PushPre => MoveInConserves(s, step, s');
    case Resize => IdleConserves(s, step, s');
  }

  lemma PostConserves(s: Pipe, step: Step, s': Pipe)
    requires Conserved(s) && Shakes(s) && (step.PopInf? || step.Finish? || step.SetFlag?) && Next(s, step, s')
    ensures Conserved(s')
  {
    match step
    case PopInf => MoveOutConserves(s, step, s');
    case Finish(ok) => FinishConserves(s, ok, s');
    case SetFlag => IdleConserves(s, step, s');
  }

  lemma InfConserves(s: Pipe, step: Step, s': Pipe)
    requires Conserved(s) && Shakes(s) && NextInf(s, step, s') && Next(s, step, s')
    ensures Conserved(s')
  {
    if step.TrimPre? {
      TrimConserves(s, s');
    } else if step.PopPre? {
      MoveInConserves(s, step, s');
    } else if step.PushInf? {
      MoveOutConserves(s, step, s');
    } else if step.TrimInf? {
      StepShakes(s, step, s');
    } else if step == Infer(false) {
      FailedInferenceConserves(s, s');
    } else {
      IdleConserves(s, step, s');
    }
  }

  lemma StepConserves(s: Pipe, step: Step, s': Pipe)
    requires Conserved(s) && Shakes(s) && Next(s, step, s')
    ensures Conserved(s')
  {
    if step.Capture? {
      IdleConserves(s, step, s');
    } else if step.Take? || step.Reject? || step.Resize? || step.PushPre? {
      PreConserves(s, step, s');
    } else if step.PopInf? || step.Finish? || step.SetFlag? {
      PostConserves(s, step, s');
    } else {
      InfConserves(s, step, s');
    }
  }

  // ---------------------------------------------------------------------------
  // The ring

  function Backlog(s: Pipe): int {
    |s.ring.captures| - |s.taken|
  }

  ghost predicate Indexed(r: Ring, nTaken: nat) {
    && |r.slots| == QUEUE_SIZE
    && r.insertIdx == |r.captures| % QUEUE_SIZE
    && r.queueIndex == nTaken % QUEUE_SIZE
    && nTaken <= |r.captures|
  }

  /** The ring holds the latest images, each in the slot of its number. */
  ghost predicate HoldsLatest(r: Ring)
    requires |r.slots| == QUEUE_SIZE
  {
    && (forall c :: 0 <= c < |r.captures| ==> r.captures[c].id == c)
    && (forall c :: 0 <= c < |r.captures| <= c + QUEUE_SIZE ==> r.slots[c % QUEUE_SIZE] == r.captures[c])
  }

  /** The preprocessing thread is at the frame it took last. */
  ghost predicate AtLast(taken: seq<Frame>, pre: Pre) {
    !pre.PreIdle? ==> taken != [] && pre.frame == Last(taken)
  }

  /** What holds of ring and indices in every run, however far the camera is ahead. */
  ghost predicate RingBase(s: Pipe) {
    Indexed(s.ring, |s.taken|) && HoldsLatest(s.ring) && AtLast(s.taken, s.pre)
  }

  /** The frames taken are the images captured, in order. */
  ghost predicate TakenInOrder(captures: seq<Image>, taken: seq<Frame>) {
    |taken| <= |captures| && forall i :: 0 <= i < |taken| ==> taken[i] == Frame(i, captures[i])
  }

  /** Image `c` is still in its slot. */
  ghost predicate InSlot(r: Ring, c: nat)
    requires c < |r.captures| && |r.slots| == QUEUE_SIZE
  {
    r.slots[c % QUEUE_SIZE] == r.captures[c]
  }

  /** Taken frames are right, and images waiting or being preprocessed are still in their slots. */
  ghost predicate RingInv(s: Pipe) {
    && RingBase(s)
    && TakenInOrder(s.ring.captures, s.taken)
    && (forall c: nat :: |s.taken| <= c < |s.ring.captures| ==> InSlot(s.ring, c))
    && (!s.pre.PreIdle? ==> InSlot(s.ring, |s.taken| - 1))
  }

  /** The camera is at most a ring ahead, and less than that while a frame is being preprocessed. */
  predicate RingFits(s: Pipe) {
    Backlog(s) < QUEUE_SIZE || (Backlog(s) == QUEUE_SIZE && s.pre.PreIdle?)
  }

  lemma NextIndex(n: nat)
    ensures (n % QUEUE_SIZE + 1) % QUEUE_SIZE == (n + 1) % QUEUE_SIZE
  {
  }

  lemma SlotsDiffer(c: nat, d: nat)
    requires c < d < c + QUEUE_SIZE
    ensures c % QUEUE_SIZE != d % QUEUE_SIZE
  {
  }

  lemma SlotsAgree(c: nat, n: nat) returns (d: nat)
    requires c + QUEUE_SIZE < n
    ensures c < d < n <= d + QUEUE_SIZE && d % QUEUE_SIZE == c % QUEUE_SIZE
  {
    d := n - 1 - (n - 1 - c) % QUEUE_SIZE;
    assert d - c == (n - 1 - c) / QUEUE_SIZE * QUEUE_SIZE;
  }

  /** An image is still in its slot if and only if fewer than a ring's size have been captured after it. */
  lemma InSlotExactly(r: Ring, c: nat)
    requires |r.slots| == QUEUE_SIZE && HoldsLatest(r) && c < |r.captures|
    ensures InSlot(r, c) <==> |r.captures| <= c + QUEUE_SIZE
  {
    if |r.captures| > c + QUEUE_SIZE {
      var d := SlotsAgree(c, |r.captures|);
      assert r.slots[d % QUEUE_SIZE] == r.captures[d];
    }
  }

  /** With the frames so far right, nothing waiting is lost if and only if the ring fits the backlog. */
  lemma RingFitsExactly(s: Pipe)
    requires RingBase(s) && TakenInOrder(s.ring.captures, s.taken)
    ensures RingInv(s) <==> RingFits(s)
  {
    forall c: nat | c < |s.ring.captures| ensures InSlot(s.ring, c) <==> |s.ring.captures| <= c + QUEUE_SIZE {
      InSlotExactly(s.ring, c);
    }
    if Backlog(s) > QUEUE_SIZE {
      assert !InSlot(s.ring, |s.taken|);
    }
  }

  lemma CaptureKeepsBase(s: Pipe, grey: bool, s': Pipe)
    requires RingBase(s) && Next(s, Capture(grey), s')
    ensures RingBase(s')
    ensures TakenInOrder(s.ring.captures, s.taken) ==> TakenInOrder(s'.ring.captures, s'.taken)
  {
    var n := |s.ring.captures|;
    NextIndex(n);
    forall c | 0 <= c < n + 1 <= c + QUEUE_SIZE ensures s'.ring.slots[c % QUEUE_SIZE] == s'.ring.captures[c] {
      if c < n {
        SlotsDiffer(c, n);
      }
    }
  }

  lemma TakeKeepsBase(s: Pipe, s': Pipe)
    requires RingBase(s) && Next(s, Take, s')
    ensures RingBase(s')
    ensures RingInv(s) ==> TakenInOrder(s'.ring.captures, s'.taken)
  {
    NextIndex(|s.taken|);
    if RingInv(s) {
      assert InSlot(s.ring, |s.taken|);
    }
  }

  lemma StepKeepsBase(s: Pipe, step: Step, s': Pipe)
    requires RingBase(s) && Next(s, step, s')
    ensures RingBase(s')
    ensures RingInv(s) ==> TakenInOrder(s'.ring.captures, s'.taken)
  {
    match step
    case Capture(grey) => CaptureKeepsBase(s, grey, s');
    case Take => TakeKeepsBase(s, s');
    case _ =>
      assert s'.ring == s.ring && s'.taken == s.taken;
  }

  /** A step keeps the ring intact if and only if the ring fits the backlog after it. */
  lemma StepKeepsRingExactly(s: Pipe, step: Step, s': Pipe)
    requires RingInv(s) && Next(s, step, s')
    ensures RingInv(s') <==> RingFits(s')
  {
    StepKeepsBase(s, step, s');
    RingFitsExactly(s');
  }

  lemma {:induction false} RunKeepsBase(states: seq<Pipe>, steps: seq<Step>, k: nat)
    requires IsRun(states, steps) && k < |states|
    ensures RingBase(states[k])
  {
    if k > 0 {
      RunKeepsBase(states, steps, k - 1);
      StepKeepsBase(states[k - 1], steps[k - 1], states[k]);
    }
  }

  ghost predicate FitsUpTo(states: seq<Pipe>, k: nat)
    requires k < |states|
  {
    forall j :: 0 <= j <= k ==> RingFits(states[j])
  }

  ghost predicate IntactUpTo(states: seq<Pipe>, k: nat)
    requires k < |states|
  {
    forall j :: 0 <= j <= k ==> RingInv(states[j])
  }

  /** One moment more. */
  lemma UpTo(states: seq<Pipe>, k: nat)
    requires 0 < k < |states|
    ensures FitsUpTo(states, k) <==> FitsUpTo(states, k - 1) && RingFits(states[k])
    ensures IntactUpTo(states, k) <==> IntactUpTo(states, k - 1) && RingInv(states[k])
  {
  }

  lemma UpToIncludes(states: seq<Pipe>, k: nat)
    requires k < |states|
    ensures FitsUpTo(states, k) ==> RingFits(states[k])
    ensures IntactUpTo(states, k) ==> RingInv(states[k])
  {
  }

  /** In every run the ring has been intact up to moment `k` if and only if it has fitted the backlog up to then. */
  lemma {:induction false} RunKeepsRingExactly(states: seq<Pipe>, steps: seq<Step>, k: nat)
    requires IsRun(states, steps) && k < |states|
    ensures IntactUpTo(states, k) <==> FitsUpTo(states, k)
  {
    if k == 0 {
      RunKeepsBase(states, steps, 0);
      RingFitsExactly(states[0]);
    } else {
      RunKeepsRingExactly(states, steps, k - 1);
      UpTo(states, k);
      UpToIncludes(states, k - 1);
      if IntactUpTo(states, k - 1) {
        StepKeepsRingExactly(states[k - 1], steps[k - 1], states[k]);
      }
    }
  }

  lemma {:induction false} RunConserves(states: seq<Pipe>, steps: seq<Step>, k: nat)
    requires IsRun(states, steps) && k < |states|
    ensures Conserved(states[k])
  {
    if k > 0 {
      RunConserves(states, steps, k - 1);
      RunShakes(states, steps, k - 1);
      StepConserves(states[k - 1], steps[k - 1], states[k]);
    }
  }

  /** Image `c` waits in the ring. */
  ghost predicate WaitsInRing(s: Pipe, c: nat) {
    |s.taken| <= c < |s.ring.captures| && |s.ring.slots| == QUEUE_SIZE && InSlot(s.ring, c)
  }

  /** Every image captured is in exactly one place. */
  ghost predicate Placed(s: Pipe, c: nat)
    requires c < |s.ring.captures|
  {
    var f, line := Frame(c, s.ring.captures[c]), Line(s);
    if f in s.taken then f in line <==> f !in s.gone
    else WaitsInRing(s, c) && f !in line && f !in s.gone
  }

  /**
   * While the ring fits the backlog, every image captured is in exactly one place:
   * still in its slot, in one position of the line, or gone for one reason. Frames
   * leave the pipeline in capture order.
   */
  lemma FramesAreConserved(states: seq<Pipe>, steps: seq<Step>, k: nat)
    requires IsRun(states, steps) && k < |states| && FitsUpTo(states, k)
    ensures forall c: nat :: c < |states[k].ring.captures| ==> Placed(states[k], c)
    ensures forall f :: f in Line(states[k]) || f in states[k].gone ==>
              f in states[k].taken && f.ticket < |states[k].taken| <= |states[k].ring.captures| &&
              f == Frame(f.ticket, states[k].ring.captures[f.ticket])
    ensures forall i, j :: 0 <= i < j < |Line(states[k])| ==> Line(states[k])[i] != Line(states[k])[j]
    ensures forall i, j :: 0 <= i < j < |states[k].finished| ==>
              states[k].finished[i].image.id < states[k].finished[j].image.id
  {
    RunConserves(states, steps, k);
    RunKeepsRingExactly(states, steps, k);
    var s := states[k];
    assert RingInv(s);
    var line := Line(s);
    forall f | f in line || f in s.gone
      ensures f in s.taken && f.ticket < |s.taken| && f == Frame(f.ticket, s.ring.captures[f.ticket])
    {
      assert f in s.taken;
    }
    forall i, j | 0 <= i < j < |s.finished| ensures s.finished[i].image.id < s.finished[j].image.id {
      assert line[i] == s.finished[i] && line[j] == s.finished[j];
      assert line[i] in line && line[j] in line;
    }
    forall c: nat | c < |s.ring.captures| ensures Placed(s, c) {
      PlacedNow(s, c);
    }
  }

  lemma PlacedNow(s: Pipe, c: nat)
    requires RingInv(s) && Conserved(s) && c < |s.ring.captures|
    ensures Placed(s, c)
  {
    if c < |s.taken| {
      assert s.taken[c] == Frame(c, s.ring.captures[c]);
    } else {
      assert Frame(c, s.ring.captures[c]) !in s.taken;
    }
  }

  /** The preprocessing thread sees nothing to take exactly when the backlog is a multiple of the ring size. */
  lemma RingLooksEmptyExactly(s: Pipe)
    requires Indexed(s.ring, |s.taken|)
    ensures s.ring.queueIndex == s.ring.insertIdx <==> Backlog(s) % 24 == 0
  {
  }

  /**
   * The image that is published with a frame is the frame's own: for a grey frame it
   * lies in the ring slot itself until then.
   */
  ghost predicate OutputIsOwn(s: Pipe, f: Frame)
    requires |s.ring.slots| == QUEUE_SIZE
  {
    f.image.grey ==> s.ring.slots[f.ticket % QUEUE_SIZE] == f.image
  }

  /**
   * A frame is published with its own image if and only if it is coloured or at most a
   * ring's size was captured from it on.
   */
  lemma OutputIsOwnExactly(states: seq<Pipe>, steps: seq<Step>, k: nat)
    requires IsRun(states, steps) && k < |states| && FitsUpTo(states, k) && states[k].post.Working?
    ensures |states[k].ring.slots| == QUEUE_SIZE
    ensures OutputIsOwn(states[k], states[k].post.frame) <==>
            !states[k].post.frame.image.grey || |states[k].ring.captures| <= states[k].post.frame.ticket + QUEUE_SIZE
  {
    FramesAreConserved(states, steps, k);
    RunKeepsBase(states, steps, k);
    var s := states[k];
    var f := s.post.frame;
    assert Line(s)[|s.finished|] == f;
    assert f in Line(s);
    InSlotExactly(s.ring, f.ticket);
  }

  lemma {:induction false} OnlyCaptures(n: nat) returns (states: seq<Pipe>, steps: seq<Step>)
    ensures IsRun(states, steps) && |steps| == n
    ensures forall k :: 0 <= k <= n ==> Untaken(states[k], k)
  {
    if n == 0 {
      var slots := Repeat(Image(0, false), QUEUE_SIZE);
      var s := Pipe(Ring(slots, 0, 0, []), [], PreIdle, [], None, Clearing, None, [], false, PostIdle, [], map[]);
      states, steps := [s], [];
    } else {
      states, steps := OnlyCaptures(n - 1);
      var s := states[n - 1];
      assert Untaken(s, n - 1);
      var s' := s.(ring := Captured(s.ring, false));
      CaptureKeepsBase(s, false, s');
      states, steps := states + [s'], steps + [Capture(false)];
    }
  }

  /** `n` coloured images captured, and nothing else done. */
  ghost predicate Untaken(s: Pipe, n: nat) {
    && RingBase(s) && |s.ring.captures| == n && (forall c :: 0 <= c < n ==> s.ring.captures[c] == Image(c, false))
    && s == Pipe(s.ring, [], PreIdle, [], None, Clearing, None, [], false, PostIdle, [], map[])
  }

  /** Twenty-four frames behind, nothing can be taken; one more, and the first twenty-four are lost. */
  lemma OverrunLosesFrames() returns (states: seq<Pipe>, steps: seq<Step>)
    ensures IsRun(states, steps) && |steps| == QUEUE_SIZE + 2
    ensures Backlog(states[QUEUE_SIZE]) == QUEUE_SIZE && forall s' :: !Next(states[QUEUE_SIZE], Take, s')
    ensures states[QUEUE_SIZE + 2].taken == [Frame(0, Image(QUEUE_SIZE, false))]
  {
    states, steps := OnlyCaptures(QUEUE_SIZE + 1);
    assert Untaken(states[QUEUE_SIZE], QUEUE_SIZE);
    var s := states[QUEUE_SIZE + 1];
    assert Untaken(s, QUEUE_SIZE + 1);
    assert InSlot(s.ring, QUEUE_SIZE);
    var f := Frame(0, Image(QUEUE_SIZE, false));
    var s' := s.(pre := Reading(f), taken := [f], ring := s.ring.(queueIndex := 1));
    assert Next(s, Take, s');
    states, steps := states + [s'], steps + [Take];
  }

  // ---------------------------------------------------------------------------
  // The shared input buffer

  /** The input buffer holds the frame resized last. */
  ghost predicate InputFollows(pre: Pre, preQ: seq<Frame>, input: Option<Frame>, inf: Inf) {
    if pre.Resized? then input == Some(pre.frame)
    else if preQ != [] then input == Some(Last(preQ))
    else inf.Running? ==> input == Some(inf.frame)
  }

  lemma StepInputFollows(s: Pipe, step: Step, s': Pipe)
    requires InputFollows(s.pre, s.preQ, s.input, s.inf) && Next(s, step, s')
    ensures InputFollows(s'.pre, s'.preQ, s'.input, s'.inf)
  {
  }

  lemma {:induction false} RunInputFollows(states: seq<Pipe>, steps: seq<Step>, k: nat)
    requires IsRun(states, steps) && k < |states|
    ensures InputFollows(states[k].pre, states[k].preQ, states[k].input, states[k].inf)
  {
    if k > 0 {
      RunInputFollows(states, steps, k - 1);
      StepInputFollows(states[k - 1], steps[k - 1], states[k]);
    }
  }

  /**
   * Inference reads the frame's own pixels: a grey frame has a copy of them, a coloured one
   * refers to the shared buffer.
   */
  ghost predicate OwnPixels(f: Frame, input: Option<Frame>) {
    f.image.grey || input == Some(f)
  }

  lemma OwnPixelsExactly(s: Pipe)
    requires Conserved(s) && InputFollows(s.pre, s.preQ, s.input, s.inf) && s.inf.Running?
    ensures OwnPixels(s.inf.frame, s.input) <==> s.inf.frame.image.grey || (s.preQ == [] && !s.pre.Resized?)
  {
    var at := |s.finished| + |PostFrames(s.post) + s.infQ|;
    assert Line(s)[at] == s.inf.frame;
    if s.pre.Resized? {
      assert Line(s)[|Line(s)| - 1] == s.pre.frame;
    } else if s.preQ != [] {
      assert Line(s)[at + |s.preQ|] == Last(s.preQ);
    }
  }

  /**
   * Coloured frames are all resized into one buffer. In every run inference runs on
   * the pixels of its own frame if and only if that is grey or no later frame has been
   * preprocessed meanwhile.
   */
  lemma InferenceReadsItsOwnInputExactly(states: seq<Pipe>, steps: seq<Step>, k: nat)
    requires IsRun(states, steps) && k < |states| && states[k].inf.Running?
    ensures OwnPixels(states[k].inf.frame, states[k].input) <==>
            states[k].inf.frame.image.grey || (states[k].preQ == [] && !states[k].pre.Resized?)
  {
    RunInputFollows(states, steps, k);
    RunConserves(states, steps, k);
    OwnPixelsExactly(states[k]);
  }

  lemma Extend(states: seq<Pipe>, steps: seq<Step>, step: Step, s': Pipe)
    returns (states': seq<Pipe>, steps': seq<Step>)
    requires IsRun(states, steps) && Next(states[|steps|], step, s')
    ensures IsRun(states', steps') && steps' == steps + [step] && states'[|steps'|] == s'
  {
    states', steps' := states + [s'], steps + [step];
  }

  /** The frame that would be taken next. */
  function Taken(s: Pipe): Frame
    requires s.ring.queueIndex < |s.ring.slots|
  {
    Frame(|s.taken|, s.ring.slots[s.ring.queueIndex])
  }

  /** What preprocessing the next frame does, run as a whole. */
  function Preprocessed(s: Pipe): Pipe
    requires s.ring.queueIndex < |s.ring.slots|
  {
    s.(taken := s.taken + [Taken(s)], preQ := s.preQ + [Taken(s)], input := Some(Taken(s)),
       ring := s.ring.(queueIndex := (s.ring.queueIndex + 1) % QUEUE_SIZE))
  }

  lemma PreprocessOne(states: seq<Pipe>, steps: seq<Step>, s: Pipe) returns (states': seq<Pipe>, steps': seq<Step>)
    requires IsRun(states, steps) && s == states[|steps|] && s.taken != []
    requires s.pre.PreIdle? && s.ring.queueIndex != s.ring.insertIdx && s.ring.queueIndex < |s.ring.slots|
    ensures IsRun(states', steps') && states'[|steps'|] == Preprocessed(s)
  {
    var f := Taken(s);
    var s1 := s.(pre := Reading(f), taken := s.taken + [f],
                 ring := s.ring.(queueIndex := (s.ring.queueIndex + 1) % QUEUE_SIZE));
    var s2 := s1.(pre := Resized(f), input := Some(f));
    states', steps' := Extend(states, steps, Take, s1);
    states', steps' := Extend(states', steps', Resize, s2);
    states', steps' := Extend(states', steps', PushPre, Preprocessed(s));
  }

  /** Three coloured frames captured, of which the first, as always, is turned down. */
  lemma FirstTurnedDown() returns (states: seq<Pipe>, steps: seq<Step>, s: Pipe)
    ensures IsRun(states, steps) && s == states[|steps|]
    ensures s.pre.PreIdle? && s.inf.Clearing? && s.preQ == [] && s.taken == [Frame(0, Image(0, false))]
    ensures |s.ring.slots| == QUEUE_SIZE && s.ring.queueIndex == 1 && s.ring.insertIdx == 3
    ensures s.ring.slots[1] == Image(1, false) && s.ring.slots[2] == Image(2, false)
  {
    states, steps := OnlyCaptures(3);
    s := states[3];
    assert Untaken(s, 3);
    assert InSlot(s.ring, 0) && InSlot(s.ring, 1) && InSlot(s.ring, 2);
    var f := Frame(0, Image(0, false));
    s := s.(pre := Reading(f), taken := [f], ring := s.ring.(queueIndex := 1));
    states, steps := Extend(states, steps, Take, s);
    s := s.(pre := PreIdle, gone := s.gone[f := Rejected]);
    states, steps := Extend(states, steps, Reject, s);
  }

  /** Two coloured frames preprocessed before the first of them is inferred: it runs on the other's pixels. */
  lemma LaterFrameReplacesInput() returns (states: seq<Pipe>, steps: seq<Step>)
    ensures IsRun(states, steps)
    ensures states[|steps|].inf == Running(Frame(1, Image(1, false)))
    ensures states[|steps|].input == Some(Frame(2, Image(2, false)))
  {
    var s;
    states, steps, s := FirstTurnedDown();
    states, steps := PreprocessOne(states, steps, s);
    s := Preprocessed(s);
    states, steps := PreprocessOne(states, steps, s);
    s := Preprocessed(s);
    s := s.(inf := Popping, postprocessFinish := false);
    states, steps := Extend(states, steps, ClearFlag, s);
    states, steps := Extend(states, steps, PopPre, s.(inf := Running(s.preQ[0]), preQ := s.preQ[1..]));
  }
}
