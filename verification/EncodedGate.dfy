/**
 * Encoded video on one channel: a header is cached and sent to every new client,
 * and P frames go only to clients flagged as having got an I frame. The camera
 * thread, the thread that adds clients and the one that disconnects them interleave.
 */
module EncodedGate {
  import opened Prelude
  import opened FramedPipe
  import Messages

  // ---------------------------------------------------------------------------
  // Telling frames apart

  datatype Codec = H264 | H265

  datatype FrameType = Header | IFrame | PFrame | Unknown

  /** Byte 4, behind the start code, decides. */
  function TypeOf(codec: Codec, data: seq<Byte>): FrameType
    requires |data| > 4
  {
    match codec
    case H264 => (match data[4]
      case 0x67 => Header
      case 0x65 => IFrame
      case 0x41 => PFrame
      case _ => Unknown)
    case H265 => (match data[4]
      case 0x40 => Header
      case 0x26 => IFrame
      case 0x02 => PFrame
      case _ => Unknown)
  }

  /** forbidden_zero_bit, then the NAL unit type of the codec. */
  function NalType(codec: Codec, b: Byte): nat {
    if codec.H264? then b % 32 else b / 2 % 64
  }

  /**
   * In H.264 (Table 7-1) headers are sequence parameter sets, type 7, I frames IDR slices,
   * type 5, and P frames other slices, type 1, with the reference priorities the encoder uses.
   */
  lemma H264TypesFollowNalTypes(data: seq<Byte>)
    requires |data| > 4
    ensures TypeOf(H264, data) == Header <==> NalType(H264, data[4]) == 7 && data[4] / 32 == 3
    ensures TypeOf(H264, data) == IFrame <==> NalType(H264, data[4]) == 5 && data[4] / 32 == 3
    ensures TypeOf(H264, data) == PFrame <==> NalType(H264, data[4]) == 1 && data[4] / 32 == 2
  {
    var b: int := data[4];
    assert b == b / 32 * 32 + b % 32;
  }

  /**
   * In H.265 (Table 7-1) headers are video parameter sets, type 32, I frames IDR_W_RADL
   * slices, type 19, and P frames TRAIL_R slices, type 1, all in layer 0.
   */
  lemma H265TypesFollowNalTypes(data: seq<Byte>)
    requires |data| > 4
    ensures TypeOf(H265, data) == Header <==> NalType(H265, data[4]) == 32 && data[4] < 128 && data[4] % 2 == 0
    ensures TypeOf(H265, data) == IFrame <==> NalType(H265, data[4]) == 19 && data[4] < 128 && data[4] % 2 == 0
    ensures TypeOf(H265, data) == PFrame <==> NalType(H265, data[4]) == 1 && data[4] < 128 && data[4] % 2 == 0
  {
    var b: int := data[4];
    assert b == b / 2 * 2 + b % 2;
    assert b < 128 ==> b / 2 % 64 == b / 2;
  }

  // ---------------------------------------------------------------------------
  // The transition system

  /** What concerns a client's session: a header cached, a header written to it, metadata of I and P frames. */
  datatype Event = Cached | HMeta | IMeta | PMeta

  /** `log` is the session's, and P frames are gated from position `since` of it on. */
  datatype Slot = Slot(live: bool, accepting: bool, log: seq<Event>, since: nat)

  /**
   * An add has committed its slot, or has also cleared the flag; the header comes last.
   * One that fails late leaves its slot live and does none of this.
   */
  datatype Adding = NotAdding | Added(slot: nat) | Cleared(slot: nat)

  /** The camera thread writes a header, or is between an I frame and the flag, or between the flag and a P frame. */
  datatype Busy = Free | InHeader | WroteI(slot: nat) | CheckedP(slot: nat)

  datatype Chan = Chan(slots: seq<Slot>, nClients: nat, header: bool, adding: Adding, busy: Busy)

  datatype Step =
    | Commit(slot: nat)
    | LateFailure(slot: nat)
    | Reset
    | SendHeader
    | SkipHeader
    | Drop(slot: nat)
    | CacheHeader
    | WriteHeader(slot: nat)
    | EndHeader
    | WriteIMeta(slot: nat)
    | SetFlag
    | CheckFlag(slot: nat)
    | WritePMeta
    | SkipP

  ghost predicate Shaped(s: Chan) {
    |s.slots| == N_CLIENT && s.nClients <= N_CLIENT
  }

  ghost predicate Init(s: Chan) {
    && s == Chan(s.slots, 0, false, NotAdding, Free)
    && Shaped(s)
    && forall i :: 0 <= i < N_CLIENT ==> s.slots[i] == Slot(false, false, [], 0)
  }

  function Logged(slot: Slot, e: Event): Slot {
    slot.(log := slot.log + [e])
  }

  /** The effect of caching a header on one slot: the flag goes down, a live session is marked. */
  function Marked(slot: Slot, first: bool): Slot {
    var log := if slot.live then slot.log + [Cached] else slot.log;
    Slot(slot.live, false, log, if first then |log| else slot.since)
  }

  /** The thread that adds clients, and the ones that disconnect them. */
  ghost predicate NextClient(s: Chan, step: Step, s': Chan)
    requires Shaped(s)
  {
    match step
    case Commit(i) =>
      && i < N_CLIENT && !s.slots[i].live && s.adding.NotAdding?
      && s' == s.(slots := s.slots[i := s.slots[i].(live := true, log := [], since := 0)],
                  nClients := Max(s.nClients, i + 1), adding := Added(i))
    case LateFailure(i) =>
      && i < N_CLIENT && !s.slots[i].live && s.adding.NotAdding?
      && s' == s.(slots := s.slots[i := s.slots[i].(live := true, log := [], since := 0)])
    case Reset =>
      && s.adding.Added? && s.adding.slot < N_CLIENT
      && var i := s.adding.slot;
         s' == if s.header then s.(slots := s.slots[i := s.slots[i].(accepting := false)], adding := Cleared(i))
               else s.(adding := NotAdding)
    case SendHeader =>
      && s.adding.Cleared? && s.adding.slot < N_CLIENT
      && var i := s.adding.slot;
         s.slots[i].live && s' == s.(slots := s.slots[i := Logged(s.slots[i], HMeta)], adding := NotAdding)
    case SkipHeader =>
      s.adding.Cleared? && s' == s.(adding := NotAdding)
    case Drop(i) =>
      && i < N_CLIENT && s.slots[i].live
      && s' == s.(slots := s.slots[i := s.slots[i].(live := false, accepting := false)])
    case _ => false
  }

  /** The camera thread. */
  ghost predicate NextCamera(s: Chan, step: Step, s': Chan)
    requires Shaped(s)
  {
    match step
    case CacheHeader =>
      && s.busy.Free?
      && s' == s.(slots := s'.slots, header := true, busy := InHeader) && |s'.slots| == N_CLIENT
      && (forall i :: 0 <= i < N_CLIENT ==>
            s'.slots[i] == if i < s.nClients then Marked(s.slots[i], !s.header) else s.slots[i])
    case WriteHeader(i) =>
      && s.busy.InHeader? && i < s.nClients && s.slots[i].live
      && s' == s.(slots := s.slots[i := Logged(s.slots[i], HMeta)])
    case EndHeader =>
      s.busy.InHeader? && s' == s.(busy := Free)
    case WriteIMeta(i) =>
      && s.busy.Free? && i < s.nClients && s.slots[i].live
      && s' == s.(slots := s.slots[i := Logged(s.slots[i], IMeta)], busy := WroteI(i))
    case SetFlag =>
      && s.busy.WroteI? && s.busy.slot < N_CLIENT
      && var i := s.busy.slot;
         s' == s.(slots := s.slots[i := s.slots[i].(accepting := true)], busy := Free)
    case CheckFlag(i) =>
      && s.busy.Free? && i < s.nClients && s.slots[i].accepting
      && s' == s.(busy := CheckedP(i))
    case WritePMeta =>
      && s.busy.CheckedP? && s.busy.slot < N_CLIENT
      && var i := s.busy.slot;
         s.slots[i].live && s' == s.(slots := s.slots[i := Logged(s.slots[i], PMeta)], busy := Free)
    case SkipP =>
      s.busy.CheckedP? && s' == s.(busy := Free)
    case _ => false
  }

  ghost predicate Next(s: Chan, step: Step, s': Chan) {
    Shaped(s) && (NextClient(s, step, s') || NextCamera(s, step, s'))
  }

  /** Slot `i` has been committed by an add that has not written the header yet. */
  predicate InAdd(s: Chan, i: nat) {
    s.adding == Added(i) || s.adding == Cleared(i)
  }

  /** The camera thread is in the middle of slot `i`. */
  predicate InFrame(s: Chan, i: nat) {
    s.busy == WroteI(i) || s.busy == CheckedP(i)
  }

  /**
   * Once a header is cached: no slot gets a new client while the camera thread is in
   * the middle of it; no I frame is served to a slot whose add has not written the
   * header yet, nor the flag of one looked at whose add has not cleared it; and no add
   * fails late in a slot whose flag is up, as it will not clear it, or in whose middle
   * the camera thread is.
   */
  predicate Undisturbed(s: Chan, step: Step) {
    s.header ==>
      && (step.Commit? ==> !InFrame(s, step.slot))
      && (step.LateFailure? && step.slot < |s.slots| ==>
            !InFrame(s, step.slot) && !s.slots[step.slot].accepting)
      && (step.WriteIMeta? ==> !InAdd(s, step.slot))
      && (step.CheckFlag? ==> s.adding != Added(step.slot))
  }

  ghost predicate IsRun(states: seq<Chan>, steps: seq<Step>) {
    && |states| == |steps| + 1
    && Init(states[0])
    && forall k :: 0 <= k < |steps| ==> Next(states[k], steps[k], states[k + 1])
  }

  ghost predicate IsUndisturbed(states: seq<Chan>, steps: seq<Step>)
    requires |states| == |steps| + 1
  {
    forall k :: 0 <= k < |steps| ==> Undisturbed(states[k], steps[k])
  }

  predicate IsHeader(e: Event) {
    e.Cached? || e.HMeta?
  }

  /** The session has got an I frame's metadata since the latest header. */
  ghost predicate IFrameSince(log: seq<Event>) {
    exists j :: 0 <= j < |log| && log[j] == IMeta && forall m :: j < m < |log| ==> !IsHeader(log[m])
  }

  /** Every P frame from position `since` on has an I frame's metadata before it and after the latest header. */
  ghost predicate PFramesGated(log: seq<Event>, since: nat) {
    forall k :: since <= k < |log| && log[k] == PMeta ==> IFrameSince(log[..k])
  }

  ghost predicate AllGated(s: Chan) {
    s.header ==> forall i :: 0 <= i < |s.slots| ==> PFramesGated(s.slots[i].log, s.slots[i].since)
  }

  lemma AppendGates(log: seq<Event>, since: nat, e: Event)
    requires PFramesGated(log, since) && since <= |log|
    ensures PFramesGated(log + [e], since) <==> (e == PMeta ==> IFrameSince(log))
  {
    var log' := log + [e];
    forall k | since <= k < |log| && log'[k] == PMeta ensures IFrameSince(log'[..k]) {
      assert log'[..k] == log[..k];
    }
    assert log'[..|log|] == log;
    if e == PMeta {
      assert log'[|log|] == PMeta;
    }
  }

  lemma AppendKeepsIFrame(log: seq<Event>, e: Event)
    ensures IFrameSince(log + [e]) <==> e == IMeta || (IFrameSince(log) && !IsHeader(e))
  {
    var log' := log + [e];
    if e == IMeta {
      assert log'[|log|] == IMeta;
    }
    if IFrameSince(log) && !IsHeader(e) {
      var j :| 0 <= j < |log| && log[j] == IMeta && forall m :: j < m < |log| ==> !IsHeader(log[m]);
      assert log'[j] == IMeta;
    }
    if IFrameSince(log') && e != IMeta {
      var j :| 0 <= j < |log'| && log'[j] == IMeta && forall m :: j < m < |log'| ==> !IsHeader(log'[m]);
      assert log'[|log|] == e && log[j] == IMeta;
      assert forall m :: j < m < |log| ==> log[m] == log'[m];
    }
  }

  /** What holds of a slot once a header is cached. */
  ghost predicate SlotGated(s: Chan, i: nat)
    requires Shaped(s) && i < N_CLIENT
  {
    var slot := s.slots[i];
    && PFramesGated(slot.log, slot.since)
    && !(InAdd(s, i) && InFrame(s, i))
    && (slot.accepting ==> !s.busy.InHeader? && s.adding != Cleared(i))
    && (slot.live && slot.accepting && s.adding != Added(i) ==> IFrameSince(slot.log))
    && (slot.live && InFrame(s, i) ==> IFrameSince(slot.log))
    && (s.adding == Added(i) ==> (slot.live ==> !IFrameSince(slot.log)) && (slot.accepting ==> slot.live))
  }

  ghost predicate SlotInv(s: Chan, i: nat)
    requires Shaped(s) && i < N_CLIENT
  {
    var slot := s.slots[i];
    && (slot.accepting || slot.log != [] || InAdd(s, i) || InFrame(s, i) ==> i < s.nClients)
    && slot.since <= |slot.log|
    && (s.header ==> SlotGated(s, i))
  }

  ghost predicate Inv(s: Chan) {
    && Shaped(s)
    && (s.busy.InHeader? || s.adding.Cleared? ==> s.header)
    && (s.adding.Added? || s.adding.Cleared? ==> s.adding.slot < N_CLIENT)
    && (s.busy.WroteI? || s.busy.CheckedP? ==> s.busy.slot < N_CLIENT)
    && forall i: nat :: i < N_CLIENT ==> SlotInv(s, i)
  }

  lemma CacheHeaderKeepsSlot(s: Chan, s': Chan, i: nat)
    requires Inv(s) && Next(s, CacheHeader, s') && i < N_CLIENT
    ensures SlotInv(s', i)
  {
    assert SlotInv(s, i);
    var slot := s.slots[i];
    if slot.live {
      AppendKeepsIFrame(slot.log, Cached);
      if s.header {
        AppendGates(slot.log, slot.since, Cached);
      }
    }
  }

  lemma ClientStepKeepsSlot(s: Chan, step: Step, s': Chan, i: nat)
    requires Inv(s) && NextClient(s, step, s') && Undisturbed(s, step) && i < N_CLIENT
    ensures SlotInv(s', i)
  {
    assert SlotInv(s, i);
    if step.SendHeader? && s.header && s.adding.slot == i {
      AppendGates(s.slots[i].log, s.slots[i].since, HMeta);
    }
  }

  lemma LoggedKeepsSlot(s: Chan, i: nat, e: Event)
    requires Inv(s) && s.header && i < N_CLIENT && (e == PMeta ==> s.busy == CheckedP(i) && s.slots[i].live)
    ensures PFramesGated(s.slots[i].log + [e], s.slots[i].since)
    ensures IFrameSince(s.slots[i].log + [e]) <==> e == IMeta || (IFrameSince(s.slots[i].log) && !IsHeader(e))
  {
    assert SlotInv(s, i);
    AppendGates(s.slots[i].log, s.slots[i].since, e);
    AppendKeepsIFrame(s.slots[i].log, e);
  }

  lemma CameraStepKeepsSlot(s: Chan, step: Step, s': Chan, i: nat)
    requires Inv(s) && NextCamera(s, step, s') && Undisturbed(s, step) && i < N_CLIENT && !step.CacheHeader?
    ensures SlotInv(s', i)
  {
    assert SlotInv(s, i);
    if s.header {
      match step
      case WriteHeader(k) => LoggedKeepsSlot(s, k, HMeta);
      case WriteIMeta(k) => LoggedKeepsSlot(s, k, IMeta);
      case WritePMeta => LoggedKeepsSlot(s, s.busy.slot, PMeta);
      case _ =>
    }
  }

  /** A step keeps the invariant if and only if it disturbs nothing. */
  lemma StepKeepsInvExactly(s: Chan, step: Step, s': Chan)
    requires Inv(s) && Next(s, step, s')
    ensures Inv(s') <==> Undisturbed(s, step)
  {
    if Undisturbed(s, step) {
      forall i: nat | i < N_CLIENT ensures SlotInv(s', i) {
        if step.CacheHeader? {
          CacheHeaderKeepsSlot(s, s', i);
        } else if NextClient(s, step, s') {
          ClientStepKeepsSlot(s, step, s', i);
        } else {
          CameraStepKeepsSlot(s, step, s', i);
        }
      }
    } else if step.LateFailure? {
      assert SlotInv(s, step.slot) && s'.slots[step.slot].log == [];
      assert !SlotInv(s', step.slot);
    } else {
      assert step.slot < N_CLIENT && InAdd(s', step.slot) && InFrame(s', step.slot);
      assert !SlotInv(s', step.slot);
    }
  }

  lemma {:induction false} UndisturbedRunKeepsInv(states: seq<Chan>, steps: seq<Step>, k: nat)
    requires IsRun(states, steps) && IsUndisturbed(states, steps) && k < |states|
    ensures Inv(states[k])
  {
    if k > 0 {
      UndisturbedRunKeepsInv(states, steps, k - 1);
      StepKeepsInvExactly(states[k - 1], steps[k - 1], states[k]);
    }
  }

  /**
   * In every interleaving that nothing disturbs: from the first cached header on,
   * every P frame written to a client comes after an I frame's metadata in that
   * client's own session, and no newer header, cached or written, lies between.
   */
  lemma PFramesFollowIFrames(states: seq<Chan>, steps: seq<Step>, k: nat)
    requires IsRun(states, steps) && IsUndisturbed(states, steps) && k < |states|
    ensures AllGated(states[k])
  {
    UndisturbedRunKeepsInv(states, steps, k);
    InvGates(states[k]);
  }

  lemma InvGates(s: Chan)
    requires Inv(s)
    ensures AllGated(s)
  {
    forall i: nat | i < N_CLIENT && s.header ensures PFramesGated(s.slots[i].log, s.slots[i].since) {
      assert SlotInv(s, i);
    }
  }

  // ---------------------------------------------------------------------------
  // The conditions are exact

  /** `states` leads from `start` to `end` by steps that disturb nothing. */
  ghost predicate IsPath(start: Chan, states: seq<Chan>, steps: seq<Step>, end: Chan) {
    && |states| == |steps| + 1 && states[0] == start && states[|steps|] == end
    && forall k :: 0 <= k < |steps| ==> Next(states[k], steps[k], states[k + 1]) && Undisturbed(states[k], steps[k])
  }

  /** Whatever undisturbed steps follow, every P frame stays gated. */
  ghost predicate StaysGated(s: Chan) {
    forall states, steps, end :: IsPath(s, states, steps, end) ==> AllGated(end)
  }

  lemma {:induction false} PathKeepsInv(start: Chan, states: seq<Chan>, steps: seq<Step>, end: Chan, k: nat)
    requires Inv(start) && IsPath(start, states, steps, end) && k < |states|
    ensures Inv(states[k])
  {
    if k > 0 {
      PathKeepsInv(start, states, steps, end, k - 1);
      StepKeepsInvExactly(states[k - 1], steps[k - 1], states[k]);
    }
  }

  lemma PathGrows(start: Chan, states: seq<Chan>, steps: seq<Step>, end: Chan, step: Step, next: Chan)
    requires IsPath(start, states, steps, end) && Next(end, step, next) && Undisturbed(end, step)
    ensures IsPath(start, states + [next], steps + [step], next)
  {
  }

  ghost predicate HasHeader(s: Chan, i: nat) {
    Shaped(s) && s.header && i < s.nClients && s.slots[i].live
  }

  /** A P frame about to be written to a session without an I frame. */
  lemma UngatedWrite(s: Chan, i: nat) returns (states: seq<Chan>, steps: seq<Step>, end: Chan)
    requires HasHeader(s, i) && s.busy == CheckedP(i)
    requires !IFrameSince(s.slots[i].log) && s.slots[i].since <= |s.slots[i].log|
    ensures IsPath(s, states, steps, end) && !AllGated(end)
  {
    var log := s.slots[i].log;
    end := s.(slots := s.slots[i := Logged(s.slots[i], PMeta)], busy := Free);
    states, steps := [s] + [end], [WritePMeta] + [];
    assert (log + [PMeta])[..|log|] == log && (log + [PMeta])[|log|] == PMeta;
    assert !PFramesGated(end.slots[i].log, end.slots[i].since);
  }

  /** A flag that is up over a session without an I frame. */
  lemma UngatedFlag(s: Chan, i: nat) returns (states: seq<Chan>, steps: seq<Step>, end: Chan)
    requires HasHeader(s, i) && s.busy.Free? && s.adding.NotAdding? && s.slots[i].accepting
    requires !IFrameSince(s.slots[i].log) && s.slots[i].since <= |s.slots[i].log|
    ensures IsPath(s, states, steps, end) && !AllGated(end)
  {
    var s' := s.(busy := CheckedP(i));
    states, steps, end := UngatedWrite(s', i);
    states, steps := [s] + states, [CheckFlag(i)] + steps;
  }

  /** The flag goes up while the header is still to come. */
  lemma UngatedHeader(s: Chan, i: nat) returns (states: seq<Chan>, steps: seq<Step>, end: Chan)
    requires HasHeader(s, i) && s.busy == WroteI(i) && s.adding == Cleared(i)
    requires s.slots[i].since <= |s.slots[i].log|
    ensures IsPath(s, states, steps, end) && !AllGated(end)
  {
    AppendKeepsIFrame(s.slots[i].log, HMeta);
    var up := s.slots[i].(accepting := true);
    var s1 := s.(slots := s.slots[i := up], busy := Free);
    var s2 := s1.(slots := s1.slots[i := Logged(up, HMeta)], adding := NotAdding);
    states, steps, end := UngatedFlag(s2, i);
    states, steps := [s] + ([s1] + states), [SetFlag] + ([SendHeader] + steps);
  }

  lemma UngatedReset(s: Chan, i: nat) returns (states: seq<Chan>, steps: seq<Step>, end: Chan)
    requires HasHeader(s, i) && s.busy == WroteI(i) && s.adding == Added(i)
    requires s.slots[i].since <= |s.slots[i].log|
    ensures IsPath(s, states, steps, end) && !AllGated(end)
  {
    var s' := s.(slots := s.slots[i := s.slots[i].(accepting := false)], adding := Cleared(i));
    states, steps, end := UngatedHeader(s', i);
    states, steps := [s] + states, [Reset] + steps;
  }

  /** A live session without an I frame whose flag is up, or goes up, or has been looked at. */
  lemma UngatedLive(s: Chan, i: nat) returns (states: seq<Chan>, steps: seq<Step>, end: Chan)
    requires HasHeader(s, i) && s.adding.NotAdding? && !s.busy.InHeader? && (s.slots[i].accepting || InFrame(s, i))
    requires s.busy.WroteI? ==> s.busy.slot < N_CLIENT
    requires !IFrameSince(s.slots[i].log) && s.slots[i].since <= |s.slots[i].log|
    ensures IsPath(s, states, steps, end) && !AllGated(end)
  {
    if s.busy.Free? {
      states, steps, end := UngatedFlag(s, i);
    } else if s.busy == CheckedP(i) {
      states, steps, end := UngatedWrite(s, i);
    } else if s.busy.CheckedP? {
      states, steps, end := UngatedFlag(s.(busy := Free), i);
      states, steps := [s] + states, [SkipP] + steps;
    } else {
      var j := s.busy.slot;
      var s' := s.(slots := s.slots[j := s.slots[j].(accepting := true)], busy := Free);
      states, steps, end := UngatedFlag(s', i);
      states, steps := [s] + states, [SetFlag] + steps;
    }
  }

  /** After any disturbing step, whatever else the channel holds, undisturbed steps lead to an ungated P frame. */
  lemma DisturbedStepIsDangerous(s: Chan, step: Step, s': Chan) returns (states: seq<Chan>, steps: seq<Step>, end: Chan)
    requires Inv(s) && Next(s, step, s') && !Undisturbed(s, step)
    ensures IsPath(s', states, steps, end) && !AllGated(end)
  {
    var i := step.slot;
    assert SlotInv(s, i);
    match step
    case Commit(_) =>
      if s.busy == WroteI(i) {
        states, steps, end := UngatedReset(s', i);
      } else {
        states, steps, end := UngatedWrite(s', i);
      }
    case LateFailure(_) =>
      states, steps, end := UngatedLive(s', i);
    case WriteIMeta(_) =>
      if s.adding == Added(i) {
        states, steps, end := UngatedReset(s', i);
      } else {
        states, steps, end := UngatedHeader(s', i);
      }
    case CheckFlag(_) =>
      states, steps, end := UngatedWrite(s', i);
  }

  /** P frames stay gated after a step if and only if that step disturbed nothing. */
  lemma GateHoldsExactly(s: Chan, step: Step, s': Chan)
    requires Inv(s) && Next(s, step, s')
    ensures StaysGated(s') <==> Undisturbed(s, step)
  {
    if Undisturbed(s, step) {
      StepKeepsInvExactly(s, step, s');
      forall states, steps, end | IsPath(s', states, steps, end) ensures AllGated(end) {
        PathKeepsInv(s', states, steps, end, |steps|);
        InvGates(end);
      }
    } else {
      var states, steps, end := DisturbedStepIsDangerous(s, step, s');
    }
  }

  // ---------------------------------------------------------------------------
  // Each of the conditions can be broken

  lemma Extend(states: seq<Chan>, steps: seq<Step>, step: Step, s': Chan)
    returns (states': seq<Chan>, steps': seq<Step>)
    requires IsRun(states, steps) && IsUndisturbed(states, steps)
    requires Next(states[|steps|], step, s') && Undisturbed(states[|steps|], step)
    ensures IsRun(states', steps') && IsUndisturbed(states', steps') && states'[|steps'|] == s'
  {
    states', steps' := states + [s'], steps + [step];
  }

  /** A header is cached, and a client's add has cleared the flag. */
  lemma HeaderAndClient() returns (states: seq<Chan>, steps: seq<Step>, s: Chan)
    ensures IsRun(states, steps) && IsUndisturbed(states, steps) && s == states[|steps|]
    ensures Shaped(s) && s.header && s.nClients == 1 && s.busy.Free? && s.adding == Cleared(0)
    ensures s.slots[0] == Slot(true, false, [], 0)
  {
    var n := N_CLIENT;
    var s0 := Chan(Repeat(Slot(false, false, [], 0), n), 0, false, NotAdding, Free);
    states, steps := [s0], [];
    var s1 := s0.(header := true, busy := InHeader);
    states, steps := Extend(states, steps, CacheHeader, s1);
    var s2 := s1.(busy := Free);
    states, steps := Extend(states, steps, EndHeader, s2);
    var s3 := s2.(slots := s2.slots[0 := Slot(true, false, [], 0)], nClients := 1, adding := Added(0));
    states, steps := Extend(states, steps, Commit(0), s3);
    s := s3.(slots := s3.slots[0 := Slot(true, false, [], 0)], adding := Cleared(0));
    states, steps := Extend(states, steps, Reset, s);
  }

  /** The client gets its header and an I frame, and disconnects before the flag is set. */
  lemma DroppedInFrame() returns (states: seq<Chan>, steps: seq<Step>, s: Chan)
    ensures IsRun(states, steps) && IsUndisturbed(states, steps) && s == states[|steps|]
    ensures Shaped(s) && s.header && s.nClients == 1 && s.busy == WroteI(0) && s.adding.NotAdding?
    ensures !s.slots[0].live
  {
    states, steps, s := HeaderAndClient();
    s := s.(adding := NotAdding);
    states, steps := Extend(states, steps, SkipHeader, s);
    s := s.(slots := s.slots[0 := Logged(s.slots[0], IMeta)], busy := WroteI(0));
    states, steps := Extend(states, steps, WriteIMeta(0), s);
    s := s.(slots := s.slots[0 := s.slots[0].(live := false, accepting := false)]);
    states, steps := Extend(states, steps, Drop(0), s);
  }

  /**
   * An undisturbed run and one more step that disturbs: by `GateHoldsExactly` an
   * ungated P frame can follow.
   */
  ghost predicate CanDisturb(states: seq<Chan>, steps: seq<Step>, step: Step, s': Chan) {
    && IsRun(states, steps) && IsUndisturbed(states, steps)
    && Next(states[|steps|], step, s') && !Undisturbed(states[|steps|], step) && !StaysGated(s')
  }

  lemma Disturb(states: seq<Chan>, steps: seq<Step>, step: Step, s': Chan)
    requires IsRun(states, steps) && IsUndisturbed(states, steps)
    requires Next(states[|steps|], step, s') && !Undisturbed(states[|steps|], step)
    ensures CanDisturb(states, steps, step, s')
  {
    UndisturbedRunKeepsInv(states, steps, |steps|);
    GateHoldsExactly(states[|steps|], step, s');
  }

  /** An I frame served between an add's reset and its header: the header then comes after the I frame. */
  lemma HeaderAfterIFrame() returns (states: seq<Chan>, steps: seq<Step>, s': Chan)
    ensures CanDisturb(states, steps, WriteIMeta(0), s') && states[|steps|].adding == Cleared(0)
  {
    var s;
    states, steps, s := HeaderAndClient();
    s' := s.(slots := s.slots[0 := Logged(s.slots[0], IMeta)], busy := WroteI(0));
    Disturb(states, steps, WriteIMeta(0), s');
  }

  /** A client added while the camera thread is between an I frame's metadata and the flag inherits the flag. */
  lemma ReusedSlotInheritsFlag() returns (states: seq<Chan>, steps: seq<Step>, s': Chan)
    ensures CanDisturb(states, steps, Commit(0), s') && states[|steps|].busy == WroteI(0)
  {
    var s;
    states, steps, s := DroppedInFrame();
    s' := s.(slots := s.slots[0 := s.slots[0].(live := true, log := [], since := 0)], adding := Added(0));
    Disturb(states, steps, Commit(0), s');
  }

  /** A P frame considered between an add's commit and its reset may meet the flag of the client before. */
  lemma StaleFlagLetsPFrameThrough() returns (states: seq<Chan>, steps: seq<Step>, s': Chan)
    ensures CanDisturb(states, steps, CheckFlag(0), s') && states[|steps|].adding == Added(0)
  {
    var s;
    states, steps, s := DroppedInFrame();
    s := s.(slots := s.slots[0 := s.slots[0].(accepting := true)], busy := Free);
    states, steps := Extend(states, steps, SetFlag, s);
    s := s.(slots := s.slots[0 := s.slots[0].(live := true, log := [], since := 0)], adding := Added(0));
    states, steps := Extend(states, steps, Commit(0), s);
    s' := s.(busy := CheckedP(0));
    Disturb(states, steps, CheckFlag(0), s');
  }

  /** An add that fails late in a slot whose flag went up after its client was gone never clears it. */
  lemma LateFailureKeepsFlag() returns (states: seq<Chan>, steps: seq<Step>, s': Chan)
    ensures CanDisturb(states, steps, LateFailure(0), s') && states[|steps|].busy.Free?
  {
    var s;
    states, steps, s := DroppedInFrame();
    s := s.(slots := s.slots[0 := s.slots[0].(accepting := true)], busy := Free);
    states, steps := Extend(states, steps, SetFlag, s);
    s' := s.(slots := s.slots[0 := s.slots[0].(live := true, log := [], since := 0)]);
    Disturb(states, steps, LateFailure(0), s');
  }

  // ---------------------------------------------------------------------------
  // The function that writes a frame to every client

  /** Whether the frame's metadata goes to a client; `ok` is whether that write would succeed. */
  predicate Passed(t: FrameType, accepting: bool, ok: bool) {
    ok && (t.PFrame? ==> accepting)
  }

  /** The client's flag afterwards. */
  function Accepts(t: FrameType, accepting: bool, ok: bool): bool {
    match t
    case Header => false
    case IFrame => accepting || ok
    case _ => accepting
  }

  /** What a whole call does to the slot of one client. */
  function AfterFrame(slot: Slot, t: FrameType, ok: bool, first: bool): Slot {
    match t
    case Header => if ok then Logged(Marked(slot, first), HMeta) else Marked(slot, first)
    case IFrame => if ok then slot.(accepting := true, log := slot.log + [IMeta]) else slot
    case PFrame => if Passed(t, slot.accepting, ok) then slot.(log := slot.log + [PMeta]) else slot
    case Unknown => slot
  }

  /** What a session gets to see of a frame. */
  function EventOf(t: FrameType): Event
    requires !t.Unknown?
  {
    match t
    case Header => HMeta
    case IFrame => IMeta
    case PFrame => PMeta
  }

  /**
   * A session's log gets the frame's event at its end if and only if the write succeeds
   * and, for a P frame, the flag is up; and the flag changes as the function says.
   */
  lemma AfterFrameAgrees(slot: Slot, t: FrameType, ok: bool, first: bool)
    requires (ok ==> slot.live) && !t.Unknown?
    ensures var log, event := AfterFrame(slot, t, ok, first).log, EventOf(t);
            && (log != [] && log[|log| - 1] == event && Times(log, event) == Times(slot.log, event) + 1 <==>
                ok && (t.PFrame? ==> slot.accepting))
            && (Times(log, event) == Times(slot.log, event) <==> !(ok && (t.PFrame? ==> slot.accepting)))
    ensures AfterFrame(slot, t, ok, first).accepting == Accepts(t, slot.accepting, ok)
  {
    TimesGrows(slot.log, EventOf(t), EventOf(t));
    TimesGrows(slot.log, Cached, EventOf(t));
    TimesGrows(slot.log + [Cached], HMeta, EventOf(t));
  }

  /** How often an event is in a log. */
  ghost function Times(log: seq<Event>, e: Event): nat {
    multiset(log)[e]
  }

  lemma TimesGrows(log: seq<Event>, last: Event, e: Event)
    ensures Times(log + [last], e) == Times(log, e) + if last == e then 1 else 0
  {
  }

  /** The part of a call that serves one client is none or two of the channel's steps. */
  lemma OneClient(s: Chan, t: FrameType, ok: bool, i: nat, start: Chan, states: seq<Chan>, steps: seq<Step>)
    returns (states': seq<Chan>, steps': seq<Step>)
    requires IsPath(start, states, steps, s)
    requires Shaped(s) && s.busy.Free? && s.adding.NotAdding? && i < s.nClients && (ok ==> s.slots[i].live)
    requires t.IFrame? || t.PFrame?
    ensures IsPath(start, states', steps', s.(slots := s.slots[i := AfterFrame(s.slots[i], t, ok, false)]))
  {
    var after := s.(slots := s.slots[i := AfterFrame(s.slots[i], t, ok, false)]);
    states', steps' := states, steps;
    if t.IFrame? && ok {
      var mid := s.(slots := s.slots[i := s.slots[i].(log := s.slots[i].log + [IMeta])], busy := WroteI(i));
      PathGrows(start, states, steps, s, WriteIMeta(i), mid);
      assert after.slots == mid.slots[i := mid.slots[i].(accepting := true)];
      PathGrows(start, states + [mid], steps + [WriteIMeta(i)], mid, SetFlag, after);
      states', steps' := states + [mid] + [after], steps + [WriteIMeta(i)] + [SetFlag];
    } else if t.PFrame? && Passed(t, s.slots[i].accepting, ok) {
      var mid := s.(busy := CheckedP(i));
      PathGrows(start, states, steps, s, CheckFlag(i), mid);
      PathGrows(start, states + [mid], steps + [CheckFlag(i)], mid, WritePMeta, after);
      states', steps' := states + [mid] + [after], steps + [CheckFlag(i)] + [WritePMeta];
    } else {
      assert after.slots == s.slots;
    }
  }

  /** Writing a frame to the first `n` clients is a run of the channel's steps. */
  lemma {:induction false} WritingIsSteps(s: Chan, t: FrameType, ok: seq<bool>, n: nat)
    returns (states: seq<Chan>, steps: seq<Step>, end: Chan)
    requires Shaped(s) && s.busy.Free? && s.adding.NotAdding? && n <= s.nClients == |ok|
    requires forall i :: 0 <= i < |ok| && ok[i] ==> s.slots[i].live
    requires t.IFrame? || t.PFrame?
    ensures IsPath(s, states, steps, end) && Shaped(end) && end == s.(slots := end.slots)
    ensures forall i :: 0 <= i < N_CLIENT ==>
              end.slots[i] == if i < n then AfterFrame(s.slots[i], t, ok[i], false) else s.slots[i]
  {
    if n == 0 {
      states, steps, end := [s], [], s;
    } else {
      var mid;
      states, steps, mid := WritingIsSteps(s, t, ok, n - 1);
      end := mid.(slots := mid.slots[n - 1 := AfterFrame(mid.slots[n - 1], t, ok[n - 1], false)]);
      states, steps := OneClient(mid, t, ok[n - 1], n - 1, s, states, steps);
    }
  }

  /** The header writes of a call, to the clients below `n` whose write succeeds. */
  ghost function HeaderWrites(ok: seq<bool>, n: nat): seq<Step>
    requires n <= |ok|
  {
    if n == 0 then [] else HeaderWrites(ok, n - 1) + if ok[n - 1] then [WriteHeader(n - 1)] else []
  }

  /** A header is cached, and the writes to the first `n` clients are done. */
  ghost predicate HeaderWritten(s: Chan, ok: seq<bool>, n: nat, mid: Chan)
    requires Shaped(s) && n <= |ok| <= s.nClients
  {
    && Shaped(mid) && mid == s.(slots := mid.slots, header := true, busy := InHeader)
    && forall i :: 0 <= i < N_CLIENT ==>
         mid.slots[i] == if i < n then AfterFrame(s.slots[i], Header, ok[i], !s.header)
                         else if i < s.nClients then Marked(s.slots[i], !s.header) else s.slots[i]
  }

  lemma CacheIsStep(s: Chan, ok: seq<bool>) returns (mid: Chan)
    requires Shaped(s) && s.busy.Free? && s.nClients == |ok|
    ensures IsPath(s, [s] + [mid], [CacheHeader], mid) && HeaderWritten(s, ok, 0, mid)
  {
    var slots := seq(N_CLIENT, i requires 0 <= i < N_CLIENT =>
                       if i < s.nClients then Marked(s.slots[i], !s.header) else s.slots[i]);
    mid := s.(slots := slots, header := true, busy := InHeader);
    assert NextCamera(s, CacheHeader, mid);
    assert [CacheHeader] == [] + [CacheHeader];
  }

  lemma {:induction false} HeaderWritesAreSteps(s: Chan, ok: seq<bool>, n: nat)
    returns (states: seq<Chan>, mid: Chan)
    requires Shaped(s) && s.busy.Free? && n <= s.nClients == |ok|
    requires forall i :: 0 <= i < |ok| && ok[i] ==> s.slots[i].live
    ensures IsPath(s, states, [CacheHeader] + HeaderWrites(ok, n), mid) && HeaderWritten(s, ok, n, mid)
  {
    if n == 0 {
      mid := CacheIsStep(s, ok);
      states := [s] + [mid];
      assert [CacheHeader] + HeaderWrites(ok, 0) == [CacheHeader];
    } else {
      var before;
      states, before := HeaderWritesAreSteps(s, ok, n - 1);
      mid := before;
      if ok[n - 1] {
        mid := before.(slots := before.slots[n - 1 := Logged(before.slots[n - 1], HMeta)]);
        PathGrows(s, states, [CacheHeader] + HeaderWrites(ok, n - 1), before, WriteHeader(n - 1), mid);
        states := states + [mid];
      }
      assert [CacheHeader] + HeaderWrites(ok, n) ==
             [CacheHeader] + HeaderWrites(ok, n - 1) + if ok[n - 1] then [WriteHeader(n - 1)] else [];
    }
  }

  /** Sending a header is a run of the channel's steps: it is cached, and goes to every client it can be written to. */
  lemma SendingHeaderIsSteps(s: Chan, ok: seq<bool>) returns (states: seq<Chan>, end: Chan)
    requires Shaped(s) && s.busy.Free? && s.nClients == |ok|
    requires forall i :: 0 <= i < |ok| && ok[i] ==> s.slots[i].live
    ensures IsPath(s, states, [CacheHeader] + HeaderWrites(ok, |ok|) + [EndHeader], end)
    ensures Shaped(end) && end == s.(slots := end.slots, header := true)
    ensures forall i :: 0 <= i < N_CLIENT ==>
              end.slots[i] == if i < |ok| then AfterFrame(s.slots[i], Header, ok[i], !s.header) else s.slots[i]
  {
    var mid;
    states, mid := HeaderWritesAreSteps(s, ok, |ok|);
    end := mid.(busy := Free);
    PathGrows(s, states, [CacheHeader] + HeaderWrites(ok, |ok|), mid, EndHeader, end);
    states := states + [end];
  }

  class EncodedChannel {
    const acceptingPFrames: array<bool>
    var nClients: nat
    var header: Option<Msg>

    ghost predicate Valid()
      reads this
    {
      acceptingPFrames.Length == N_CLIENT && nClients <= N_CLIENT
    }

    constructor ()
      ensures Valid() && nClients == 0 && header.None? && fresh(acceptingPFrames)
      ensures forall i :: 0 <= i < N_CLIENT ==> !acceptingPFrames[i]
    {
      acceptingPFrames := new bool[N_CLIENT](_ => false);
      nClients := 0;
      header := None;
    }

    /**
     * `metaOk[i]` says whether a write of the metadata to client i would succeed, and
     * `dataOk[i]` whether one of the data after it would; for frames written in one go
     * only `metaOk[i]` counts. `sent[i]` is whether the metadata went to client i through
     * the gate, and `whole[i]` whether the data did too.
     */
    method WriteEncodedFrame(codec: Codec, meta: seq<Byte>, data: seq<Byte>, metaOk: seq<bool>, dataOk: seq<bool>)
      returns (sent: seq<bool>, whole: seq<bool>)
      requires Valid() && |meta| == Messages.CAM_META_LEN && |data| > 4 && |metaOk| == |dataOk| == nClients
      modifies this`header, acceptingPFrames
      ensures Valid()
      ensures header ==
              if TypeOf(codec, data) == Header then Some(Msg(Messages.WithMagic(meta), [data])) else old(header)
      ensures |sent| == |whole| == nClients
      ensures forall i :: 0 <= i < nClients ==>
                (sent[i] <==> metaOk[i] && (TypeOf(codec, data) == PFrame ==> old(acceptingPFrames[i])))
      ensures forall i :: 0 <= i < nClients ==>
                whole[i] == (sent[i] && (TypeOf(codec, data) in {IFrame, PFrame} ==> dataOk[i]))
      ensures forall i :: 0 <= i < N_CLIENT ==>
                acceptingPFrames[i] ==
                if i >= nClients then old(acceptingPFrames[i])
                else Accepts(TypeOf(codec, data), old(acceptingPFrames[i]), metaOk[i])
    {
      sent, whole := metaOk, metaOk;
      match TypeOf(codec, data)
      case Header =>
        header := Some(Msg(Messages.WithMagic(meta), [data]));
        for i := 0 to nClients
          modifies acceptingPFrames
          invariant forall k :: 0 <= k < i ==> !acceptingPFrames[k]
          invariant forall k :: i <= k < N_CLIENT ==> acceptingPFrames[k] == old(acceptingPFrames[k])
        {
          acceptingPFrames[i] := false;
        }
      case PFrame =>
        sent, whole := [], [];
        for i := 0 to nClients
          modifies {}
          invariant |sent| == |whole| == i
          invariant forall k :: 0 <= k < i ==> sent[k] == (metaOk[k] && acceptingPFrames[k])
          invariant forall k :: 0 <= k < i ==> whole[k] == (sent[k] && dataOk[k])
        {
          if !acceptingPFrames[i] {
            sent, whole := sent + [false], whole + [false];
            continue;
          }
          sent := sent + [metaOk[i]];
          whole := whole + [metaOk[i] && dataOk[i]];
        }
      case IFrame =>
        whole := [];
        for i := 0 to nClients
          modifies acceptingPFrames
          invariant |whole| == i
          invariant forall k :: 0 <= k < i ==> whole[k] == (metaOk[k] && dataOk[k])
          invariant forall k :: 0 <= k < i ==> acceptingPFrames[k] == (old(acceptingPFrames[k]) || metaOk[k])
          invariant forall k :: i <= k < N_CLIENT ==> acceptingPFrames[k] == old(acceptingPFrames[k])
        {
          whole := whole + [metaOk[i] && dataOk[i]];
          if metaOk[i] {
            acceptingPFrames[i] := true;
          }
        }
      case Unknown =>
    }
  }
}
