/**
 * The pipe of one client of an encoded channel. Frames go out as two separate
 * writes, metadata and then payload, by the camera thread and, for the cached
 * header, by the thread that added the client.
 */
module EncodedStream {
  import opened Prelude
  import opened FramedPipe

  /** A write that landed: the metadata of a message, or its payload. */
  datatype Write = Meta(m: Msg) | Data(m: Msg)

  /** A writer whose metadata has landed owes the payload. */
  datatype Owing = Nothing | Owes(m: Msg)

  datatype Writer = Camera | Adder

  /** `writes` are all that landed since the session began; `fifo` is what the client has not read yet. */
  datatype Session = Session(fifo: seq<Byte>, writes: seq<Write>, camera: Owing, adder: Owing, client: Client)

  datatype Step =
    | WriteMeta(who: Writer, m: Msg)
    | WriteData(who: Writer)
    | WriteBoth(m: Msg)
    | CacheHeader(m: Msg)
    | Read

  function Bytes(w: Write): seq<Byte> {
    if w.Meta? then w.m.meta else Payload(w.m)
  }

  function Sent(ws: seq<Write>): seq<Byte> {
    if |ws| == 0 then [] else Bytes(ws[0]) + Sent(ws[1..])
  }

  function Owed(s: Session, who: Writer): Owing {
    if who.Camera? then s.camera else s.adder
  }

  function SetOwed(s: Session, who: Writer, owing: Owing): Session {
    if who.Camera? then s.(camera := owing) else s.(adder := owing)
  }

  function Landed(s: Session, w: Write): Session {
    s.(fifo := s.fifo + Bytes(w), writes := s.writes + [w])
  }

  predicate HasRoom(cap: nat, s: Session, length: nat) {
    |s.fifo| + length <= cap
  }

  /** One read of the helper thread; a pipe returns all there is, up to what was asked for. */
  function AfterRead(p: Proto, s: Session): (s': Session)
    requires ClientOk(p, s.client) && s.fifo != []
    ensures s'.writes == s.writes && |s'.fifo| < |s.fifo|
  {
    var n := Min(|s.fifo|, Wanted(p, s.client));
    s.(fifo := if Flushes(p, s.client, s.fifo[..n]) then [] else s.fifo[n..],
       client := OnRead(p, s.client, s.fifo[..n]))
  }

  /** A message the server can be asked to write; whether the client accepts it is another matter. */
  ghost predicate IsMsg(p: Proto, m: Msg) {
    |m.meta| == p.metaLen > 0 && Payload(m) != []
  }

  /** The client's check answers the payload's size. */
  predicate Passes(p: Proto, m: Msg) {
    p.check(m.meta) == Some(|Payload(m)|)
  }

  /**
   * A session begins with an empty pipe and a reader that has read nothing. A writer may be
   * between the two writes of a message that it began with the slot's previous client.
   */
  ghost predicate Init(p: Proto, s: Session) {
    && s.fifo == [] && s.writes == []
    && (s.camera.Owes? ==> IsMsg(p, s.camera.m))
    && (s.adder.Owes? ==> IsMsg(p, s.adder.m))
    && |s.client.metaBuf| == p.metaLen > 0
    && s.client.phase == WantMeta && s.client.delivered == []
  }

  /**
   * A write without room is refused whole, and after refused metadata no payload is tried.
   * The adder takes the payload from the cache when it gets there, whatever is cached by then.
   */
  ghost predicate Next(p: Proto, cap: nat, s: Session, step: Step, s': Session) {
    match step
    case WriteMeta(who, m) =>
      && Owed(s, who).Nothing?
      && s' == if HasRoom(cap, s, |m.meta|) then SetOwed(Landed(s, Meta(m)), who, Owes(m)) else s
    case WriteData(who) =>
      && Owed(s, who).Owes?
      && var m := Owed(s, who).m;
         s' == SetOwed(if HasRoom(cap, s, |Payload(m)|) then Landed(s, Data(m)) else s, who, Nothing)
    case WriteBoth(m) =>
      && s.camera.Nothing?
      && s' == if HasRoom(cap, s, |m.meta| + |Payload(m)|) then Landed(Landed(s, Meta(m)), Data(m)) else s
    case CacheHeader(m) =>
      s.camera.Nothing? && s' == if s.adder.Owes? then s.(adder := Owes(m)) else s
    case Read =>
      ClientOk(p, s.client) && s.fifo != [] && s' == AfterRead(p, s)
  }

  ghost predicate IsRun(p: Proto, cap: nat, states: seq<Session>, steps: seq<Step>) {
    && |states| == |steps| + 1
    && Init(p, states[0])
    && (forall k :: 0 <= k < |steps| ==> Next(p, cap, states[k], steps[k], states[k + 1]))
    && (forall k :: 0 <= k < |steps| && !steps[k].WriteData? && !steps[k].Read? ==> IsMsg(p, steps[k].m))
  }

  // ---------------------------------------------------------------------------
  // Being in step

  /**
   * Write `q` is what the one before calls for: its payload behind metadata, and otherwise
   * metadata that passes the check.
   */
  ghost predicate Follows(p: Proto, ws: seq<Write>, q: nat)
    requires q < |ws|
  {
    if q > 0 && ws[q - 1].Meta? then ws[q].Data? && Payload(ws[q].m) == Payload(ws[q - 1].m)
    else ws[q].Meta? && Passes(p, ws[q].m)
  }

  /** All metadata passes, all but the last write's is followed by its payload, and nothing else is written. */
  ghost predicate Paired(p: Proto, ws: seq<Write>) {
    forall q: nat :: q < |ws| ==> Follows(p, ws, q)
  }

  /** The same of the writes from `q` on. */
  ghost predicate PairedFrom(p: Proto, ws: seq<Write>, q: nat) {
    forall j: nat :: q <= j < |ws| ==> Follows(p, ws, j)
  }

  /** What the callback gets from writes that are read one at a time. */
  ghost function Deliveries(ws: seq<Write>): seq<Delivery> {
    if |ws| == 0 then []
    else
      var last := |ws| - 1;
      Deliveries(ws[..last]) +
      if last > 0 && ws[last - 1].Meta? then [Delivery(ws[last - 1].m.meta, Payload(ws[last].m), 1)] else []
  }

  /** The client has read exactly the first `q` writes, and took each for what it is. */
  ghost predicate Position(p: Proto, s: Session, q: nat) {
    && ClientOk(p, s.client)
    && q <= |s.writes|
    && s.fifo == Sent(s.writes[q..])
    && s.client.delivered == Deliveries(s.writes[..q])
    && if q > 0 && s.writes[q - 1].Meta? then
         && s.client.metaBuf == s.writes[q - 1].m.meta
         && s.client.phase == WantPayload(|Payload(s.writes[q - 1].m)|, [], 0)
       else s.client.phase == WantMeta
  }

  /** And the next write there is to read is what the client wants to read. */
  ghost predicate InStep(p: Proto, s: Session) {
    exists q: nat :: Position(p, s, q) && (q < |s.writes| ==> Follows(p, s.writes, q))
  }

  /** The client is in step, and stays so while it reads what is in the pipe. */
  ghost predicate StaysInStep(p: Proto, s: Session)
    decreases |s.fifo|
  {
    InStep(p, s) && (s.fifo != [] ==> ClientOk(p, s.client) && StaysInStep(p, AfterRead(p, s)))
  }

  ghost predicate AllMsgs(p: Proto, ws: seq<Write>) {
    forall i :: 0 <= i < |ws| ==> IsMsg(p, ws[i].m)
  }

  /** The longer ago a write landed, the more is there to read from it on. */
  lemma {:induction false} SentShrinks(p: Proto, ws: seq<Write>, c: nat, d: nat)
    requires AllMsgs(p, ws) && c < d <= |ws|
    ensures |Sent(ws[c..])| > |Sent(ws[d..])|
    decreases d - c
  {
    assert ws[c..][1..] == ws[c + 1..];
    if c + 1 < d {
      SentShrinks(p, ws, c + 1, d);
    }
  }

  lemma {:induction false} SentGrows(ws: seq<Write>, w: Write)
    ensures Sent(ws + [w]) == Sent(ws) + Bytes(w)
  {
    if |ws| == 0 {
      assert ws + [w] == [w];
    } else {
      SentGrows(ws[1..], w);
      Associate(Bytes(ws[0]), Sent(ws[1..]), Bytes(w));
      assert (ws + [w])[1..] == ws[1..] + [w];
    }
  }

  lemma PositionIsUnique(p: Proto, s: Session, q: nat, r: nat)
    requires AllMsgs(p, s.writes) && Position(p, s, q) && Position(p, s, r)
    ensures q == r
  {
    if q < r {
      SentShrinks(p, s.writes, q, r);
    } else if r < q {
      SentShrinks(p, s.writes, r, q);
    }
  }

  lemma InStepHere(p: Proto, s: Session, q: nat)
    requires AllMsgs(p, s.writes) && Position(p, s, q)
    ensures InStep(p, s) <==> (q < |s.writes| ==> Follows(p, s.writes, q))
  {
    if InStep(p, s) {
      var r: nat :| Position(p, s, r) && (r < |s.writes| ==> Follows(p, s.writes, r));
      PositionIsUnique(p, s, q, r);
    }
  }

  /** The next write lies at the head of the pipe. */
  lemma HeadOfPipe(ws: seq<Write>, q: nat)
    requires q < |ws|
    ensures Sent(ws[q..]) == Bytes(ws[q]) + Sent(ws[q + 1..])
    ensures Sent(ws[q..])[..|Bytes(ws[q])|] == Bytes(ws[q]) && Sent(ws[q..])[|Bytes(ws[q])|..] == Sent(ws[q + 1..])
    ensures Deliveries(ws[..q + 1]) ==
            Deliveries(ws[..q]) +
            if q > 0 && ws[q - 1].Meta? then [Delivery(ws[q - 1].m.meta, Payload(ws[q].m), 1)] else []
  {
    assert ws[q..][1..] == ws[q + 1..];
    assert ws[..q + 1][..q] == ws[..q];
  }

  lemma TakesMetadata(p: Proto, s: Session, m: Msg, rest: seq<Byte>)
    requires ClientOk(p, s.client) && IsMsg(p, m) && s.client.phase.WantMeta? && Passes(p, m) && s.fifo == m.meta + rest
    ensures s.fifo != [] && AfterRead(p, s) ==
            s.(fifo := rest, client := Client(m.meta, WantPayload(|Payload(m)|, [], 0), s.client.delivered))
  {
    assert s.fifo[..|m.meta|] == m.meta && s.fifo[|m.meta|..] == rest;
    assert m.meta + s.client.metaBuf[|m.meta|..] == m.meta;
  }

  lemma TakesPayload(p: Proto, s: Session, payload: seq<Byte>, rest: seq<Byte>)
    requires ClientOk(p, s.client) && s.client.phase == WantPayload(|payload|, [], 0) && s.fifo == payload + rest
    ensures s.fifo != [] && AfterRead(p, s) ==
            s.(fifo := rest,
               client := Client(s.client.metaBuf, WantMeta,
                                s.client.delivered + [Delivery(s.client.metaBuf, payload, 1)]))
  {
    assert s.fifo[..|payload|] == payload && s.fifo[|payload|..] == rest && [] + payload == payload;
  }

  /** A client in step takes exactly one write with each read. */
  lemma ReadTakesOneWrite(p: Proto, s: Session, q: nat)
    requires AllMsgs(p, s.writes) && Position(p, s, q) && q < |s.writes| && Follows(p, s.writes, q)
    ensures s.fifo != [] && Position(p, AfterRead(p, s), q + 1)
  {
    var w := s.writes[q];
    HeadOfPipe(s.writes, q);
    if w.Meta? {
      TakesMetadata(p, s, w.m, Sent(s.writes[q + 1..]));
    } else {
      TakesPayload(p, s, Payload(w.m), Sent(s.writes[q + 1..]));
    }
  }

  /** Metadata is taken for what it is if and only if it passes the check. */
  lemma MetadataTakenExactly(p: Proto, s: Session, q: nat)
    requires AllMsgs(p, s.writes) && Position(p, s, q) && q < |s.writes|
    requires s.client.phase.WantMeta? && s.writes[q].Meta?
    ensures s.fifo != [] && (Position(p, AfterRead(p, s), q + 1) <==> Passes(p, s.writes[q].m))
  {
    var w := s.writes[q];
    assert s.writes[q..][1..] == s.writes[q + 1..];
    assert s.fifo == Bytes(w) + Sent(s.writes[q + 1..]);
    assert s.fifo[..|Bytes(w)|] == Bytes(w);
    assert Bytes(w) + s.client.metaBuf[|Bytes(w)|..] == w.m.meta;
    if Passes(p, w.m) {
      ReadTakesOneWrite(p, s, q);
    }
  }

  /** From a position on, the client stays in step if and only if each write calls for the next. */
  lemma {:induction false} StaysInStepFrom(p: Proto, s: Session, q: nat)
    requires AllMsgs(p, s.writes) && Position(p, s, q)
    ensures StaysInStep(p, s) <==> PairedFrom(p, s.writes, q)
    decreases |s.writes| - q
  {
    InStepHere(p, s, q);
    if q == |s.writes| {
      assert s.fifo == [];
    } else if Follows(p, s.writes, q) {
      ReadTakesOneWrite(p, s, q);
      var s' := AfterRead(p, s);
      StaysInStepFrom(p, s', q + 1);
      OneMorePaired(p, s.writes, q);
      assert StaysInStep(p, s) <==> StaysInStep(p, s');
    }
  }

  lemma OneMorePaired(p: Proto, ws: seq<Write>, q: nat)
    requires q < |ws| && Follows(p, ws, q)
    ensures PairedFrom(p, ws, q) <==> PairedFrom(p, ws, q + 1)
  {
  }

  // ---------------------------------------------------------------------------
  // Runs

  lemma LandedKeepsPosition(p: Proto, s: Session, w: Write, q: nat)
    requires Position(p, s, q)
    ensures Position(p, Landed(s, w), q)
  {
    SentGrows(s.writes[q..], w);
    assert (s.writes + [w])[q..] == s.writes[q..] + [w];
    assert (s.writes + [w])[..q] == s.writes[..q];
  }

  /** The writer's turn changes neither what there is to read nor the reader. */
  lemma WritingKeepsPosition(p: Proto, cap: nat, s: Session, step: Step, s': Session, q: nat)
    requires Next(p, cap, s, step, s') && !step.Read? && Position(p, s, q)
    ensures Position(p, s', q)
  {
    match step
    case WriteMeta(who, m) => LandedKeepsPosition(p, s, Meta(m), q);
    case WriteData(who) => LandedKeepsPosition(p, s, Data(Owed(s, who).m), q);
    case CacheHeader(m) =>
    case WriteBoth(m) =>
      LandedKeepsPosition(p, s, Meta(m), q);
      LandedKeepsPosition(p, Landed(s, Meta(m)), Data(m), q);
  }

  ghost predicate HasMsgs(p: Proto, s: Session) {
    && AllMsgs(p, s.writes)
    && (s.camera.Owes? ==> IsMsg(p, s.camera.m))
    && (s.adder.Owes? ==> IsMsg(p, s.adder.m))
  }

  lemma {:induction false} RunHasMsgs(p: Proto, cap: nat, states: seq<Session>, steps: seq<Step>, k: nat)
    requires IsRun(p, cap, states, steps) && k < |states|
    ensures HasMsgs(p, states[k])
  {
    if k > 0 {
      RunHasMsgs(p, cap, states, steps, k - 1);
      assert Next(p, cap, states[k - 1], steps[k - 1], states[k]);
    }
  }

  lemma StepStaysInStep(p: Proto, cap: nat, s: Session, step: Step, s': Session, q: nat) returns (r: nat)
    requires Next(p, cap, s, step, s') && AllMsgs(p, s.writes) && AllMsgs(p, s'.writes)
    requires Paired(p, s.writes) && Position(p, s, q)
    ensures StaysInStep(p, s') <==> Paired(p, s'.writes)
    ensures Position(p, s', r)
  {
    if step.Read? {
      ReadTakesOneWrite(p, s, q);
      r := q + 1;
    } else {
      WritingKeepsPosition(p, cap, s, step, s', q);
      r := q;
    }
    WritesGrow(p, cap, s, step, s');
    StaysInStepFrom(p, s', r);
  }

  lemma StartsInStep(p: Proto, s: Session)
    requires Init(p, s)
    ensures Position(p, s, 0) && Paired(p, s.writes) && StaysInStep(p, s)
  {
    StaysInStepFrom(p, s, 0);
  }

  /** The client was in step at every moment up to `k`. */
  ghost predicate AlwaysInStep(p: Proto, states: seq<Session>, k: nat)
    requires k < |states|
  {
    forall i :: 0 <= i <= k ==> StaysInStep(p, states[i])
  }

  /**
   * In every run: the client is in step at every moment, with everything still in the
   * pipe, if and only if the writes that landed are paired; then what it has got are
   * the messages whose payload it has read, byte for byte.
   */
  lemma {:induction false} InStepExactly(p: Proto, cap: nat, states: seq<Session>, steps: seq<Step>, k: nat)
    returns (q: nat)
    requires IsRun(p, cap, states, steps) && k < |states|
    ensures AlwaysInStep(p, states, k) <==> Paired(p, states[k].writes)
    ensures Paired(p, states[k].writes) ==> Position(p, states[k], q)
  {
    RunHasMsgs(p, cap, states, steps, k);
    if k == 0 {
      q := 0;
      StartsInStep(p, states[0]);
    } else {
      q := InStepExactly(p, cap, states, steps, k - 1);
      var s, s' := states[k - 1], states[k];
      assert Next(p, cap, s, steps[k - 1], s');
      assert AlwaysInStep(p, states, k) <==> AlwaysInStep(p, states, k - 1) && StaysInStep(p, s');
      WritesGrow(p, cap, s, steps[k - 1], s');
      if Paired(p, s.writes) {
        RunHasMsgs(p, cap, states, steps, k - 1);
        q := StepStaysInStep(p, cap, s, steps[k - 1], s', q);
      }
    }
  }

  lemma WritesGrow(p: Proto, cap: nat, s: Session, step: Step, s': Session)
    requires Next(p, cap, s, step, s')
    ensures s.writes <= s'.writes
    ensures Paired(p, s'.writes) ==> Paired(p, s.writes)
    ensures Paired(p, s.writes) ==> forall j: nat :: j < |s.writes| ==> Follows(p, s'.writes, j)
  {
    assert forall j: nat :: j < |s.writes| ==> (Follows(p, s.writes, j) <==> Follows(p, s'.writes, j));
  }

  // ---------------------------------------------------------------------------
  // What the writers have to do with it

  predicate EndsInMeta(ws: seq<Write>) {
    |ws| > 0 && ws[|ws| - 1].Meta?
  }

  /**
   * Metadata lands behind metadata whose payload has not landed, or does not pass the
   * client's check; or a payload lands that is not the one the latest write calls for.
   */
  predicate Tangles(p: Proto, cap: nat, s: Session, step: Step) {
    match step
    case WriteMeta(_, m) => HasRoom(cap, s, |m.meta|) && (EndsInMeta(s.writes) || !Passes(p, m))
    case WriteBoth(m) => HasRoom(cap, s, |m.meta| + |Payload(m)|) && (EndsInMeta(s.writes) || !Passes(p, m))
    case WriteData(who) =>
      && Owed(s, who).Owes?
      && var payload := Payload(Owed(s, who).m);
         HasRoom(cap, s, |payload|) && !(EndsInMeta(s.writes) && payload == Payload(s.writes[|s.writes| - 1].m))
    case _ => false
  }

  lemma LandingPairsExactly(p: Proto, ws: seq<Write>, w: Write)
    requires Paired(p, ws)
    ensures Paired(p, ws + [w]) <==> Follows(p, ws + [w], |ws|)
  {
    assert forall q: nat :: q < |ws| ==> (Follows(p, ws, q) <==> Follows(p, ws + [w], q));
  }

  lemma StepPairsExactly(p: Proto, cap: nat, s: Session, step: Step, s': Session)
    requires Next(p, cap, s, step, s') && Paired(p, s.writes)
    ensures Paired(p, s'.writes) <==> !Tangles(p, cap, s, step)
  {
    match step
    case WriteMeta(_, m) => LandingPairsExactly(p, s.writes, Meta(m));
    case WriteData(who) => LandingPairsExactly(p, s.writes, Data(Owed(s, who).m));
    case WriteBoth(m) =>
      if HasRoom(cap, s, |m.meta| + |Payload(m)|) {
        LandingPairsExactly(p, s.writes, Meta(m));
        if Paired(p, s.writes + [Meta(m)]) {
          LandingPairsExactly(p, s.writes + [Meta(m)], Data(m));
        } else {
          WritesGrow(p, cap, s, step, s');
          assert !Follows(p, s'.writes, |s.writes|);
        }
      }
    case CacheHeader(_) =>
    case Read =>
  }

  /** Up to moment `k` nothing landed that did not follow. */
  ghost predicate NoTangles(p: Proto, cap: nat, states: seq<Session>, steps: seq<Step>, k: nat)
    requires k <= |steps| <= |states|
  {
    forall j :: 0 <= j < k ==> !Tangles(p, cap, states[j], steps[j])
  }

  lemma {:induction false} PairedExactly(p: Proto, cap: nat, states: seq<Session>, steps: seq<Step>, k: nat)
    requires IsRun(p, cap, states, steps) && k < |states|
    ensures Paired(p, states[k].writes) <==> NoTangles(p, cap, states, steps, k)
  {
    if k > 0 {
      PairedExactly(p, cap, states, steps, k - 1);
      var s, step, s' := states[k - 1], steps[k - 1], states[k];
      assert NoTangles(p, cap, states, steps, k) <==>
             NoTangles(p, cap, states, steps, k - 1) && !Tangles(p, cap, s, step);
      WritesGrow(p, cap, s, step, s');
      if Paired(p, s.writes) {
        StepPairsExactly(p, cap, s, step, s');
      }
    }
  }

  /**
   * A client stays in step throughout a run if and only if all that lands is metadata
   * that passes its check and, before any other write, the payload of each: no writer
   * was in the middle of a message when the session began and then went on, neither came
   * between the two writes of the other, after a refused payload nothing more was
   * written, and no header was replaced between its metadata and its payload.
   */
  lemma StaysInStepExactly(p: Proto, cap: nat, states: seq<Session>, steps: seq<Step>, k: nat)
    requires IsRun(p, cap, states, steps) && k < |states|
    ensures AlwaysInStep(p, states, k) <==> NoTangles(p, cap, states, steps, k)
  {
    var q := InStepExactly(p, cap, states, steps, k);
    PairedExactly(p, cap, states, steps, k);
  }

  /** The first thing that does not follow puts the client out of step. */
  lemma LastTangles(p: Proto, cap: nat, states: seq<Session>, steps: seq<Step>)
    requires IsRun(p, cap, states, steps) && steps != [] && NoTangles(p, cap, states, steps, |steps| - 1)
    requires Tangles(p, cap, states[|steps| - 1], steps[|steps| - 1])
    ensures !StaysInStep(p, states[|steps|])
  {
    StaysInStepExactly(p, cap, states, steps, |steps| - 1);
    StaysInStepExactly(p, cap, states, steps, |steps|);
  }

  /** The payload of a frame begun with the slot's previous client. */
  lemma StalePayload(p: Proto, cap: nat, c: Client, frame: Msg) returns (states: seq<Session>, steps: seq<Step>)
    requires Init(p, Session([], [], Owes(frame), Nothing, c)) && |Payload(frame)| <= cap
    ensures IsRun(p, cap, states, steps) && steps == [WriteData(Camera)]
    ensures states[0] == Session([], [], Owes(frame), Nothing, c) && !StaysInStep(p, states[1])
  {
    var s0 := Session([], [], Owes(frame), Nothing, c);
    var s1 := SetOwed(Landed(s0, Data(frame)), Camera, Nothing);
    states, steps := [s0, s1], [WriteData(Camera)];
    LastTangles(p, cap, states, steps);
  }

  /** A header written between the two writes of a frame. */
  lemma HeaderInBetween(p: Proto, cap: nat, c: Client, frame: Msg, header: Msg)
    returns (states: seq<Session>, steps: seq<Step>)
    requires Init(p, Session([], [], Nothing, Nothing, c))
    requires IsMsg(p, frame) && Passes(p, frame) && IsMsg(p, header) && cap >= 2 * p.metaLen
    ensures IsRun(p, cap, states, steps) && steps == [WriteMeta(Camera, frame), WriteMeta(Adder, header)]
    ensures !StaysInStep(p, states[|steps|])
  {
    var s0 := Session([], [], Nothing, Nothing, c);
    var s1 := SetOwed(Landed(s0, Meta(frame)), Camera, Owes(frame));
    var s2 := SetOwed(Landed(s1, Meta(header)), Adder, Owes(header));
    states, steps := [s0, s1, s2], [WriteMeta(Camera, frame), WriteMeta(Adder, header)];
    LastTangles(p, cap, states, steps);
  }

  /** A payload refused after its metadata, and the next frame. */
  lemma RefusedPayload(p: Proto, cap: nat, c: Client, frame: Msg, next: Msg)
    returns (states: seq<Session>, steps: seq<Step>)
    requires Init(p, Session([], [], Nothing, Nothing, c))
    requires IsMsg(p, frame) && Passes(p, frame) && IsMsg(p, next)
    requires 2 * p.metaLen <= cap < p.metaLen + |Payload(frame)|
    ensures IsRun(p, cap, states, steps)
    ensures steps == [WriteMeta(Camera, frame), WriteData(Camera), WriteMeta(Camera, next)]
    ensures !StaysInStep(p, states[|steps|])
  {
    var s0 := Session([], [], Nothing, Nothing, c);
    var s1 := SetOwed(Landed(s0, Meta(frame)), Camera, Owes(frame));
    var s2 := SetOwed(s1, Camera, Nothing);
    var s3 := SetOwed(Landed(s2, Meta(next)), Camera, Owes(next));
    states, steps := [s0, s1, s2, s3], [WriteMeta(Camera, frame), WriteData(Camera), WriteMeta(Camera, next)];
    LastTangles(p, cap, states, steps);
  }

  /** A header cached while the adder is between the metadata and the payload of the one before. */
  lemma HeaderReplaced(p: Proto, cap: nat, c: Client, header: Msg, newer: Msg)
    returns (states: seq<Session>, steps: seq<Step>)
    requires Init(p, Session([], [], Nothing, Nothing, c))
    requires IsMsg(p, header) && Passes(p, header) && IsMsg(p, newer)
    requires Payload(newer) != Payload(header) && cap >= p.metaLen + |Payload(newer)|
    ensures IsRun(p, cap, states, steps)
    ensures steps == [WriteMeta(Adder, header), CacheHeader(newer), WriteData(Adder)]
    ensures !StaysInStep(p, states[|steps|])
  {
    var s0 := Session([], [], Nothing, Nothing, c);
    var s1 := SetOwed(Landed(s0, Meta(header)), Adder, Owes(header));
    var s2 := SetOwed(s1, Adder, Owes(newer));
    var s3 := SetOwed(Landed(s2, Data(newer)), Adder, Nothing);
    states, steps := [s0, s1, s2, s3], [WriteMeta(Adder, header), CacheHeader(newer), WriteData(Adder)];
    LastTangles(p, cap, states, steps);
  }

  /** Metadata that the client's check turns down. */
  lemma RejectedMetadata(p: Proto, cap: nat, c: Client, frame: Msg) returns (states: seq<Session>, steps: seq<Step>)
    requires Init(p, Session([], [], Nothing, Nothing, c))
    requires IsMsg(p, frame) && !Passes(p, frame) && p.metaLen <= cap
    ensures IsRun(p, cap, states, steps) && steps == [WriteMeta(Camera, frame)]
    ensures !StaysInStep(p, states[|steps|])
  {
    var s0 := Session([], [], Nothing, Nothing, c);
    var s1 := SetOwed(Landed(s0, Meta(frame)), Camera, Owes(frame));
    states, steps := [s0, s1], [WriteMeta(Camera, frame)];
    LastTangles(p, cap, states, steps);
  }
}
