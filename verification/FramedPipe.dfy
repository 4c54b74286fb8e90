/**
 * One data pipe between a server that sends (metadata, payload) messages as list
 * writes and a helper thread that cuts the byte stream back into messages. The
 * server's buffers go into the pipe one write at a time and the client may read
 * between any two of them.
 */
module FramedPipe {
  import opened Prelude

  /** How often the helper tries to complete one payload. */
  const MAX_TRIES := 10

  /** `check` is what the metadata check answers: the payload size to read, or a rejection. */
  datatype Proto = Proto(metaLen: nat, check: seq<Byte> -> Option<int>)

  /** A message as the server writes it: the metadata, then the payload in one or more buffers. */
  datatype Msg = Msg(meta: seq<Byte>, chunks: seq<seq<Byte>>)

  /** What the camera or point cloud callback receives, and how many payload reads it took. */
  datatype Delivery = Delivery(meta: seq<Byte>, data: seq<Byte>, nReads: nat)

  function Flatten(bufs: seq<seq<Byte>>): seq<Byte> {
    if |bufs| == 0 then [] else bufs[0] + Flatten(bufs[1..])
  }

  function Payload(m: Msg): seq<Byte> {
    Flatten(m.chunks)
  }

  /** The buffers of one list write. */
  function Bufs(m: Msg): seq<seq<Byte>> {
    [m.meta] + m.chunks
  }

  function Wire(ms: seq<Msg>): seq<Byte> {
    if |ms| == 0 then [] else Flatten(Bufs(ms[0])) + Wire(ms[1..])
  }

  /** Metadata that passes the client's check, and non-empty payload buffers, at most ten. */
  ghost predicate Sound(p: Proto, m: Msg) {
    && |m.meta| == p.metaLen > 0
    && 0 < |m.chunks| <= MAX_TRIES
    && (forall i :: 0 <= i < |m.chunks| ==> |m.chunks[i]| > 0)
    && p.check(m.meta) == Some(|Payload(m)|)
  }

  ghost predicate AllSound(p: Proto, ms: seq<Msg>) {
    forall i :: 0 <= i < |ms| ==> Sound(p, ms[i])
  }

  // ---------------------------------------------------------------------------
  // The helper thread

  datatype Phase = WantMeta | WantPayload(need: nat, got: seq<Byte>, tries: nat)

  /** `metaBuf` is the metadata struct the thread reads into over and over. */
  datatype Client = Client(metaBuf: seq<Byte>, phase: Phase, delivered: seq<Delivery>)

  ghost predicate ClientOk(p: Proto, c: Client) {
    && |c.metaBuf| == p.metaLen > 0
    && (c.phase.WantPayload? ==> |c.phase.got| < c.phase.need && c.phase.tries < MAX_TRIES)
  }

  /** How many bytes the next read asks for. */
  function Wanted(p: Proto, c: Client): int {
    if c.phase.WantMeta? then p.metaLen else c.phase.need - |c.phase.got|
  }

  /** A rejected metadata makes the thread throw away what is in the pipe. */
  predicate Flushes(p: Proto, c: Client, data: seq<Byte>) {
    c.phase.WantMeta? && |data| <= |c.metaBuf| && p.check(data + c.metaBuf[|data|..]).None?
  }

  /** The thread after a read that returned `data`. */
  function OnRead(p: Proto, c: Client, data: seq<Byte>): (c': Client)
    requires ClientOk(p, c) && 0 < |data| <= Wanted(p, c)
    ensures ClientOk(p, c')
  {
    if c.phase.WantMeta? then
      var meta := data + c.metaBuf[|data|..];
      var size := p.check(meta);
      if size.Some? && size.value > 0 then Client(meta, WantPayload(size.value, [], 0), c.delivered)
      else if size == Some(0) then Client(meta, WantMeta, c.delivered + [Delivery(meta, [], 0)])
      else Client(meta, WantMeta, c.delivered)
    else
      var got := c.phase.got + data;
      var tries := c.phase.tries + 1;
      if |got| == c.phase.need then
        Client(c.metaBuf, WantMeta, c.delivered + [Delivery(c.metaBuf, got, tries)])
      else if tries == MAX_TRIES then
        Client(c.metaBuf, WantMeta, c.delivered)
      else
        Client(c.metaBuf, WantPayload(c.phase.need, got, tries), c.delivered)
  }

  // ---------------------------------------------------------------------------
  // Server, pipe and client together

  /**
   * `pending` is what the list write in progress has not written yet; `accepted`
   * lists the messages whose list write passed the capacity check.
   */
  datatype Link = Link(fifo: seq<Byte>, pending: seq<seq<Byte>>, accepted: seq<Msg>, up: bool, client: Client)

  datatype Step =
    | Offer(m: Msg)
    | WriteOne
    | HangUp
    | Read(n: nat)

  ghost predicate Init(p: Proto, s: Link) {
    && s.fifo == [] && s.pending == [] && s.accepted == [] && s.up
    && |s.client.metaBuf| == p.metaLen > 0
    && s.client.phase == WantMeta && s.client.delivered == []
  }

  /** The all-or-nothing capacity check of a list write. */
  predicate Fits(cap: nat, fifo: seq<Byte>, bufs: seq<seq<Byte>>) {
    |Flatten(bufs)| <= cap - |fifo|
  }

  ghost predicate Next(p: Proto, cap: nat, s: Link, step: Step, s': Link) {
    match step
    case Offer(m) =>
      && s.up && s.pending == []
      && s' == if Fits(cap, s.fifo, Bufs(m)) then s.(pending := Bufs(m), accepted := s.accepted + [m]) else s
    case WriteOne =>
      && s.up && s.pending != []
      && s' == s.(fifo := s.fifo + s.pending[0], pending := s.pending[1..])
    case HangUp =>
      s' == s.(up := false)
    case Read(n) =>
      && ClientOk(p, s.client)
      && 0 < n <= |s.fifo| && n <= Wanted(p, s.client)
      && s' == s.(fifo := if Flushes(p, s.client, s.fifo[..n]) then [] else s.fifo[n..],
                  client := OnRead(p, s.client, s.fifo[..n]))
  }

  ghost predicate IsRun(p: Proto, cap: nat, states: seq<Link>, steps: seq<Step>) {
    && |states| == |steps| + 1
    && Init(p, states[0])
    && (forall k :: 0 <= k < |steps| ==> Next(p, cap, states[k], steps[k], states[k + 1]))
    && (forall k :: 0 <= k < |steps| && steps[k].Offer? ==> Sound(p, steps[k].m))
  }

  /** What a pipe does: a read returns all there is, up to what was asked for. */
  ghost predicate Greedy(p: Proto, s: Link, step: Step) {
    step.Read? ==> step.n == Min(|s.fifo|, Wanted(p, s.client))
  }

  /** Any read at all, as long as metadata comes whole and the tenth try completes the payload. */
  ghost predicate Framing(p: Proto, s: Link, step: Step) {
    step.Read? ==>
      if s.client.phase.WantMeta? then step.n == p.metaLen
      else s.client.phase.tries + 1 < MAX_TRIES || step.n == Wanted(p, s.client)
  }

  // ---------------------------------------------------------------------------
  // Facts about byte streams

  lemma Associate(a: seq<Byte>, b: seq<Byte>, c: seq<Byte>)
    ensures a + (b + c) == a + b + c
  {
  }

  lemma {:induction false} FlattenAppend(a: seq<seq<Byte>>, b: seq<seq<Byte>>)
    ensures Flatten(a + b) == Flatten(a) + Flatten(b)
  {
    if |a| == 0 {
      assert a + b == b;
    } else {
      FlattenAppend(a[1..], b);
      assert (a + b)[1..] == a[1..] + b;
      Associate(a[0], Flatten(a[1..]), Flatten(b));
    }
  }

  lemma {:induction false} WireAppend(ms: seq<Msg>, m: Msg)
    ensures Wire(ms + [m]) == Wire(ms) + Flatten(Bufs(m))
  {
    if |ms| == 0 {
      assert ms + [m] == [m];
    } else {
      WireAppend(ms[1..], m);
      assert (ms + [m])[1..] == ms[1..] + [m];
    }
  }

  lemma FlattenSplit(bufs: seq<seq<Byte>>, k: nat)
    requires k <= |bufs|
    ensures Flatten(bufs) == Flatten(bufs[..k]) + Flatten(bufs[k..])
  {
    assert bufs == bufs[..k] + bufs[k..];
    FlattenAppend(bufs[..k], bufs[k..]);
  }

  lemma BufsFlatten(m: Msg)
    ensures Flatten(Bufs(m)) == m.meta + Payload(m)
  {
    assert Bufs(m)[1..] == m.chunks;
  }

  /** Fewer non-empty buffers make strictly fewer bytes. */
  lemma {:induction false} FlattenGrows(bufs: seq<seq<Byte>>, c: nat, d: nat)
    requires c <= d <= |bufs| && forall i :: 0 <= i < |bufs| ==> |bufs[i]| > 0
    ensures |Flatten(bufs[..c])| <= |Flatten(bufs[..d])|
    ensures c < d ==> |Flatten(bufs[..c])| < |Flatten(bufs[..d])|
    decreases d - c
  {
    if c < d {
      FlattenGrows(bufs, c, d - 1);
      assert bufs[..d] == bufs[..d - 1] + [bufs[d - 1]];
      FlattenAppend(bufs[..d - 1], [bufs[d - 1]]);
      assert Flatten([bufs[d - 1]]) == bufs[d - 1] + [];
    }
  }

  lemma {:induction false} LastInWire(ms: seq<Msg>)
    requires |ms| > 0
    ensures |Flatten(Bufs(ms[|ms| - 1]))| <= |Wire(ms)|
  {
    assert ms == ms[..|ms| - 1] + [ms[|ms| - 1]];
    WireAppend(ms[..|ms| - 1], ms[|ms| - 1]);
  }

  // ---------------------------------------------------------------------------
  // The framing invariant

  /** What the client has taken of the message it is in the middle of. */
  ghost function Partial(s: Link): seq<Byte> {
    if s.client.phase.WantMeta? then [] else s.client.metaBuf + s.client.phase.got
  }

  /** Everything that is on its way to the callback or still to be written. */
  ghost function Stream(s: Link): seq<Byte> {
    Partial(s) + s.fifo + Flatten(s.pending)
  }

  ghost predicate Matches(d: Delivery, m: Msg) {
    d.meta == m.meta && d.data == Payload(m)
  }

  ghost predicate IsPrefix(delivered: seq<Delivery>, accepted: seq<Msg>) {
    && |delivered| <= |accepted|
    && forall i :: 0 <= i < |delivered| ==> Matches(delivered[i], accepted[i])
  }

  ghost predicate DeliveredPrefix(s: Link) {
    IsPrefix(s.client.delivered, s.accepted)
  }

  ghost function Rest(s: Link): seq<Msg>
    requires DeliveredPrefix(s)
  {
    s.accepted[|s.client.delivered|..]
  }

  /** The unwritten buffers are the tail of the last accepted message. */
  ghost predicate IsTail(pending: seq<seq<Byte>>, accepted: seq<Msg>) {
    pending != [] ==>
      && accepted != []
      && var last := Bufs(accepted[|accepted| - 1]);
         |pending| <= |last| && pending == last[|last| - |pending|..]
  }

  ghost predicate PendingInv(s: Link) {
    IsTail(s.pending, s.accepted)
  }

  ghost predicate Inv(p: Proto, cap: nat, s: Link) {
    && AllSound(p, s.accepted)
    && ClientOk(p, s.client)
    && DeliveredPrefix(s)
    && PendingInv(s)
    && |s.fifo| + |Flatten(s.pending)| <= cap
    && Wire(Rest(s)) == Stream(s)
    && (s.client.phase.WantPayload? ==>
          && Rest(s) != []
          && s.client.metaBuf == Rest(s)[0].meta
          && s.client.phase.need == |Payload(Rest(s)[0])|)
  }

  lemma OfferKeepsInv(p: Proto, cap: nat, s: Link, m: Msg, s': Link)
    requires Inv(p, cap, s) && Sound(p, m) && Next(p, cap, s, Offer(m), s')
    ensures Inv(p, cap, s')
  {
    if s' != s {
      WireAppend(Rest(s), m);
      assert Rest(s') == Rest(s) + [m];
      assert Flatten(s.pending) == [];
    }
  }

  lemma WriteKeepsInv(p: Proto, cap: nat, s: Link, s': Link)
    requires Inv(p, cap, s) && Next(p, cap, s, WriteOne, s')
    ensures Inv(p, cap, s')
    ensures |s.fifo| + |s.pending[0]| <= cap
  {
    var rest := Flatten(s.pending[1..]);
    assert Flatten(s.pending) == s.pending[0] + rest;
    Regroup(Partial(s), s.fifo, s.pending[0], rest);
    assert Partial(s') == Partial(s) && Rest(s') == Rest(s);
    assert PendingInv(s');
  }

  lemma Regroup(a: seq<Byte>, b: seq<Byte>, c: seq<Byte>, d: seq<Byte>)
    ensures a + b + (c + d) == a + (b + c) + d
  {
  }

  lemma HeadOfRest(p: Proto, cap: nat, s: Link)
    requires Inv(p, cap, s) && (s.fifo != [] || s.client.phase.WantPayload?)
    ensures Rest(s) != []
    ensures Wire(Rest(s)) == Rest(s)[0].meta + Payload(Rest(s)[0]) + Wire(Rest(s)[1..])
  {
    if Rest(s) != [] {
      BufsFlatten(Rest(s)[0]);
    }
  }

  lemma HeadOf(meta: seq<Byte>, a: seq<Byte>, b: seq<Byte>, fifo: seq<Byte>, c: seq<Byte>)
    requires |meta| <= |fifo| && meta + a + b == [] + fifo + c
    ensures fifo[..|meta|] == meta
  {
    assert meta == (meta + a + b)[..|meta|];
    assert fifo[..|meta|] == ([] + fifo + c)[..|meta|];
  }

  /** Metadata read whole is the metadata of the next message, and passes the check. */
  lemma MetaIsNext(p: Proto, cap: nat, s: Link)
    requires Inv(p, cap, s) && s.client.phase.WantMeta? && |s.fifo| >= p.metaLen
    ensures Rest(s) != [] && s.fifo[..p.metaLen] == Rest(s)[0].meta
    ensures p.check(Rest(s)[0].meta) == Some(|Payload(Rest(s)[0])|) && |Payload(Rest(s)[0])| > 0
  {
    HeadOfRest(p, cap, s);
    var m := Rest(s)[0];
    assert Sound(p, s.accepted[|s.client.delivered|]);
    HeadOf(m.meta, Payload(m), Wire(Rest(s)[1..]), s.fifo, Flatten(s.pending));
    assert Payload(m) == m.chunks[0] + Flatten(m.chunks[1..]);
  }

  lemma ReadMetaResult(p: Proto, cap: nat, s: Link, n: nat, s': Link)
    requires Inv(p, cap, s) && Next(p, cap, s, Read(n), s') && s.client.phase.WantMeta? && n == p.metaLen
    ensures Rest(s) != []
    ensures s' == s.(fifo := s.fifo[n..],
                     client := Client(Rest(s)[0].meta, WantPayload(|Payload(Rest(s)[0])|, [], 0), s.client.delivered))
    ensures s.fifo == Rest(s)[0].meta + s.fifo[n..]
  {
    MetaIsNext(p, cap, s);
    assert s.fifo[..n] + s.client.metaBuf[n..] == s.fifo[..n];
  }

  /** The link once the metadata of the next message has been taken out of the pipe. */
  ghost function Started(p: Proto, s: Link): Link
    requires DeliveredPrefix(s) && Rest(s) != [] && |s.fifo| >= p.metaLen
  {
    var m := Rest(s)[0];
    s.(fifo := s.fifo[p.metaLen..], client := Client(m.meta, WantPayload(|Payload(m)|, [], 0), s.client.delivered))
  }

  lemma StartedKeepsInv(p: Proto, cap: nat, s: Link)
    requires Inv(p, cap, s) && s.client.phase.WantMeta? && |s.fifo| >= p.metaLen
    ensures Rest(s) != [] && Inv(p, cap, Started(p, s))
  {
    MetaIsNext(p, cap, s);
    var s' := Started(p, s);
    assert Rest(s') == Rest(s);
    Taken(Rest(s)[0].meta, s.fifo);
  }

  lemma Taken(meta: seq<Byte>, fifo: seq<Byte>)
    requires |meta| <= |fifo| && fifo[..|meta|] == meta
    ensures meta + [] + fifo[|meta|..] == [] + fifo
  {
    assert fifo == fifo[..|meta|] + fifo[|meta|..];
  }

  lemma ReadMetaKeepsInv(p: Proto, cap: nat, s: Link, n: nat, s': Link)
    requires Inv(p, cap, s) && Next(p, cap, s, Read(n), s') && s.client.phase.WantMeta? && n == p.metaLen
    ensures Inv(p, cap, s')
  {
    ReadMetaResult(p, cap, s, n, s');
    StartedKeepsInv(p, cap, s);
    assert s' == Started(p, s);
  }

  lemma DropHead(meta: seq<Byte>, a: seq<Byte>, b: seq<Byte>, got: seq<Byte>, fifo: seq<Byte>, n: nat, c: seq<Byte>)
    requires n <= |fifo| && meta + a + b == meta + got + fifo + c
    ensures a + b == got + fifo[..n] + (fifo[n..] + c)
  {
    assert fifo == fifo[..n] + fifo[n..];
    assert meta + a + b == meta + (a + b);
    assert meta + got + fifo + c == meta + (got + fifo[..n] + (fifo[n..] + c));
    SameTail(meta, a + b, got + fifo[..n] + (fifo[n..] + c));
  }

  lemma SameHead(a: seq<Byte>, b: seq<Byte>, c: seq<Byte>, d: seq<Byte>)
    requires a + b == c + d && |a| == |c|
    ensures a == c && b == d
  {
    assert a == (a + b)[..|a|] == (c + d)[..|a|] == c;
    SameTail(a, b, d);
  }

  /** Splits the stream behind the metadata of the message being read. */
  lemma PayloadStream(p: Proto, cap: nat, s: Link, n: nat)
    requires Inv(p, cap, s) && s.client.phase.WantPayload? && n <= |s.fifo|
    ensures Rest(s) != []
    ensures Payload(Rest(s)[0]) + Wire(Rest(s)[1..]) ==
            s.client.phase.got + s.fifo[..n] + (s.fifo[n..] + Flatten(s.pending))
  {
    HeadOfRest(p, cap, s);
    DropHead(s.client.metaBuf, Payload(Rest(s)[0]), Wire(Rest(s)[1..]), s.client.phase.got, s.fifo, n,
             Flatten(s.pending));
  }

  /** The read that completes a payload completes the right one. */
  lemma PayloadIsNext(p: Proto, cap: nat, s: Link, n: nat)
    requires Inv(p, cap, s) && s.client.phase.WantPayload? && n == Wanted(p, s.client) <= |s.fifo|
    ensures Rest(s) != [] && s.client.phase.got + s.fifo[..n] == Payload(Rest(s)[0])
    ensures Wire(Rest(s)[1..]) == s.fifo[n..] + Flatten(s.pending)
  {
    PayloadStream(p, cap, s, n);
    SameHead(Payload(Rest(s)[0]), Wire(Rest(s)[1..]), s.client.phase.got + s.fifo[..n],
             s.fifo[n..] + Flatten(s.pending));
  }

  lemma DeliverOne(s: Link, d: Delivery, s': Link)
    requires DeliveredPrefix(s) && Rest(s) != [] && Matches(d, Rest(s)[0])
    requires s'.accepted == s.accepted && s'.client.delivered == s.client.delivered + [d]
    ensures DeliveredPrefix(s') && Rest(s') == Rest(s)[1..]
  {
  }

  /** The link after the read that completes a payload. */
  ghost function Completed(s: Link, n: nat): Link
    requires s.client.phase.WantPayload? && n <= |s.fifo|
  {
    var d := Delivery(s.client.metaBuf, s.client.phase.got + s.fifo[..n], s.client.phase.tries + 1);
    s.(fifo := s.fifo[n..], client := Client(s.client.metaBuf, WantMeta, s.client.delivered + [d]))
  }

  lemma PayloadCompletes(p: Proto, cap: nat, s: Link, n: nat)
    requires Inv(p, cap, s) && s.client.phase.WantPayload? && n == Wanted(p, s.client) <= |s.fifo|
    ensures Inv(p, cap, Completed(s, n))
  {
    PayloadIsNext(p, cap, s, n);
    var s' := Completed(s, n);
    DeliverOne(s, s'.client.delivered[|s.client.delivered|], s');
    assert [] + s.fifo[n..] == s.fifo[n..];
    assert Stream(s') == s.fifo[n..] + Flatten(s.pending);
  }

  lemma PayloadDoneResult(p: Proto, s: Link, n: nat)
    requires ClientOk(p, s.client) && s.client.phase.WantPayload? && n == Wanted(p, s.client) <= |s.fifo|
    ensures s.(fifo := s.fifo[n..], client := OnRead(p, s.client, s.fifo[..n])) == Completed(s, n)
  {
  }

  lemma PayloadDone(p: Proto, cap: nat, s: Link, n: nat, s': Link)
    requires Inv(p, cap, s) && s.client.phase.WantPayload? && n == Wanted(p, s.client) <= |s.fifo|
    requires s' == s.(fifo := s.fifo[n..], client := OnRead(p, s.client, s.fifo[..n]))
    ensures s' == Completed(s, n)
    ensures Inv(p, cap, s')
  {
    PayloadCompletes(p, cap, s, n);
    PayloadDoneResult(p, s, n);
  }

  /** The link after a payload read of n bytes that does not complete the payload. */
  ghost function Advanced(s: Link, n: nat, tries: nat): Link
    requires s.client.phase.WantPayload? && n <= |s.fifo|
  {
    s.(fifo := s.fifo[n..],
       client := s.client.(phase := WantPayload(s.client.phase.need, s.client.phase.got + s.fifo[..n], tries)))
  }

  lemma PayloadContinues(p: Proto, cap: nat, s: Link, n: nat, tries: nat)
    requires Inv(p, cap, s) && s.client.phase.WantPayload?
    requires n < Wanted(p, s.client) && n <= |s.fifo| && tries < MAX_TRIES
    ensures Inv(p, cap, Advanced(s, n, tries))
  {
    var s' := Advanced(s, n, tries);
    assert Rest(s') == Rest(s);
    Shift(s.client.metaBuf, s.client.phase.got, s.fifo, n);
  }

  lemma Shift(a: seq<Byte>, b: seq<Byte>, c: seq<Byte>, n: nat)
    requires n <= |c|
    ensures a + (b + c[..n]) + c[n..] == a + b + c
  {
    assert c == c[..n] + c[n..];
  }

  lemma SameTail(a: seq<Byte>, b: seq<Byte>, c: seq<Byte>)
    requires a + b == a + c
    ensures b == c
  {
    assert (a + b)[|a|..] == b;
    assert (a + c)[|a|..] == c;
  }

  lemma PayloadReadResult(p: Proto, s: Link, n: nat)
    requires ClientOk(p, s.client) && s.client.phase.WantPayload? && 0 < n <= |s.fifo| && n <= Wanted(p, s.client)
    requires Framing(p, s, Read(n)) && n < Wanted(p, s.client)
    ensures s.(fifo := s.fifo[n..], client := OnRead(p, s.client, s.fifo[..n])) ==
            Advanced(s, n, s.client.phase.tries + 1)
  {
  }

  lemma ReadPayloadKeepsInv(p: Proto, cap: nat, s: Link, n: nat, s': Link)
    requires Inv(p, cap, s) && s.client.phase.WantPayload? && 0 < n <= |s.fifo| && n <= Wanted(p, s.client)
    requires Framing(p, s, Read(n))
    requires s' == s.(fifo := s.fifo[n..], client := OnRead(p, s.client, s.fifo[..n]))
    ensures Inv(p, cap, s')
  {
    if n == Wanted(p, s.client) {
      PayloadDone(p, cap, s, n, s');
    } else {
      PayloadReadResult(p, s, n);
      PayloadContinues(p, cap, s, n, s.client.phase.tries + 1);
    }
  }

  lemma ReadKeepsInv(p: Proto, cap: nat, s: Link, n: nat, s': Link)
    requires Inv(p, cap, s) && Next(p, cap, s, Read(n), s') && Framing(p, s, Read(n))
    ensures Inv(p, cap, s')
  {
    if s.client.phase.WantMeta? {
      ReadMetaKeepsInv(p, cap, s, n, s');
    } else {
      ReadPayloadKeepsInv(p, cap, s, n, s');
    }
  }

  lemma HangUpKeepsInv(p: Proto, cap: nat, s: Link)
    requires Inv(p, cap, s)
    ensures Inv(p, cap, s.(up := false))
  {
    var s' := s.(up := false);
    assert Rest(s') == Rest(s) && Stream(s') == Stream(s);
  }

  lemma PayloadIsNotEmpty(p: Proto, m: Msg)
    requires Sound(p, m)
    ensures Payload(m) != []
  {
    assert Payload(m) == m.chunks[0] + Flatten(m.chunks[1..]);
  }

  /** A read that loses the framing either delivers an empty payload or changes how many bytes are on their way. */
  lemma UnframedRead(p: Proto, cap: nat, s: Link, n: nat, s': Link)
    requires ClientOk(p, s.client) && Next(p, cap, s, Read(n), s') && !Framing(p, s, Read(n))
    ensures s'.accepted == s.accepted
    ensures if s'.client.delivered == s.client.delivered then |Stream(s')| != |Stream(s)|
            else |s'.client.delivered| == |s.client.delivered| + 1 &&
                 s'.client.delivered[|s.client.delivered|].data == []
  {
  }

  lemma UnframedReadBreaksInv(p: Proto, cap: nat, s: Link, n: nat, s': Link)
    requires Inv(p, cap, s) && Next(p, cap, s, Read(n), s') && !Framing(p, s, Read(n))
    ensures !Inv(p, cap, s')
  {
    UnframedRead(p, cap, s, n, s');
    var next := |s.client.delivered|;
    if next < |s.accepted| {
      assert Sound(p, s.accepted[next]);
      PayloadIsNotEmpty(p, s.accepted[next]);
    }
  }

  /** A step keeps the stream in step with the messages if and only if it keeps the framing. */
  lemma StepKeepsInvExactly(p: Proto, cap: nat, s: Link, step: Step, s': Link)
    requires Inv(p, cap, s) && Next(p, cap, s, step, s')
    requires step.Offer? ==> Sound(p, step.m)
    ensures Inv(p, cap, s') <==> Framing(p, s, step)
  {
    match step
    case Offer(m) => OfferKeepsInv(p, cap, s, m, s');
    case WriteOne => WriteKeepsInv(p, cap, s, s');
    case HangUp => HangUpKeepsInv(p, cap, s);
    case Read(n) =>
      if Framing(p, s, step) {
        ReadKeepsInv(p, cap, s, n, s');
      } else {
        UnframedReadBreaksInv(p, cap, s, n, s');
      }
  }

  /**
   * In every run whose reads keep the framing, however short the payload reads
   * are, the messages delivered are the first accepted ones, in order and byte
   * for byte; and no list write that was begun ever runs out of room.
   */
  lemma {:induction false} FramedRunsDeliverPrefix(p: Proto, cap: nat, states: seq<Link>, steps: seq<Step>, k: nat)
    requires IsRun(p, cap, states, steps) && k < |states|
    requires forall i :: 0 <= i < k ==> Framing(p, states[i], steps[i])
    ensures Inv(p, cap, states[k]) && DeliveredPrefix(states[k])
    ensures k < |steps| && steps[k].WriteOne? ==>
              states[k].pending != [] && |states[k].fifo| + |states[k].pending[0]| <= cap
  {
    if k == 0 {
      assert Partial(states[0]) + states[0].fifo == [];
    } else {
      FramedRunsDeliverPrefix(p, cap, states, steps, k - 1);
      StepKeepsInvExactly(p, cap, states[k - 1], steps[k - 1], states[k]);
    }
    if k < |steps| && steps[k].WriteOne? {
      WriteKeepsInv(p, cap, states[k], states[k + 1]);
    }
  }

  lemma InitInv(p: Proto, cap: nat, s: Link)
    requires Init(p, s)
    ensures Inv(p, cap, s)
  {
    assert Stream(s) == [];
  }

  /** The stream is in step with the messages up to moment `k` if and only if every step so far kept the framing. */
  lemma {:induction false} FramingExactly(p: Proto, cap: nat, states: seq<Link>, steps: seq<Step>, k: nat)
    requires IsRun(p, cap, states, steps) && k < |states|
    ensures (forall i :: 0 <= i <= k ==> Inv(p, cap, states[i])) <==>
            (forall i :: 0 <= i < k ==> Framing(p, states[i], steps[i]))
  {
    if k == 0 {
      InitInv(p, cap, states[0]);
    } else {
      FramingExactly(p, cap, states, steps, k - 1);
      if Inv(p, cap, states[k - 1]) {
        StepKeepsInvExactly(p, cap, states[k - 1], steps[k - 1], states[k]);
      }
    }
  }

  // ---------------------------------------------------------------------------
  // Reads that return all there is

  /** The payload bytes so far are whole buffers, at least one for every try. */
  ghost predicate WholeBuffers(m: Msg, got: seq<Byte>, tries: nat, c: nat) {
    tries <= c < |m.chunks| && got == Flatten(m.chunks[..c])
  }

  /** Every payload delivered took at least one read and at most one per buffer written. */
  ghost predicate Counted(delivered: seq<Delivery>, accepted: seq<Msg>)
    requires |delivered| <= |accepted|
  {
    forall i :: 0 <= i < |delivered| ==> 1 <= delivered[i].nReads <= |accepted[i].chunks|
  }

  ghost predicate ReadsInv(s: Link)
    requires DeliveredPrefix(s)
  {
    && Counted(s.client.delivered, s.accepted)
    && (s.client.phase.WantPayload? && Rest(s) != [] ==>
          exists c: nat :: WholeBuffers(Rest(s)[0], s.client.phase.got, s.client.phase.tries, c))
  }

  /** When messages wait behind the current one, the current one is in the pipe entirely. */
  lemma WaitingBehind(p: Proto, cap: nat, s: Link)
    requires Inv(p, cap, s) && Rest(s) != [] && |Rest(s)| > 1
    ensures |Partial(s)| + |s.fifo| >= |Flatten(Bufs(Rest(s)[0]))|
  {
    if s.pending != [] {
      var last := Bufs(s.accepted[|s.accepted| - 1]);
      FlattenSplit(last, |last| - |s.pending|);
      LastInWire(Rest(s)[1..]);
    }
  }

  lemma OnlyOneLeft(p: Proto, cap: nat, s: Link)
    requires Inv(p, cap, s) && |Rest(s)| == 1
    ensures Wire(Rest(s)) == Flatten(Bufs(Rest(s)[0]))
    ensures s.accepted[|s.accepted| - 1] == Rest(s)[0]
  {
  }

  /** With part of the only message left still unwritten, the rest of it is whole buffers. */
  lemma WrittenPart(s: Link, m: Msg)
    requires DeliveredPrefix(s) && PendingInv(s) && s.pending != [] && s.accepted[|s.accepted| - 1] == m
    requires Flatten(Bufs(m)) == Partial(s) + s.fifo + Flatten(s.pending)
    ensures Partial(s) + s.fifo == Flatten(Bufs(m)[..|Bufs(m)| - |s.pending|])
    ensures |s.pending| <= |m.chunks| ==>
              Partial(s) + s.fifo == m.meta + Flatten(m.chunks[..|m.chunks| - |s.pending|])
    ensures |s.pending| > |m.chunks| ==> Partial(s) + s.fifo == []
  {
    var j := |Bufs(m)| - |s.pending|;
    FlattenSplit(Bufs(m), j);
    var a, b := Partial(s) + s.fifo, Flatten(Bufs(m)[..j]);
    SameHead(a, Flatten(s.pending), b, Flatten(Bufs(m)[j..]));
    if j > 0 {
      assert Bufs(m)[..j][1..] == m.chunks[..j - 1];
    }
  }

  /** The same when only one message is left. */
  lemma LastMetaComesWhole(p: Proto, cap: nat, s: Link, m: Msg)
    requires Inv(p, cap, s) && s.client.phase.WantMeta? && s.fifo != [] && Rest(s) == [m] && |m.meta| == p.metaLen
    ensures |s.fifo| >= p.metaLen
  {
    OnlyOneLeft(p, cap, s);
    BufsFlatten(m);
    assert Partial(s) + s.fifo == s.fifo;
    if s.pending != [] {
      WrittenPart(s, m);
    }
  }

  /** At a message boundary a non-empty pipe holds the next metadata whole. */
  lemma MetaComesWhole(p: Proto, cap: nat, s: Link)
    requires Inv(p, cap, s) && s.client.phase.WantMeta? && s.fifo != []
    ensures |s.fifo| >= p.metaLen
  {
    HeadOfRest(p, cap, s);
    var m := Rest(s)[0];
    assert Sound(p, s.accepted[|s.client.delivered|]);
    if |Rest(s)| > 1 {
      WaitingBehind(p, cap, s);
      BufsFlatten(m);
    } else {
      LastMetaComesWhole(p, cap, s, m);
    }
  }

  /** A read that emptied the pipe without completing the payload took at least one more whole buffer. */
  lemma EmptiedPipe(p: Proto, cap: nat, s: Link, c: nat) returns (d: nat)
    requires Inv(p, cap, s) && s.client.phase.WantPayload? && s.fifo == []
    requires c < |Rest(s)[0].chunks| && |s.client.phase.got| > |Flatten(Rest(s)[0].chunks[..c])|
    ensures c < d < |Rest(s)[0].chunks| && s.client.phase.got == Flatten(Rest(s)[0].chunks[..d])
  {
    var m, got := Rest(s)[0], s.client.phase.got;
    assert Sound(p, s.accepted[|s.client.delivered|]);
    BufsFlatten(m);
    assert Partial(s) + s.fifo == m.meta + got;
    if |Rest(s)| > 1 {
      WaitingBehind(p, cap, s);
      assert false;
    }
    OnlyOneLeft(p, cap, s);
    if s.pending == [] {
      assert false;
    }
    WrittenPart(s, m);
    d := |m.chunks| - |s.pending|;
    SameTail(m.meta, got, Flatten(m.chunks[..d]));
    if d <= c {
      FlattenGrows(m.chunks, d, c);
      assert false;
    }
  }

  lemma GreedyStep(p: Proto, cap: nat, s: Link, step: Step, s': Link)
    requires Inv(p, cap, s) && ReadsInv(s) && Next(p, cap, s, step, s') && Greedy(p, s, step)
    requires step.Offer? ==> Sound(p, step.m)
    ensures Framing(p, s, step)
    ensures Inv(p, cap, s') && ReadsInv(s')
  {
    if step.Read? {
      if s.client.phase.WantMeta? {
        MetaComesWhole(p, cap, s);
        StepKeepsInvExactly(p, cap, s, step, s');
        ReadMetaResult(p, cap, s, step.n, s');
        assert Rest(s') == Rest(s);
        assert Sound(p, s.accepted[|s.client.delivered|]);
        assert WholeBuffers(Rest(s)[0], [], 0, 0);
      } else {
        GreedyPayloadStep(p, cap, s, step, s');
      }
    } else {
      StepKeepsInvExactly(p, cap, s, step, s');
      assert s.client.phase.WantPayload? ==> Rest(s')[0] == Rest(s)[0];
    }
  }

  lemma GreedyPayloadStep(p: Proto, cap: nat, s: Link, step: Step, s': Link)
    requires Inv(p, cap, s) && ReadsInv(s) && Next(p, cap, s, step, s') && Greedy(p, s, step)
    requires step.Read? && s.client.phase.WantPayload?
    ensures Framing(p, s, step)
    ensures Inv(p, cap, s') && ReadsInv(s')
  {
    var m := Rest(s)[0];
    assert Sound(p, s.accepted[|s.client.delivered|]);
    var c: nat :| WholeBuffers(m, s.client.phase.got, s.client.phase.tries, c);
    if step.n < Wanted(p, s.client) {
      GreedyPartial(p, cap, s, step.n, c);
      PayloadReadResult(p, s, step.n);
    } else {
      PayloadDone(p, cap, s, step.n, s');
      PayloadCounted(p, cap, s, step.n, s', c);
    }
  }

  lemma MoreBuffers(p: Proto, cap: nat, s: Link, n: nat, c: nat) returns (d: nat)
    requires Inv(p, cap, s) && s.client.phase.WantPayload? && 0 < n == |s.fifo| < Wanted(p, s.client)
    requires WholeBuffers(Rest(s)[0], s.client.phase.got, s.client.phase.tries, c)
    ensures s.client.phase.tries + 1 < MAX_TRIES
    ensures WholeBuffers(Rest(s)[0], s.client.phase.got + s.fifo[..n], s.client.phase.tries + 1, d)
  {
    PayloadContinues(p, cap, s, n, 0);
    var s' := Advanced(s, n, 0);
    assert Rest(s') == Rest(s);
    d := EmptiedPipe(p, cap, s', c);
    assert Sound(p, s.accepted[|s.client.delivered|]);
  }

  lemma GreedyPartial(p: Proto, cap: nat, s: Link, n: nat, c: nat)
    requires Inv(p, cap, s) && ReadsInv(s) && s.client.phase.WantPayload?
    requires 0 < n == |s.fifo| < Wanted(p, s.client)
    requires WholeBuffers(Rest(s)[0], s.client.phase.got, s.client.phase.tries, c)
    ensures s.client.phase.tries + 1 < MAX_TRIES
    ensures Inv(p, cap, Advanced(s, n, s.client.phase.tries + 1))
    ensures ReadsInv(Advanced(s, n, s.client.phase.tries + 1))
  {
    var d := MoreBuffers(p, cap, s, n, c);
    PayloadContinues(p, cap, s, n, s.client.phase.tries + 1);
    var s' := Advanced(s, n, s.client.phase.tries + 1);
    assert Rest(s') == Rest(s);
    CountsKept(s', d);
  }

  lemma CountsKept(s: Link, c: nat)
    requires DeliveredPrefix(s) && Counted(s.client.delivered, s.accepted)
    requires s.client.phase.WantPayload? && Rest(s) != []
    requires WholeBuffers(Rest(s)[0], s.client.phase.got, s.client.phase.tries, c)
    ensures ReadsInv(s)
  {
  }

  lemma PayloadCounted(p: Proto, cap: nat, s: Link, n: nat, s': Link, c: nat)
    requires Inv(p, cap, s) && s.client.phase.WantPayload? && n == Wanted(p, s.client) <= |s.fifo| && ReadsInv(s)
    requires WholeBuffers(Rest(s)[0], s.client.phase.got, s.client.phase.tries, c)
    requires s' == s.(fifo := s.fifo[n..], client := OnRead(p, s.client, s.fifo[..n]))
    requires DeliveredPrefix(s')
    ensures ReadsInv(s')
  {
    var d := Delivery(s.client.metaBuf, s.client.phase.got + s.fifo[..n], s.client.phase.tries + 1);
    assert s'.client == Client(s.client.metaBuf, WantMeta, s.client.delivered + [d]);
  }

  /**
   * In every interleaving of list writes and reads on a pipe: the messages
   * delivered are the first accepted ones, in order and byte for byte, each took
   * no more payload reads than the server made payload writes, and once the pipe
   * is empty and no write is in progress nothing is missing.
   */
  lemma {:induction false} PipeDeliversMessages(p: Proto, cap: nat, states: seq<Link>, steps: seq<Step>, k: nat)
    requires IsRun(p, cap, states, steps) && k < |states|
    requires forall i :: 0 <= i < |steps| ==> Greedy(p, states[i], steps[i])
    ensures Inv(p, cap, states[k]) && DeliveredPrefix(states[k]) && ReadsInv(states[k])
    ensures forall i :: 0 <= i < k ==> Framing(p, states[i], steps[i])
    ensures states[k].fifo == [] && states[k].pending == [] ==>
              |states[k].client.delivered| == |states[k].accepted|
  {
    if k == 0 {
      assert Partial(states[0]) + states[0].fifo == [];
    } else {
      PipeDeliversMessages(p, cap, states, steps, k - 1);
      GreedyStep(p, cap, states[k - 1], steps[k - 1], states[k]);
    }
    if Rest(states[k]) != [] {
      BufsFlatten(Rest(states[k])[0]);
      assert Sound(p, states[k].accepted[|states[k].client.delivered|]);
    }
  }

  lemma TornMetadata(p: Proto, c: Client)
    requires p == Proto(2, m => Some(1)) && c == Client([0, 0], WantMeta, [])
    ensures ClientOk(p, c) && !Flushes(p, c, [1])
    ensures OnRead(p, c, [1]) == Client([1, 0], WantPayload(1, [], 0), [])
    ensures OnRead(p, OnRead(p, c, [1]), [2]) == Client([1, 0], WantMeta, [Delivery([1, 0], [2], 1)])
  {
    assert [1 as Byte] + c.metaBuf[1..] == [1, 0];
    assert [] + [2 as Byte] == [2];
  }

  lemma TornRun(p: Proto, m: Msg) returns (s0: Link, s1: Link, s2: Link, s3: Link, s4: Link)
    requires p == Proto(2, m => Some(1)) && m == Msg([1, 2], [[7]])
    ensures Init(p, s0) && Next(p, 8, s0, Offer(m), s1) && Next(p, 8, s1, WriteOne, s2)
    ensures Next(p, 8, s2, Read(1), s3) && Next(p, 8, s3, Read(1), s4)
    ensures s4.accepted == [m] && s4.client.delivered == [Delivery([1, 0], [2], 1)]
  {
    var c := Client([0, 0], WantMeta, []);
    BufsFlatten(m);
    TornMetadata(p, c);
    s0 := Link([], [], [], true, c);
    s1 := s0.(pending := Bufs(m), accepted := [m]);
    s2 := s1.(fifo := [1, 2], pending := [[7]]);
    s3 := s2.(fifo := [2], client := OnRead(p, c, [1]));
    s4 := s3.(fifo := [], client := OnRead(p, s3.client, [2]));
    assert Bufs(m)[0] == [1, 2] && Bufs(m)[1..] == [[7]];
    ReadOne(p, 8, s2, s3, 1, [2]);
    ReadOne(p, 8, s3, s4, 2, []);
  }

  /** One short metadata read is enough to lose the framing for good. */
  lemma ShortMetadataReadBreaksFraming() returns (p: Proto, states: seq<Link>, steps: seq<Step>)
    ensures IsRun(p, 8, states, steps)
    ensures !DeliveredPrefix(states[|steps|])
  {
    p := Proto(2, m => Some(1));
    var m := Msg([1, 2], [[7]]);
    var s0, s1, s2, s3, s4 := TornRun(p, m);
    states, steps := [s0, s1, s2, s3, s4], [Offer(m), WriteOne, Read(1), Read(1)];
    assert Payload(m) == [7];
    assert !Matches(s4.client.delivered[0], m);
  }

  lemma ReadOne(p: Proto, cap: nat, s: Link, s': Link, b: Byte, rest: seq<Byte>)
    requires ClientOk(p, s.client) && Wanted(p, s.client) >= 1 && s.fifo == [b] + rest
    requires !Flushes(p, s.client, [b]) && s' == s.(fifo := rest, client := OnRead(p, s.client, [b]))
    ensures Next(p, cap, s, Read(1), s')
  {
    assert s.fifo[..1] == [b] && s.fifo[1..] == rest;
  }
}
