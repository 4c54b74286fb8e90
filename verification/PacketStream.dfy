/**
 * A pipe of fixed-size packets: whole packets go in, the simple helper reads into
 * a buffer of fixed length, and the validator checks what each read returned.
 */
module PacketStream {
  import opened Prelude
  import opened FramedPipe
  import Messages

  /** Packet size, the packet's magic number, and the length of the read buffer. */
  datatype Format = Format(size: nat, magic: nat, bufLen: nat)

  ghost predicate FormatOk(f: Format) {
    f.size >= 4 && f.magic < 0x1_0000_0000 && f.bufLen > 0
  }

  predicate Good(f: Format, packet: seq<Byte>) {
    |packet| == f.size && f.size >= 4 && Messages.U32(packet, 0) == f.magic
  }

  ghost predicate AllGood(f: Format, packets: seq<seq<Byte>>) {
    forall i :: 0 <= i < |packets| ==> Good(f, packets[i])
  }

  /** The little-endian number at the start of packet `i`. */
  ghost predicate MagicAt(f: Format, data: seq<Byte>, i: nat)
    requires FormatOk(f)
  {
    && i * f.size + 4 <= |data|
    && data[i * f.size] as int + 0x100 * data[i * f.size + 1] as int
       + 0x1_0000 * data[i * f.size + 2] as int + 0x100_0000 * data[i * f.size + 3] as int == f.magic
  }

  lemma GoodAt(f: Format, data: seq<Byte>, i: nat)
    requires FormatOk(f) && i < |Split(f.size, data)|
    ensures Good(f, Split(f.size, data)[i]) <==> MagicAt(f, data, i)
  {
    SplitAt(f.size, data, i);
    var at := i * f.size;
    assert Split(f.size, data)[i] == data[at..at + f.size];
  }

  /** The packets of a buffer that passes validation. */
  ghost function Validated(f: Format, data: seq<Byte>): Option<seq<seq<Byte>>>
    requires FormatOk(f)
  {
    if |data| % f.size == 0 && AllGood(f, Split(f.size, data)) then Some(Split(f.size, data)) else None
  }

  /** The validator; `nPackets` is its out-parameter, 0 whenever it turns the data down. */
  method Validate(f: Format, data: seq<Byte>) returns (ok: bool, nPackets: nat)
    requires FormatOk(f)
    ensures ok <==> Validated(f, data).Some?
    ensures ok <==>
            && |data| % f.size == 0
            && forall i: nat :: i < |data| / f.size ==> MagicAt(f, data, i)
    ensures nPackets == if ok then |Validated(f, data).value| else 0
  {
    nPackets := 0;
    forall i: nat | i < |Split(f.size, data)| ensures Good(f, Split(f.size, data)[i]) <==> MagicAt(f, data, i) {
      GoodAt(f, data, i);
    }
    if |data| % f.size != 0 {
      return false, 0;
    }
    var n := |data| / f.size;
    DivUnique(|data|, f.size, |Split(f.size, data)|);
    var failed := 0;
    for i := 0 to n
      invariant 0 <= failed <= i
      invariant failed == 0 <==> forall k :: 0 <= k < i ==> Good(f, Split(f.size, data)[k])
    {
      SplitAt(f.size, data, i);
      if Messages.U32(data[i * f.size..i * f.size + f.size], 0) != f.magic {
        failed := failed + 1;
      }
    }
    if failed > 0 {
      return false, 0;
    }
    return true, n;
  }

  // ---------------------------------------------------------------------------
  // Runs

  /** `rejected` counts the reads the validator turned down. */
  datatype Flow = Flow(fifo: seq<Byte>, sent: seq<seq<Byte>>, received: seq<seq<Byte>>, rejected: nat)

  datatype Step = Put(packets: seq<seq<Byte>>) | Take

  ghost predicate Next(f: Format, cap: nat, s: Flow, step: Step, s': Flow)
    requires FormatOk(f)
  {
    match step
    case Put(packets) =>
      s' == if Fits(cap, s.fifo, packets) then s.(fifo := s.fifo + Flatten(packets), sent := s.sent + packets) else s
    case Take =>
      && s.fifo != []
      && var n := Min(|s.fifo|, f.bufLen);
         var packets := Validated(f, s.fifo[..n]);
         s' == Flow(s.fifo[n..], s.sent,
                    if packets.Some? then s.received + packets.value else s.received,
                    if packets.Some? then s.rejected else s.rejected + 1)
  }

  ghost predicate IsRun(f: Format, cap: nat, states: seq<Flow>, steps: seq<Step>)
    requires FormatOk(f)
  {
    && |states| == |steps| + 1
    && states[0] == Flow([], [], [], 0)
    && (forall k :: 0 <= k < |steps| ==> Next(f, cap, states[k], steps[k], states[k + 1]))
    && (forall k :: 0 <= k < |steps| && steps[k].Put? ==> AllGood(f, steps[k].packets))
  }

  lemma {:induction false} FlattenPackets(f: Format, packets: seq<seq<Byte>>, k: nat)
    requires FormatOk(f) && AllGood(f, packets) && k <= |packets|
    ensures |Flatten(packets)| == |packets| * f.size
    ensures k * f.size <= |packets| * f.size
    ensures Flatten(packets)[..k * f.size] == Flatten(packets[..k])
    ensures Flatten(packets)[k * f.size..] == Flatten(packets[k..])
  {
    PacketsLength(f, packets);
    PacketsLength(f, packets[..k]);
    FlattenSplit(packets, k);
  }

  lemma {:induction false} PacketsLength(f: Format, packets: seq<seq<Byte>>)
    requires FormatOk(f) && AllGood(f, packets)
    ensures |Flatten(packets)| == |packets| * f.size
  {
    if |packets| > 0 {
      PacketsLength(f, packets[1..]);
      assert |packets| * f.size == f.size + (|packets| - 1) * f.size;
    }
  }

  lemma {:induction false} SplitOfFlatten(f: Format, packets: seq<seq<Byte>>)
    requires FormatOk(f) && AllGood(f, packets)
    ensures Split(f.size, Flatten(packets)) == packets
  {
    if |packets| > 0 {
      SplitOfFlatten(f, packets[1..]);
      assert Flatten(packets)[..f.size] == packets[0];
      assert Flatten(packets)[f.size..] == Flatten(packets[1..]);
    }
  }

  /** A read buffer of whole packets, or a pipe that holds no more packets than the buffer does. */
  predicate ReadsWhole(f: Format, cap: nat)
    requires FormatOk(f)
  {
    f.bufLen % f.size == 0 || (f.bufLen / f.size + 1) * f.size > cap
  }

  ghost predicate Inv(f: Format, cap: nat, s: Flow) {
    && AllGood(f, s.sent)
    && s.rejected == 0
    && |s.received| <= |s.sent|
    && s.received == s.sent[..|s.received|]
    && s.fifo == Flatten(s.sent[|s.received|..])
    && |s.fifo| <= cap
  }

  /** The shorter of two whole numbers of packets is a whole number of packets. */
  lemma MinOfMultiples(a: nat, b: nat, d: nat) returns (k: nat)
    requires d > 0 && b % d == 0
    ensures Min(a * d, b) == k * d && k <= a
  {
    assert b == b / d * d;
    if a * d <= b {
      k := a;
    } else {
      k := b / d;
      if a < k {
        MulStep(a, k, d);
      }
    }
  }

  /** A pipe too small for one packet more than the buffer holds is emptied by each read. */
  lemma SmallPipe(f: Format, cap: nat, k: nat)
    requires FormatOk(f) && (f.bufLen / f.size + 1) * f.size > cap && k * f.size <= cap
    ensures k * f.size <= f.bufLen
  {
    var m := f.bufLen / f.size;
    assert (m + 1) * f.size == m * f.size + f.size;
    if m < k {
      MulStep(m, k, f.size);
    } else if k < m {
      MulStep(k, m, f.size);
    }
  }

  /** What one read takes from a stream of whole packets is some whole packets. */
  lemma ReadTakesPackets(f: Format, cap: nat, rest: seq<seq<Byte>>) returns (k: nat)
    requires FormatOk(f) && ReadsWhole(f, cap) && AllGood(f, rest) && |Flatten(rest)| <= cap
    ensures k <= |rest|
    ensures var n := Min(|Flatten(rest)|, f.bufLen);
            && Flatten(rest)[n..] == Flatten(rest[k..])
            && Validated(f, Flatten(rest)[..n]) == Some(rest[..k])
  {
    var n := Min(|Flatten(rest)|, f.bufLen);
    PacketsLength(f, rest);
    if f.bufLen % f.size == 0 {
      k := MinOfMultiples(|rest|, f.bufLen, f.size);
    } else {
      k := |rest|;
      SmallPipe(f, cap, k);
    }
    DivUnique(n, f.size, k);
    FlattenPackets(f, rest, k);
    assert Flatten(rest)[..n] == Flatten(rest[..k]);
    SplitOfFlatten(f, rest[..k]);
  }

  lemma ReadKeepsInv(f: Format, cap: nat, s: Flow, s': Flow)
    requires FormatOk(f) && ReadsWhole(f, cap) && Inv(f, cap, s) && Next(f, cap, s, Take, s')
    ensures Inv(f, cap, s')
  {
    var rest := s.sent[|s.received|..];
    var k := ReadTakesPackets(f, cap, rest);
    assert s'.received == s.received + rest[..k];
    assert s'.sent[|s'.received|..] == rest[k..];
  }

  lemma WriteKeepsInv(f: Format, cap: nat, s: Flow, packets: seq<seq<Byte>>, s': Flow)
    requires FormatOk(f) && AllGood(f, packets) && Inv(f, cap, s) && Next(f, cap, s, Put(packets), s')
    ensures Inv(f, cap, s')
  {
    if s' != s {
      FlattenAppend(s.sent[|s.received|..], packets);
      assert s'.sent[|s'.received|..] == s.sent[|s.received|..] + packets;
    }
  }

  /**
   * If reads are whole, in every interleaving of writes and reads the validator
   * never turns a read down, and the packets it passes are the first ones sent,
   * in order.
   */
  lemma {:induction false} ReadsAreWholePackets(f: Format, cap: nat, states: seq<Flow>, steps: seq<Step>, k: nat)
    requires FormatOk(f) && ReadsWhole(f, cap) && IsRun(f, cap, states, steps) && k < |states|
    ensures Inv(f, cap, states[k])
    ensures states[k].rejected == 0 && states[k].received <= states[k].sent
  {
    if k > 0 {
      ReadsAreWholePackets(f, cap, states, steps, k - 1);
      var s, s' := states[k - 1], states[k];
      assert Next(f, cap, s, steps[k - 1], s');
      match steps[k - 1]
      case Put(packets) => WriteKeepsInv(f, cap, s, packets, s');
      case Take => ReadKeepsInv(f, cap, s, s');
    }
  }

  lemma GoodPacket(f: Format) returns (packet: seq<Byte>)
    requires FormatOk(f)
    ensures Good(f, packet)
  {
    var low, high := f.magic % 0x1_0000, f.magic / 0x1_0000;
    packet := [low % 256, low / 256, high % 256, high / 256] + Repeat(0, f.size - 4);
    assert Messages.U16(packet, 0) == low && Messages.U16(packet, 2) == high;
  }

  /** The fewest packets that are longer than the read buffer. */
  lemma OneTooMany(f: Format, packet: seq<Byte>) returns (packets: seq<seq<Byte>>)
    requires FormatOk(f) && Good(f, packet)
    ensures AllGood(f, packets)
    ensures f.bufLen < |Flatten(packets)| == (f.bufLen / f.size + 1) * f.size
  {
    var m := f.bufLen / f.size;
    packets := Repeat(packet, m + 1);
    PacketsLength(f, packets);
    assert (m + 1) * f.size == m * f.size + f.size;
  }

  /** Otherwise one write and one read already split a packet. */
  lemma OtherBufferSplitsPackets(f: Format, cap: nat, packet: seq<Byte>) returns (states: seq<Flow>, steps: seq<Step>)
    requires FormatOk(f) && !ReadsWhole(f, cap) && Good(f, packet)
    ensures IsRun(f, cap, states, steps) && states[|steps|].rejected == 1
  {
    var packets := OneTooMany(f, packet);
    var s0 := Flow([], [], [], 0);
    var s1 := s0.(fifo := Flatten(packets), sent := packets);
    var s2 := s1.(fifo := s1.fifo[f.bufLen..], rejected := 1);
    assert s0.fifo + Flatten(packets) == s1.fifo && s0.sent + packets == s1.sent;
    assert Next(f, cap, s0, Put(packets), s1);
    assert Next(f, cap, s1, Take, s2);
    states, steps := [s0, s1, s2], [Put(packets), Take];
  }

  /** Whatever is written and whenever it is read, the validator turns no read down. */
  ghost predicate NeverRejects(f: Format, cap: nat)
    requires FormatOk(f)
  {
    forall states: seq<Flow>, steps: seq<Step> :: IsRun(f, cap, states, steps) ==> states[|steps|].rejected == 0
  }

  lemma NeverRejectsExactly(f: Format, cap: nat)
    requires FormatOk(f)
    ensures NeverRejects(f, cap) <==> ReadsWhole(f, cap)
  {
    if ReadsWhole(f, cap) {
      forall states: seq<Flow>, steps: seq<Step> | IsRun(f, cap, states, steps)
        ensures states[|steps|].rejected == 0
      {
        ReadsAreWholePackets(f, cap, states, steps, |steps|);
      }
    } else {
      var packet := GoodPacket(f);
      var states, steps := OtherBufferSplitsPackets(f, cap, packet);
      assert IsRun(f, cap, states, steps) && states[|steps|].rejected == 1;
    }
  }
}
