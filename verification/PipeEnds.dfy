/** The functions at the two ends of a data pipe, one call at a time. */
module PipeEnds {
  import opened Prelude
  import opened FramedPipe

  /** How many of the buffers a list write writes whole, if the writes return `results`. */
  function WholeWrites(bufs: seq<seq<Byte>>, results: seq<int>): (w: nat)
    requires |bufs| == |results|
    ensures w <= |bufs|
    ensures forall i :: 0 <= i < w ==> results[i] == |bufs[i]|
    ensures w < |bufs| ==> results[w] != |bufs[w]|
  {
    if |bufs| == 0 || results[0] != |bufs[0]| then 0 else 1 + WholeWrites(bufs[1..], results[1..])
  }

  /** What a write that returns `result` has put into the pipe. */
  function Landed(data: seq<Byte>, result: int): seq<Byte>
    requires result <= |data|
  {
    if result > 0 then data[..result] else []
  }

  /** The pipe after the writes of a list write. */
  function Written(bytes: seq<Byte>, bufs: seq<seq<Byte>>, results: seq<int>): seq<Byte>
    requires |bufs| == |results| && forall i :: 0 <= i < |bufs| ==> results[i] <= |bufs[i]|
  {
    var w := WholeWrites(bufs, results);
    bytes + Flatten(bufs[..w]) + (if w < |bufs| then Landed(bufs[w], results[w]) else [])
  }

  /** A list write whose writes are all whole writes everything. */
  lemma WrittenWhole(bytes: seq<Byte>, bufs: seq<seq<Byte>>, results: seq<int>)
    requires |bufs| == |results| && forall i :: 0 <= i < |bufs| ==> results[i] <= |bufs[i]|
    ensures WholeWrites(bufs, results) == |bufs| <==> forall i :: 0 <= i < |bufs| ==> results[i] == |bufs[i]|
    ensures WholeWrites(bufs, results) == |bufs| ==> Written(bytes, bufs, results) == bytes + Flatten(bufs)
  {
    assert bufs[..|bufs|] == bufs;
  }

  /** It never writes more than the buffers hold, and only at the end of the pipe. */
  lemma WrittenFits(bytes: seq<Byte>, bufs: seq<seq<Byte>>, results: seq<int>)
    requires |bufs| == |results| && forall i :: 0 <= i < |bufs| ==> results[i] <= |bufs[i]|
    ensures bytes <= Written(bytes, bufs, results) && |Written(bytes, bufs, results)| <= |bytes| + |Flatten(bufs)|
  {
    var w := WholeWrites(bufs, results);
    if w < |bufs| {
      Room(bufs, w);
    } else {
      assert bufs[..w] == bufs;
    }
  }

  lemma WholeWritesAre(bufs: seq<seq<Byte>>, results: seq<int>, w: nat)
    requires |bufs| == |results| && w <= |bufs|
    requires forall i :: 0 <= i < w ==> results[i] == |bufs[i]|
    requires w < |bufs| ==> results[w] != |bufs[w]|
    ensures WholeWrites(bufs, results) == w
  {
  }

  /** A client's pipe as the server sees it; `up` is false once the client is disconnected. */
  class DataPipe {
    const capacity: nat
    var bytes: seq<Byte>
    var up: bool
    var connected: bool

    constructor (capacity: nat)
      ensures bytes == [] && up && !connected && this.capacity == capacity
    {
      this.capacity := capacity;
      bytes := [];
      up, connected := true, false;
    }

    /**
     * `result` is what the system's write returns: the bytes taken, or -1. There is no
     * protection against overflow: the callers have checked the space. A write that
     * takes nothing disconnects the client.
     */
    method WriteNoLock(data: seq<Byte>, result: int) returns (ret: int)
      requires |bytes| + |data| <= capacity && -1 <= result <= |data|
      modifies this
      ensures ret == if old(up) && data != [] && result == |data| then 0 else -1
      ensures bytes == if old(up) && data != [] then old(bytes) + data[..Max(result, 0)] else old(bytes)
      ensures up == (old(up) && (data == [] || result > 0))
      ensures connected == (old(connected) || ret == 0)
    {
      if |data| < 1 || !up {
        return -1;
      }
      bytes := bytes + Landed(data, result);
      if result == |data| {
        connected := true;
        return 0;
      }
      if result > 0 {
        return -1;
      }
      up := false;
      return -1;
    }

    method WriteToClient(data: seq<Byte>, result: int) returns (ret: int)
      requires -1 <= result <= |data|
      modifies this
      ensures ret == if old(up) && data != [] && |old(bytes)| + |data| <= capacity && result == |data| then 0 else -1
      ensures bytes == if old(up) && data != [] && |old(bytes)| + |data| <= capacity
                       then old(bytes) + data[..Max(result, 0)] else old(bytes)
      ensures up == (old(up) && (data == [] || |old(bytes)| + |data| > capacity || result > 0))
      ensures connected == (old(connected) || ret == 0)
    {
      if |data| < 1 || !up || |data| > capacity - |bytes| {
        return -1;
      }
      ret := WriteNoLock(data, result);
    }

    /** The writes of a list write that has passed its checks, up to the first that is not whole. */
    method WriteEach(bufs: seq<seq<Byte>>, results: seq<int>) returns (ret: int)
      requires |bufs| == |results| && forall i :: 0 <= i < |bufs| ==> -1 <= results[i] <= |bufs[i]|
      requires up && [] !in bufs && Fits(capacity, bytes, bufs)
      modifies this
      ensures var w := WholeWrites(bufs, results);
              && ret == (if w == |bufs| then 0 else -1)
              && bytes == Written(old(bytes), bufs, results)
              && up == (w < |bufs| ==> results[w] > 0)
              && connected == (old(connected) || w > 0)
    {
      ret := 0;
      for i := 0 to |bufs|
        invariant up && ret == 0 && connected == (old(connected) || i > 0)
        invariant bytes == old(bytes) + Flatten(bufs[..i])
        invariant forall k :: 0 <= k < i ==> results[k] == |bufs[k]|
      {
        Room(bufs, i);
        assert bufs[i] in bufs;
        ghost var before := bytes;
        ret := WriteNoLock(bufs[i], results[i]);
        if ret < 0 {
          WholeWritesAre(bufs, results, i);
          assert bytes == before + Landed(bufs[i], results[i]);
          return;
        }
        assert bytes == before + bufs[i];
        Whole(old(bytes), bufs, i);
      }
      WholeWritesAre(bufs, results, |bufs|);
      assert bytes + [] == bytes;
    }

    /** Nothing at all unless every buffer is non-empty and all fit together. */
    method WriteList(bufs: seq<seq<Byte>>, results: seq<int>) returns (ret: int)
      requires |bufs| == |results| && forall i :: 0 <= i < |bufs| ==> -1 <= results[i] <= |bufs[i]|
      modifies this
      ensures var admitted := old(up) && bufs != [] && [] !in bufs && Fits(capacity, old(bytes), bufs);
              var w := WholeWrites(bufs, results);
              && ret == (if admitted && w == |bufs| then 0 else -1)
              && bytes == (if admitted then Written(old(bytes), bufs, results) else old(bytes))
              && up == (old(up) && (admitted && w < |bufs| ==> results[w] > 0))
              && connected == (old(connected) || (admitted && w > 0))
      ensures ret == 0 <==>
              && old(up) && bufs != [] && [] !in bufs && |old(bytes)| + |Flatten(bufs)| <= capacity
              && forall i :: 0 <= i < |bufs| ==> results[i] == |bufs[i]|
      ensures ret == 0 ==> bytes == old(bytes) + Flatten(bufs)
      ensures old(bytes) <= bytes && |bytes| <= Max(capacity, |old(bytes)|)
    {
      WrittenWhole(bytes, bufs, results);
      WrittenFits(bytes, bufs, results);
      if |bufs| < 1 {
        return -1;
      }
      var total := 0;
      for i := 0 to |bufs|
        modifies {}
        invariant total == |Flatten(bufs[..i])|
        invariant [] !in bufs[..i]
      {
        OneMore(bufs, i);
        total := total + |bufs[i]|;
        if |bufs[i]| < 1 {
          assert bufs[i] in bufs;
          return -1;
        }
      }
      assert bufs[..|bufs|] == bufs;
      if !up || total > capacity - |bytes| {
        return -1;
      }
      ret := WriteEach(bufs, results);
    }
  }

  lemma Room(bufs: seq<seq<Byte>>, i: nat)
    requires i < |bufs|
    ensures |Flatten(bufs[..i])| + |bufs[i]| <= |Flatten(bufs)|
  {
    OneMore(bufs, i);
    FlattenSplit(bufs, i + 1);
  }

  lemma Whole(bytes: seq<Byte>, bufs: seq<seq<Byte>>, i: nat)
    requires i < |bufs|
    ensures bytes + Flatten(bufs[..i]) + bufs[i] == bytes + Flatten(bufs[..i + 1])
  {
    OneMore(bufs, i);
  }

  lemma OneMore(bufs: seq<seq<Byte>>, i: nat)
    requires i < |bufs|
    ensures Flatten(bufs[..i + 1]) == Flatten(bufs[..i]) + bufs[i]
    ensures bufs[..i + 1] == bufs[..i] + [bufs[i]]
  {
    FlattenAppend(bufs[..i], [bufs[i]]);
    assert bufs[..i + 1] == bufs[..i] + [bufs[i]];
    assert Flatten([bufs[i]]) == bufs[i] + [];
  }

  /** The helper thread's own state; its loops are cut at their blocking reads. */
  class HelperThread {
    const proto: Proto
    var meta: seq<Byte>
    var inPayload: bool
    var bytesToRead: nat
    var buf: seq<Byte>
    var tries: nat
    var delivered: seq<Delivery>

    ghost predicate Valid()
      reads this
    {
      ClientOk(proto, View())
    }

    ghost function View(): Client
      reads this
    {
      Client(meta, if inPayload then WantPayload(bytesToRead, buf, tries) else WantMeta, delivered)
    }

    constructor (proto: Proto, meta: seq<Byte>)
      requires |meta| == proto.metaLen > 0
      ensures Valid() && View() == Client(meta, WantMeta, []) && this.proto == proto
    {
      this.proto := proto;
      this.meta := meta;
      inPayload := false;
      bytesToRead := 0;
      buf := [];
      tries := 0;
      delivered := [];
    }

    /**
     * What the thread does between one read that returned `data` and the next; `flush` asks
     * to drop the pipe's bytes.
     */
    method HandleRead(data: seq<Byte>) returns (flush: bool)
      requires Valid() && 0 < |data| <= Wanted(proto, View())
      modifies this
      ensures Valid() && View() == OnRead(proto, old(View()), data)
      ensures flush == Flushes(proto, old(View()), data)
    {
      flush := false;
      if !inPayload {
        meta := data + meta[|data|..];
        var size := proto.check(meta);
        if size.None? {
          flush := true;
        } else if size.value == 0 {
          delivered := delivered + [Delivery(meta, [], 0)];
        } else if size.value > 0 {
          inPayload := true;
          bytesToRead := size.value;
          buf := [];
          tries := 0;
        }
        return;
      }
      buf := buf + data;
      tries := tries + 1;
      if |buf| == bytesToRead {
        delivered := delivered + [Delivery(meta, buf, tries)];
        inPayload := false;
      } else if tries == MAX_TRIES {
        inPayload := false;
      }
    }
  }
}
