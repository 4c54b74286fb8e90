/**
 * The ION buffer pool: buffers are claimed by a producer, sent to clients,
 * flagged as unused by the producer and released by each client. A buffer is
 * recycled through a free pass, or, when none is free, through a pass that
 * takes the one claimed longest ago. Generation stamps tell productions apart.
 */
module IonBufPool {
  import opened Prelude
  import opened BitMask

  const POOL_MAX := 64
  const UINT32 := 0x1_0000_0000

  /** How many claims of one buffer it takes until a generation stamp comes back. */
  const GENERATIONS := UINT32 - 1

  /** One column of the pool's arrays. */
  datatype Buf = Buf(inUse: bool, producerActive: bool, mask: bv32, refs: nat, gen: nat, time: int)

  /** The first `n` of the POOL_MAX columns are allocated. */
  datatype Pool = Pool(bufs: seq<Buf>, n: nat)

  datatype ReleaseMsg = ReleaseMsg(clientId: int, bufferId: int, gen: nat)

  const BLANK_BUF := Buf(false, false, 0, 0, 0, 0)

  ghost predicate WellFormed(p: Pool) {
    |p.bufs| == POOL_MAX && p.n <= POOL_MAX
  }

  ghost predicate IsEmptyPool(p: Pool) {
    WellFormed(p) && forall i :: 0 <= i < POOL_MAX ==> p.bufs[i] == BLANK_BUF
  }

  function NextGen(g: nat): nat {
    if (g + 1) % UINT32 == 0 then 1 else (g + 1) % UINT32
  }

  function BeginProduce(b: Buf, now: int): Buf {
    Buf(true, true, 0, 0, NextGen(b.gen), now)
  }

  ghost predicate Exhausted(p: Pool)
    requires WellFormed(p)
  {
    forall i :: 0 <= i < p.n ==> p.bufs[i].inUse
  }

  /** The buffer a claim at time `now` takes. */
  ghost predicate ClaimTakes(p: Pool, now: int, pick: Option<nat>)
    requires WellFormed(p)
  {
    if !Exhausted(p) then
      && pick.Some?
      && pick.value < p.n
      && !p.bufs[pick.value].inUse
      && forall j :: 0 <= j < pick.value ==> p.bufs[j].inUse
    else if pick.Some? then
      && pick.value < p.n
      && p.bufs[pick.value].time <= now
      && (forall j :: 0 <= j < p.n ==> p.bufs[pick.value].time <= p.bufs[j].time)
      && forall j :: 0 <= j < pick.value ==> p.bufs[pick.value].time < p.bufs[j].time
    else
      forall j :: 0 <= j < p.n ==> now < p.bufs[j].time
  }

  function Claimed(p: Pool, i: nat, now: int): Pool
    requires WellFormed(p) && i < p.n
  {
    p.(bufs := p.bufs[i := BeginProduce(p.bufs[i], now)])
  }

  predicate Idle(b: Buf) {
    b.refs == 0 && b.mask == 0
  }

  function FlagUnused(p: Pool, id: int): Pool
    requires WellFormed(p)
  {
    if id < 0 || id >= p.n then p
    else
      var b := p.bufs[id].(producerActive := false);
      p.(bufs := p.bufs[id := if Idle(b) then b.(inUse := false) else b])
  }

  /** A release message is refused, or drops a reference, or makes the function read and write past its arrays. */
  datatype Answer = Refused | Dropped | OutOfArrays

  function AnswerTo(p: Pool, msg: ReleaseMsg): Answer
    requires WellFormed(p)
  {
    if msg.bufferId < 0 || msg.bufferId > p.n then Refused
    else if msg.clientId < 0 || msg.clientId >= 32 then Refused
    else if msg.bufferId >= POOL_MAX then OutOfArrays
    else if msg.gen != p.bufs[msg.bufferId].gen then Refused
    else Dropped
  }

  /** One reference fewer, with the mask becoming `mask`. */
  function DropTo(b: Buf, mask: bv32): Buf {
    var b' := b.(mask := mask, refs := if b.refs > 0 then b.refs - 1 else 0);
    if Idle(b') then b'.(inUse := false) else b'
  }

  function DropRef(b: Buf, id: ClientId): Buf {
    DropTo(b, ClearBit(b.mask, id))
  }

  /** The pool after a release that stays in the arrays. */
  function Released(p: Pool, msg: ReleaseMsg): Pool
    requires WellFormed(p)
  {
    if AnswerTo(p, msg).Dropped?
    then p.(bufs := p.bufs[msg.bufferId := DropRef(p.bufs[msg.bufferId], msg.clientId as ClientId)])
    else p
  }

  function AddRef(b: Buf, id: ClientId): Buf {
    b.(mask := SetBit(b.mask, id), refs := (b.refs + 1) % UINT32)
  }

  /** References recorded for every client the buffer was sent to, in slot order. */
  function Recorded(b: Buf, sent: seq<bool>): Buf
    requires |sent| <= 32
  {
    if |sent| == 0 then b
    else
      var last := |sent| - 1;
      var r := Recorded(b, sent[..last]);
      if sent[last] then AddRef(r, last as ClientId) else r
  }

  function Written(p: Pool, i: nat, sent: seq<bool>): Pool
    requires WellFormed(p) && i < p.n && |sent| <= 32
  {
    p.(bufs := p.bufs[i := Recorded(p.bufs[i], sent)])
  }

  ghost function Receivers(sent: seq<bool>): set<ClientId>
    requires |sent| <= 32
  {
    if |sent| == 0 then {}
    else
      var last := |sent| - 1;
      Receivers(sent[..last]) + if sent[last] then {last as ClientId} else {}
  }

  /**
   * The buffer id one past the end passes the bound, whatever the pool's size. It is
   * harmless, in that no allocated buffer changes, if and only if fewer than the most
   * buffers are allocated; with all of them it leads past the arrays.
   */
  lemma OffByOneIsHarmlessExactly(p: Pool, msg: ReleaseMsg)
    requires WellFormed(p) && msg.bufferId == p.n && 0 <= msg.clientId < 32
    ensures !AnswerTo(p, msg).OutOfArrays? <==> p.n < 64
    ensures Released(p, msg).bufs[..p.n] == p.bufs[..p.n]
  {
  }

  /** No other message leads past the arrays. */
  lemma OutOfArraysExactly(p: Pool, msg: ReleaseMsg)
    requires WellFormed(p)
    ensures AnswerTo(p, msg).OutOfArrays? <==> p.n == 64 == msg.bufferId && 0 <= msg.clientId < 32
  {
  }

  lemma {:induction false} ReceiversAreSlots(sent: seq<bool>, k: nat)
    requires |sent| <= k < 32
    ensures (k as ClientId) !in Receivers(sent)
  {
    if |sent| > 0 {
      ReceiversAreSlots(sent[..|sent| - 1], k);
    }
  }

  lemma {:induction false} RecordedOnlyCounts(b: Buf, sent: seq<bool>)
    requires |sent| <= 32
    ensures Recorded(b, sent) == b.(mask := Recorded(b, sent).mask, refs := Recorded(b, sent).refs)
  {
    if |sent| > 0 {
      RecordedOnlyCounts(b, sent[..|sent| - 1]);
    }
  }

  /** Count and mask tell the same story about the clients that hold the buffer. */
  ghost predicate Accounts(b: Buf, ids: set<ClientId>) {
    Ids(b.mask) == ids && b.refs == |ids|
  }

  /** `r` has the references of `b` and one more for each of the clients in `ids`. */
  ghost predicate Added(b: Buf, r: Buf, ids: set<ClientId>) {
    Ids(r.mask) == Ids(b.mask) + ids && r.refs == b.refs + |ids|
  }

  lemma OneMoreId(base: set<ClientId>, ids: set<ClientId>, id: ClientId)
    requires id !in ids
    ensures base + ids + {id} == base + (ids + {id}) && |ids + {id}| == |ids| + 1
  {
  }

  lemma AddOne(b: Buf, r: Buf, ids: set<ClientId>, id: ClientId)
    requires Added(b, r, ids) && b.refs + |ids| < UINT32 - 1 && id !in ids
    ensures Added(b, AddRef(r, id), ids + {id})
  {
    var base := Ids(b.mask);
    var mask := SetBit(r.mask, id);
    IdsOfSetBit(r.mask, id);
    OneMoreId(base, ids, id);
    assert Ids(mask) == base + (ids + {id});
    assert AddRef(r, id) == r.(mask := mask, refs := r.refs + 1);
  }

  lemma {:induction false} FewReceivers(sent: seq<bool>)
    requires |sent| <= 32
    ensures |Receivers(sent)| <= |sent|
  {
    if |sent| > 0 {
      FewReceivers(sent[..|sent| - 1]);
    }
  }

  /** Recording a reference per receiver adds the receivers to the mask and their number to the count. */
  lemma {:induction false} RecordedCounts(b: Buf, sent: seq<bool>)
    requires |sent| <= 32 && b.refs <= 32
    ensures Added(b, Recorded(b, sent), Receivers(sent))
  {
    if |sent| == 0 {
      Unchanged(Ids(b.mask));
    } else {
      var last := |sent| - 1;
      var r, ids := Recorded(b, sent[..last]), Receivers(sent[..last]);
      RecordedCounts(b, sent[..last]);
      if sent[last] {
        ReceiversAreSlots(sent[..last], last);
        FewReceivers(sent[..last]);
        AddOne(b, r, ids, last as ClientId);
      } else {
        Unchanged(ids);
      }
    }
  }

  lemma Unchanged(ids: set<ClientId>)
    ensures ids + {} == ids
  {
  }

  lemma DisjointCount<T>(a: set<T>, b: set<T>)
    ensures |a + b| == |a| + |b| <==> a !! b
  {
    assert a + b == a + (b - a);
    assert b == (b - a) + a * b;
    assert a * b == {} <==> a !! b;
  }

  /** Mask and count stay in step if and only if no receiver holds the buffer already. */
  lemma RecordedAccountsExactly(b: Buf, ids: set<ClientId>, sent: seq<bool>)
    requires |sent| <= 32 && Accounts(b, ids)
    ensures Accounts(Recorded(b, sent), ids + Receivers(sent)) <==> ids !! Receivers(sent)
  {
    FewIds(b.mask, 32);
    RecordedCounts(b, sent);
    DisjointCount(ids, Receivers(sent));
  }

  // ---------------------------------------------------------------------------
  // Generation stamps

  /** The stamp of the q-th production of a buffer; stamp 0 is never used. */
  function GenOf(q: nat): nat {
    if q == 0 then 0 else (q - 1) % GENERATIONS + 1
  }

  lemma NextGenOf(q: nat)
    ensures NextGen(GenOf(q)) == GenOf(q + 1)
  {
  }

  lemma Factored(k: nat, l: int, m: nat)
    ensures (k + l) * m == k * m + l * m
  {
  }

  lemma SameRemainder(a: nat, b: nat, m: nat)
    requires m > 0 && a <= b && a % m == b % m
    ensures (b - a) % m == 0
  {
    var k, l := a / m, b / m;
    assert a == k * m + a % m && b == l * m + b % m;
    if l < k {
      MulStep(l, k, m);
    }
    Factored(k, l - k, m);
    DivUnique(b - a, m, l - k);
  }

  lemma WholeCycles(a: nat, b: nat, m: nat)
    requires m > 0 && a <= b && (b - a) % m == 0
    ensures a % m == b % m
  {
    var k, d := a / m, (b - a) / m;
    assert a == k * m + a % m && b - a == d * m;
    Factored(k, d, m);
    DivUnique(b, m, k + d);
  }

  /** Two productions share a stamp exactly when a whole number of stamp cycles separates them. */
  lemma SameStampExactly(q: nat, r: nat)
    requires 1 <= q <= r
    ensures GenOf(q) != 0
    ensures GenOf(q) == GenOf(r) <==> (r - q) % GENERATIONS == 0
  {
    if GenOf(q) == GenOf(r) {
      SameRemainder(q - 1, r - 1, GENERATIONS);
    }
    if (r - q) % GENERATIONS == 0 {
      WholeCycles(q - 1, r - 1, GENERATIONS);
    }
  }

  // ---------------------------------------------------------------------------
  // The pool object and its functions

  class BufPool {
    const nBufs: nat
    const inUse: array<bool>
    const producerActive: array<bool>
    const clientMask: array<bv32>
    const nClientReferences: array<nat>
    const generation: array<nat>
    const timeSent: array<int>

    ghost predicate Valid()
      reads this
    {
      && nBufs <= POOL_MAX
      && inUse.Length == producerActive.Length == clientMask.Length == POOL_MAX
      && nClientReferences.Length == generation.Length == timeSent.Length == POOL_MAX
      && (inUse as object) !in {producerActive as object, clientMask as object, nClientReferences as object,
                                generation as object, timeSent as object}
      && (producerActive as object) !in {clientMask as object, nClientReferences as object, generation as object,
                                         timeSent as object}
      && (clientMask as object) !in {nClientReferences as object, generation as object, timeSent as object}
      && (nClientReferences as object) !in {generation as object, timeSent as object}
      && (generation as object) != timeSent
    }

    ghost function Arrays(): set<object>
      reads this
    {
      {inUse as object, producerActive as object, clientMask as object, nClientReferences as object,
       generation as object, timeSent as object}
    }

    ghost function Column(i: nat): Buf
      requires Valid() && i < POOL_MAX
      reads this, Arrays()
    {
      Buf(inUse[i], producerActive[i], clientMask[i], nClientReferences[i], generation[i], timeSent[i])
    }

    ghost function Columns(k: nat): (s: seq<Buf>)
      requires Valid() && k <= POOL_MAX
      reads this, Arrays()
      ensures |s| == k
      ensures forall i :: 0 <= i < k ==> s[i] == Column(i)
    {
      if k == 0 then [] else Columns(k - 1) + [Column(k - 1)]
    }

    ghost function View(): (p: Pool)
      requires Valid()
      reads this, Arrays()
      ensures WellFormed(p)
    {
      Pool(Columns(inUse.Length), nBufs)
    }

    constructor (n: nat)
      requires n <= POOL_MAX
      ensures Valid() && IsEmptyPool(View()) && nBufs == n && fresh(Arrays())
    {
      nBufs := n;
      inUse := new bool[POOL_MAX](_ => false);
      producerActive := new bool[POOL_MAX](_ => false);
      clientMask := new bv32[POOL_MAX](_ => 0);
      nClientReferences := new nat[POOL_MAX](_ => 0);
      generation := new nat[POOL_MAX](_ => 0);
      timeSent := new int[POOL_MAX](_ => 0);
    }

    method BeginProduceLocked(i: nat, now: int)
      requires Valid() && i < nBufs
      modifies Arrays()
      ensures View() == Claimed(old(View()), i, now)
    {
      ghost var before := View();
      inUse[i] := true;
      producerActive[i] := true;
      clientMask[i] := 0;
      nClientReferences[i] := 0;
      generation[i] := (generation[i] + 1) % UINT32;
      if generation[i] == 0 {
        generation[i] := 1;
      }
      timeSent[i] := now;
      assert View().bufs == Claimed(before, i, now).bufs;
    }

    method ClaimUnusedBuf(now: int) returns (pick: Option<nat>)
      requires Valid()
      modifies Arrays()
      ensures ClaimTakes(old(View()), now, pick)
      ensures View() == if pick.Some? then Claimed(old(View()), pick.value, now) else old(View())
    {
      for i := 0 to nBufs
        invariant forall j :: 0 <= j < i ==> inUse[j]
      {
        if !inUse[i] {
          assert !Exhausted(View()) by { assert !View().bufs[i].inUse; }
          BeginProduceLocked(i, now);
          return Some(i);
        }
      }
      assert Exhausted(View());
      var oldest: Option<nat> := None;
      var oldestTime := -1;
      for i := 0 to nBufs
        invariant oldestTime >= -1
        invariant oldest.None? ==> oldestTime == -1
        invariant oldest.Some? ==> oldest.value < i && oldestTime == now - timeSent[oldest.value] >= 0
        invariant forall j :: 0 <= j < i ==> now - timeSent[j] <= oldestTime
        invariant oldest.Some? ==> forall j :: 0 <= j < oldest.value ==> now - timeSent[j] < oldestTime
      {
        var dt := now - timeSent[i];
        if dt > oldestTime {
          oldestTime := dt;
          oldest := Some(i);
        }
      }
      if oldest.Some? {
        BeginProduceLocked(oldest.value, now);
      }
      return oldest;
    }

    method FlagAsUnusedById(id: int) returns (err: int)
      requires Valid()
      modifies producerActive, inUse
      ensures View() == FlagUnused(old(View()), id)
      ensures err == if 0 <= id < nBufs then 0 else -1
    {
      if id < 0 || id >= nBufs {
        return -1;
      }
      ghost var before := View();
      producerActive[id] := false;
      if nClientReferences[id] == 0 && clientMask[id] == 0 {
        inUse[id] := false;
      }
      assert View().bufs == FlagUnused(before, id).bufs;
      return 0;
    }

    /**
     * The original answers 1 for `Refused` and 0 for `Dropped`; past its arrays it has no
     * defined behaviour, and this method stops.
     */
    method ProcessReleaseMsg(msg: ReleaseMsg) returns (answer: Answer)
      requires Valid()
      modifies clientMask, nClientReferences, inUse
      ensures answer == AnswerTo(old(View()), msg)
      ensures View() == Released(old(View()), msg)
    {
      if msg.bufferId < 0 || msg.bufferId > nBufs {
        return Refused;
      }
      if msg.clientId < 0 || msg.clientId >= 32 {
        return Refused;
      }
      var i := msg.bufferId;
      if i >= POOL_MAX {
        return OutOfArrays;
      }
      if msg.gen != generation[i] {
        return Refused;
      }
      ReleaseRef(i, ClearBit(clientMask[i], msg.clientId as ClientId));
      return Dropped;
    }

    method ReleaseRef(i: nat, mask: bv32)
      requires Valid() && i < POOL_MAX
      modifies clientMask, nClientReferences, inUse
      ensures View() == old(View()).(bufs := old(View()).bufs[i := DropTo(old(View()).bufs[i], mask)])
    {
      ghost var before := View();
      clientMask[i] := mask;
      if nClientReferences[i] > 0 {
        nClientReferences[i] := nClientReferences[i] - 1;
      }
      if nClientReferences[i] == 0 && clientMask[i] == 0 {
        inUse[i] := false;
      }
      assert View().bufs == before.bufs[i := DropTo(before.bufs[i], mask)];
    }

    method RecordRef(i: nat, id: ClientId)
      requires Valid() && i < POOL_MAX
      modifies clientMask, nClientReferences
      ensures View() == old(View()).(bufs := old(View()).bufs[i := AddRef(old(View()).bufs[i], id)])
    {
      ghost var before := View();
      clientMask[i] := SetBit(clientMask[i], id);
      nClientReferences[i] := (nClientReferences[i] + 1) % UINT32;
      assert View().bufs == before.bufs[i := AddRef(before.bufs[i], id)];
    }

    /** `sent[c]` says whether the buffer reached client slot c. */
    method WriteIonBuffer(i: nat, sent: seq<bool>)
      requires Valid() && i < nBufs && |sent| <= 32
      modifies clientMask, nClientReferences
      ensures View() == Written(old(View()), i, sent)
    {
      assert sent[..0] == [];
      for c := 0 to |sent|
        invariant View() == Written(old(View()), i, sent[..c])
      {
        assert sent[..c + 1][..c] == sent[..c];
        if sent[c] {
          RecordRef(i, c as ClientId);
        }
      }
      assert sent[..|sent|] == sent;
    }

    method GetNumUnused() returns (n: nat)
      requires Valid()
      ensures n == |set i: nat | i < nBufs && !View().bufs[i].inUse|
    {
      n := 0;
      ghost var seen: set<nat> := {};
      for i := 0 to nBufs
        invariant seen == set k: nat | k < i && !View().bufs[k].inUse
        invariant n == |seen|
      {
        if !inUse[i] {
          n := n + 1;
          seen := seen + {i};
        }
      }
    }
  }
}
