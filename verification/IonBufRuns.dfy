/** Whole runs of the ION buffer pool: one producer side, many clients, one clock. */
module IonBufRuns {
  import opened Prelude
  import opened BitMask
  import opened IonBufPool

  /** A client's open descriptor on one production of one buffer. */
  datatype Token = Token(client: ClientId, buf: nat, production: nat, gen: nat)

  /**
   * `count[i]` numbers the productions of buffer i, `written` holds the buffers whose
   * current production has been sent, `history` lists every claim in order.
   */
  datatype Sys = Sys(pool: Pool, count: seq<nat>, held: set<Token>, written: set<nat>, clock: int, history: seq<nat>)

  datatype Step =
    | Claim(now: int, pick: Option<nat>)
    | Write(buf: nat, sent: seq<bool>)
    | Flag(id: int)
    | Release(msg: ReleaseMsg)

  function MsgOf(t: Token): ReleaseMsg {
    ReleaseMsg(t.client as nat, t.buf, t.gen)
  }

  ghost predicate Shaped(s: Sys) {
    WellFormed(s.pool) && |s.count| == POOL_MAX
  }

  ghost predicate Init(s: Sys) {
    && IsEmptyPool(s.pool)
    && |s.count| == POOL_MAX && (forall i :: 0 <= i < POOL_MAX ==> s.count[i] == 0)
    && s.held == {} && s.written == {} && s.clock == -1 && s.history == []
  }

  ghost predicate Next(s: Sys, step: Step, s': Sys) {
    && Shaped(s)
    && match step
       case Claim(now, pick) =>
         && s.clock < now
         && ClaimTakes(s.pool, now, pick)
         && if pick.Some? then
              var i := pick.value;
              s' == Sys(Claimed(s.pool, i, now), s.count[i := s.count[i] + 1], s.held,
                        s.written - {i}, now, s.history + [i])
            else
              s' == s.(clock := now)
       case Write(i, sent) =>
         && i < s.pool.n && |sent| <= N_CLIENT
         && s' == s.(pool := Written(s.pool, i, sent),
                     held := s.held + NewTokens(s, i, sent),
                     written := s.written + {i})
       case Flag(id) =>
         s' == s.(pool := FlagUnused(s.pool, id))
       case Release(msg) =>
         && !AnswerTo(s.pool, msg).OutOfArrays?
         && s' == s.(pool := Released(s.pool, msg), held := set t | t in s.held && MsgOf(t) != msg)
  }

  ghost function NewTokens(s: Sys, i: nat, sent: seq<bool>): set<Token>
    requires Shaped(s) && i < s.pool.n && |sent| <= N_CLIENT
  {
    set c | c in Receivers(sent) :: Token(c, i, s.count[i], s.pool.bufs[i].gen)
  }

  ghost predicate IsRun(states: seq<Sys>, steps: seq<Step>) {
    && |states| == |steps| + 1
    && Init(states[0])
    && forall k :: 0 <= k < |steps| ==> Next(states[k], steps[k], states[k + 1])
  }

  // ---------------------------------------------------------------------------
  // Stamps

  ghost predicate StampInv(s: Sys) {
    && Shaped(s)
    && forall i :: 0 <= i < s.pool.n ==> s.pool.bufs[i].gen == GenOf(s.count[i])
  }

  lemma StampStep(s: Sys, step: Step, s': Sys)
    requires StampInv(s) && Next(s, step, s')
    ensures StampInv(s') && s'.pool.n == s.pool.n
  {
    match step
    case Claim(now, pick) =>
      if pick.Some? {
        NextGenOf(s.count[pick.value]);
      }
    case Write(i, sent) => RecordedOnlyCounts(s.pool.bufs[i], sent);
    case Flag(id) =>
    case Release(msg) =>
  }

  lemma {:induction false} StampRun(states: seq<Sys>, steps: seq<Step>, k: nat)
    requires IsRun(states, steps) && k < |states|
    ensures StampInv(states[k]) && states[k].pool.n == states[0].pool.n
  {
    if k > 0 {
      StampRun(states, steps, k - 1);
      StampStep(states[k - 1], steps[k - 1], states[k]);
    }
  }

  /**
   * The stamp a buffer showed at moment j is accepted by a release at moment k
   * exactly when no claim, or a whole number of stamp cycles of claims, lies between.
   */
  lemma StampAcceptedExactly(states: seq<Sys>, steps: seq<Step>, j: nat, k: nat, i: nat, client: ClientId)
    requires IsRun(states, steps) && j < |states| && k < |states| && i < states[0].pool.n
    requires Shaped(states[j]) && Shaped(states[k])
    requires 1 <= states[j].count[i] <= states[k].count[i] && states[k].pool.n == states[0].pool.n
    ensures AnswerTo(states[k].pool, ReleaseMsg(client as nat, i, states[j].pool.bufs[i].gen)).Dropped? <==>
            (states[k].count[i] - states[j].count[i]) % GENERATIONS == 0
    ensures states[j].pool.bufs[i].gen != 0
  {
    StampRun(states, steps, j);
    StampRun(states, steps, k);
    SameStampExactly(states[j].count[i], states[k].count[i]);
  }

  /**
   * A release message left over from an earlier production changes nothing in the
   * pool while fewer than 2^32 - 1 claims of that buffer have gone by, in every
   * run and across the wrap of the stamp counter.
   */
  lemma StaleReleaseIsIgnored(states: seq<Sys>, steps: seq<Step>, j: nat, k: nat, i: nat, client: ClientId)
    requires IsRun(states, steps) && j < |states| && k < |states| && i < states[0].pool.n
    requires Shaped(states[j]) && Shaped(states[k])
    requires 1 <= states[j].count[i] < states[k].count[i] < states[j].count[i] + GENERATIONS
    ensures states[k].pool.n == states[0].pool.n
    ensures Released(states[k].pool, ReleaseMsg(client as nat, i, states[j].pool.bufs[i].gen)) == states[k].pool
  {
    StampRun(states, steps, k);
    StampAcceptedExactly(states, steps, j, k, i, client);
  }

  // ---------------------------------------------------------------------------
  // Oldest-first reuse

  /** One past the position of the last claim of buffer i, or 0. */
  ghost function LastClaim(history: seq<nat>, i: nat): (p: nat)
    ensures p <= |history|
    ensures p > 0 ==> history[p - 1] == i
    ensures forall q :: p <= q < |history| ==> history[q] != i
  {
    if |history| == 0 then 0
    else if history[|history| - 1] == i then |history|
    else LastClaim(history[..|history| - 1], i)
  }

  ghost predicate TimeInv(s: Sys) {
    && Shaped(s)
    && s.clock >= -1
    && (forall i :: 0 <= i < s.pool.n ==>
          && (s.pool.bufs[i].inUse ==> LastClaim(s.history, i) > 0)
          && s.pool.bufs[i].time <= Max(s.clock, 0))
    && (forall i, j :: 0 <= i < s.pool.n && 0 <= j < s.pool.n
                       && LastClaim(s.history, i) > 0 && LastClaim(s.history, j) > 0 ==>
          (s.pool.bufs[i].time < s.pool.bufs[j].time <==> LastClaim(s.history, i) < LastClaim(s.history, j)))
    && (forall i :: 0 <= i < s.pool.n && LastClaim(s.history, i) > 0 ==> s.pool.bufs[i].time <= s.clock)
  }

  /** Only a claim changes a time or takes a buffer into use. */
  lemma OtherStepsKeepTimes(s: Sys, step: Step, s': Sys)
    requires Next(s, step, s') && !step.Claim?
    ensures Shaped(s') && s'.pool.n == s.pool.n && s'.clock == s.clock && s'.history == s.history
    ensures forall i :: 0 <= i < s.pool.n ==> s'.pool.bufs[i].time == s.pool.bufs[i].time
    ensures forall i :: 0 <= i < s.pool.n ==> s'.pool.bufs[i].inUse ==> s.pool.bufs[i].inUse
  {
    match step
    case Write(i, sent) => RecordedOnlyCounts(s.pool.bufs[i], sent);
    case Flag(id) =>
    case Release(msg) =>
  }

  lemma ClaimKeepsTimes(s: Sys, step: Step, s': Sys)
    requires TimeInv(s) && Next(s, step, s') && step.Claim?
    ensures TimeInv(s')
  {
    if step.pick.Some? {
      var v := step.pick.value;
      forall j: nat | j < s.pool.n
        ensures LastClaim(s'.history, j) == if j == v then |s.history| + 1 else LastClaim(s.history, j)
      {
      }
    }
  }

  lemma TimeStep(s: Sys, step: Step, s': Sys)
    requires TimeInv(s) && Next(s, step, s')
    ensures TimeInv(s')
  {
    if step.Claim? {
      ClaimKeepsTimes(s, step, s');
    } else {
      OtherStepsKeepTimes(s, step, s');
    }
  }

  lemma {:induction false} TimeRun(states: seq<Sys>, steps: seq<Step>, k: nat)
    requires IsRun(states, steps) && k < |states|
    ensures TimeInv(states[k])
  {
    if k > 0 {
      TimeRun(states, steps, k - 1);
      TimeStep(states[k - 1], steps[k - 1], states[k]);
    }
  }

  /**
   * In every run with a strictly increasing clock a claim on a non-empty pool
   * succeeds, and when no buffer is free it takes the one claimed longest ago:
   * every other buffer has been claimed since.
   */
  lemma ClaimSucceedsOldestFirst(states: seq<Sys>, steps: seq<Step>, k: nat)
    requires IsRun(states, steps) && k < |steps| && steps[k].Claim?
    requires Shaped(states[k]) && states[k].pool.n > 0
    ensures steps[k].pick.Some?
    ensures Exhausted(states[k].pool) ==>
              forall j: nat :: j < states[k].pool.n && j != steps[k].pick.value ==>
                0 < LastClaim(states[k].history, steps[k].pick.value) < LastClaim(states[k].history, j)
  {
    TimeRun(states, steps, k);
    var s := states[k];
    assert Next(s, steps[k], states[k + 1]);
    var pick := steps[k].pick;
    if Exhausted(s.pool) {
      assert s.pool.bufs[0].inUse;
      if pick.Some? {
        forall j: nat | j < s.pool.n && j != pick.value
          ensures 0 < LastClaim(s.history, pick.value) < LastClaim(s.history, j)
        {
          assert s.pool.bufs[pick.value].inUse && s.pool.bufs[j].inUse;
          var p, q := LastClaim(s.history, pick.value), LastClaim(s.history, j);
          assert p > 0 && q > 0;
          assert s.history[p - 1] == pick.value && s.history[q - 1] == j;
        }
      }
    }
  }

  // ---------------------------------------------------------------------------
  // Reference accounting

  /** The clients that hold the current production of buffer i. */
  ghost function Holders(s: Sys, i: nat): set<ClientId>
    requires Shaped(s) && i < POOL_MAX
  {
    set t | t in s.held && t.buf == i && t.production == s.count[i] :: t.client
  }

  lemma HoldsCurrent(s: Sys, t: Token)
    requires Shaped(s) && t in s.held && t.buf < POOL_MAX && t.production == s.count[t.buf]
    ensures t.client in Holders(s, t.buf)
  {
  }

  /** The message drops a reference of an allocated buffer. */
  ghost predicate DropsRef(s: Sys, msg: ReleaseMsg)
    requires Shaped(s)
  {
    AnswerTo(s.pool, msg).Dropped? && msg.bufferId < s.pool.n
  }

  /**
   * A buffer is sent while it is in use, and to no client that holds its current
   * production already; a reference is dropped only by a client that holds it, if
   * any does.
   */
  ghost predicate Disciplined(s: Sys, step: Step) {
    && Shaped(s)
    && match step
       case Claim(_, _) => true
       case Write(i, sent) =>
         && i < s.pool.n && |sent| <= N_CLIENT
         && Holders(s, i) !! Receivers(sent) && (Receivers(sent) == {} || s.pool.bufs[i].inUse)
       case Flag(_) => true
       case Release(msg) =>
         DropsRef(s, msg) ==> Holders(s, msg.bufferId) == {} || msg.clientId as ClientId in Holders(s, msg.bufferId)
  }

  ghost predicate IsDisciplinedRun(states: seq<Sys>, steps: seq<Step>) {
    && IsRun(states, steps)
    && forall k :: 0 <= k < |steps| ==> Disciplined(states[k], steps[k])
  }

  ghost predicate TokensInv(s: Sys)
    requires Shaped(s)
  {
    forall t :: t in s.held ==>
      t.buf < s.pool.n && 1 <= t.production <= s.count[t.buf] && t.gen == GenOf(t.production)
  }

  /** What holds of one column, given who holds its current production. */
  ghost predicate ColumnInv(b: Buf, holders: set<ClientId>, productions: nat) {
    Accounts(b, holders) && (if b.inUse then productions >= 1 else holders == {})
  }

  ghost predicate BufInv(s: Sys, i: nat)
    requires Shaped(s) && i < POOL_MAX
  {
    ColumnInv(s.pool.bufs[i], Holders(s, i), s.count[i])
  }

  ghost predicate AccountInv(s: Sys) {
    && StampInv(s)
    && TokensInv(s)
    && forall i: nat :: i < s.pool.n ==> BufInv(s, i)
  }

  lemma ClaimKeepsAccounts(s: Sys, step: Step, s': Sys)
    requires AccountInv(s) && Next(s, step, s') && step.Claim?
    ensures AccountInv(s')
  {
    StampStep(s, step, s');
    if step.pick.Some? {
      var v := step.pick.value;
      NoIdsMeansZero(0);
      forall i: nat | i < s.pool.n ensures BufInv(s', i) {
        assert BufInv(s, i);
        assert Holders(s', i) == if i == v then {} else Holders(s, i);
      }
    } else {
      forall i: nat | i < s.pool.n ensures BufInv(s', i) {
        assert BufInv(s, i);
        assert Holders(s', i) == Holders(s, i);
      }
    }
  }

  lemma NewHolders(s: Sys, s': Sys, v: nat, sent: seq<bool>, i: nat)
    requires Shaped(s) && v < s.pool.n && |sent| <= N_CLIENT && i < s.pool.n
    requires Shaped(s') && s'.held == s.held + NewTokens(s, v, sent) && s'.count == s.count
    ensures Holders(s', i) == if i == v then Holders(s, i) + Receivers(sent) else Holders(s, i)
  {
    forall c | c in Receivers(sent) ensures c in Holders(s', v) {
      assert Token(c, v, s.count[v], s.pool.bufs[v].gen) in s'.held;
    }
    forall c | c in Holders(s', i) ensures c in Holders(s, i) || (i == v && c in Receivers(sent)) {
      var t :| t in s'.held && t.buf == i && t.production == s'.count[i] && t.client == c;
    }
    forall c | c in Holders(s, i) ensures c in Holders(s', i) {
      var t :| t in s.held && t.buf == i && t.production == s.count[i] && t.client == c;
      assert t in s'.held;
    }
  }

  /** Sending a buffer keeps the accounts exactly if it is in use and no receiver holds it. */
  lemma WriteKeepsAccountsExactly(s: Sys, step: Step, s': Sys)
    requires AccountInv(s) && Next(s, step, s') && step.Write?
    ensures AccountInv(s') <==> Disciplined(s, step)
  {
    StampStep(s, step, s');
    var v, sent := step.buf, step.sent;
    var b := s.pool.bufs[v];
    assert BufInv(s, v);
    RecordedAccountsExactly(b, Holders(s, v), sent);
    RecordedOnlyCounts(b, sent);
    NewHolders(s, s', v, sent, v);
    assert BufInv(s', v) <==> Disciplined(s, step);
    if Disciplined(s, step) {
      forall i: nat | i < s.pool.n ensures BufInv(s', i) {
        assert BufInv(s, i);
        NewHolders(s, s', v, sent, i);
      }
    }
  }

  lemma FlagKeepsAccounts(s: Sys, step: Step, s': Sys)
    requires AccountInv(s) && Next(s, step, s') && step.Flag?
    ensures AccountInv(s')
  {
    StampStep(s, step, s');
    forall i: nat | i < s.pool.n ensures BufInv(s', i) {
      assert BufInv(s, i);
      assert Holders(s', i) == Holders(s, i);
      NoIdsMeansZero(s.pool.bufs[i].mask);
    }
  }

  /** Client `c` loses its hold on buffer `i`. */
  ghost predicate Loses(s: Sys, msg: ReleaseMsg, i: nat, c: ClientId)
    requires Shaped(s)
  {
    DropsRef(s, msg) && msg.bufferId == i && c == msg.clientId as ClientId
  }

  lemma HoldAfterRelease(s: Sys, msg: ReleaseMsg, s': Sys, i: nat, c: ClientId)
    requires AccountInv(s) && Next(s, Release(msg), s') && i < s.pool.n
    ensures c in Holders(s', i) <==> c in Holders(s, i) && !Loses(s, msg, i, c)
  {
    if c in Holders(s, i) {
      var t :| t in s.held && t.buf == i && t.production == s.count[i] && t.client == c;
      CurrentMessage(s, t, msg);
      if c in Holders(s', i) {
        var u :| u in s'.held && u.buf == i && u.production == s'.count[i] && u.client == c;
        CurrentMessage(s, u, msg);
      }
    }
  }

  /** Who holds a buffer after a release: nobody changes but the sender, and only where a reference was dropped. */
  lemma HoldersAfterRelease(s: Sys, msg: ReleaseMsg, s': Sys, i: nat)
    requires AccountInv(s) && Next(s, Release(msg), s') && i < s.pool.n
    ensures Holders(s', i) ==
            if DropsRef(s, msg) && msg.bufferId == i then Holders(s, i) - {msg.clientId as ClientId} else Holders(s, i)
  {
    forall c ensures c in Holders(s', i) <==> c in Holders(s, i) && !Loses(s, msg, i, c) {
      HoldAfterRelease(s, msg, s', i, c);
    }
  }

  /** A client that holds the current production sends its message exactly when it drops its own reference. */
  lemma CurrentMessage(s: Sys, t: Token, msg: ReleaseMsg)
    requires AccountInv(s) && t in s.held && t.production == s.count[t.buf]
    ensures MsgOf(t) == msg <==> DropsRef(s, msg) && msg.bufferId == t.buf && t.client == msg.clientId as ClientId
  {
    if DropsRef(s, msg) && msg.bufferId == t.buf && t.client == msg.clientId as ClientId {
      IdOfNumber(msg.clientId);
    }
  }

  lemma IdOfNumber(n: nat)
    requires n < 32
    ensures n as ClientId as nat == n
  {
  }

  lemma DropRefAccounts(b: Buf, id: ClientId, holders: set<ClientId>)
    requires Ids(b.mask) == holders && b.refs == |holders| && id in holders
    ensures Ids(DropRef(b, id).mask) == holders - {id}
    ensures DropRef(b, id).refs == |holders - {id}|
    ensures DropRef(b, id).inUse == (b.inUse && holders != {id})
    ensures DropRef(b, id) ==
            b.(mask := DropRef(b, id).mask, refs := DropRef(b, id).refs, inUse := DropRef(b, id).inUse)
  {
    IdsOfClearBit(b.mask, id);
    NoIdsMeansZero(ClearBit(b.mask, id));
    assert holders != {id} ==> holders - {id} != {};
  }

  /** Dropping a reference keeps the column's accounts exactly if the sender holds one or nobody does. */
  lemma DropKeepsColumnExactly(b: Buf, id: ClientId, holders: set<ClientId>, productions: nat)
    requires ColumnInv(b, holders, productions)
    ensures ColumnInv(DropRef(b, id), holders - {id}, productions) <==> holders == {} || id in holders
    ensures DropRef(b, id) ==
            b.(mask := DropRef(b, id).mask, refs := DropRef(b, id).refs, inUse := DropRef(b, id).inUse)
    ensures holders == {} || id in holders ==> DropRef(b, id).inUse == (b.inUse && !(holders <= {id}))
  {
    if id in holders {
      DropRefAccounts(b, id, holders);
      assert holders <= {id} <==> holders == {id};
    } else {
      assert holders - {id} == holders;
      DropNothing(b, id);
    }
  }

  /** A drop by a client that holds nothing leaves the mask alone. */
  lemma DropNothing(b: Buf, id: ClientId)
    requires id !in Ids(b.mask)
    ensures Ids(DropRef(b, id).mask) == Ids(b.mask)
    ensures DropRef(b, id).refs == if b.refs > 0 then b.refs - 1 else 0
    ensures DropRef(b, id).inUse == (b.inUse && !(Ids(b.mask) == {} && b.refs <= 1))
    ensures DropRef(b, id) ==
            b.(mask := DropRef(b, id).mask, refs := DropRef(b, id).refs, inUse := DropRef(b, id).inUse)
  {
    IdsOfClearBit(b.mask, id);
    NoIdsMeansZero(ClearBit(b.mask, id));
    assert Ids(b.mask) - {id} == Ids(b.mask);
  }

  lemma ReleaseKeepsBufExactly(s: Sys, msg: ReleaseMsg, s': Sys, i: nat)
    requires AccountInv(s) && Next(s, Release(msg), s') && i < s.pool.n
    ensures BufInv(s', i) <==> (DropsRef(s, msg) && msg.bufferId == i ==> Disciplined(s, Release(msg)))
  {
    assert BufInv(s, i);
    HoldersAfterRelease(s, msg, s', i);
    if DropsRef(s, msg) && msg.bufferId == i {
      DropKeepsColumnExactly(s.pool.bufs[i], msg.clientId as ClientId, Holders(s, i), s.count[i]);
    }
  }

  /**
   * A release keeps the accounts exactly if it drops a reference of the sender's own, or
   * none at all, or nobody has any.
   */
  lemma ReleaseKeepsAccountsExactly(s: Sys, step: Step, s': Sys)
    requires AccountInv(s) && Next(s, step, s') && step.Release?
    ensures AccountInv(s') <==> Disciplined(s, step)
  {
    StampStep(s, step, s');
    forall i: nat | i < s.pool.n
      ensures BufInv(s', i) <==> (DropsRef(s, step.msg) && step.msg.bufferId == i ==> Disciplined(s, step))
    {
      ReleaseKeepsBufExactly(s, step.msg, s', i);
    }
    if DropsRef(s, step.msg) {
      assert BufInv(s', step.msg.bufferId) <==> Disciplined(s, step);
    }
  }

  /** A step keeps mask, count and holders in agreement if and only if it is disciplined. */
  lemma StepKeepsAccountsExactly(s: Sys, step: Step, s': Sys)
    requires AccountInv(s) && Next(s, step, s')
    ensures AccountInv(s') <==> Disciplined(s, step)
  {
    match step
    case Claim(_, _) => ClaimKeepsAccounts(s, step, s');
    case Write(_, _) => WriteKeepsAccountsExactly(s, step, s');
    case Flag(_) => FlagKeepsAccounts(s, step, s');
    case Release(_) => ReleaseKeepsAccountsExactly(s, step, s');
  }

  lemma {:induction false} AccountRun(states: seq<Sys>, steps: seq<Step>, k: nat)
    requires IsDisciplinedRun(states, steps) && k < |states|
    ensures AccountInv(states[k])
  {
    if k == 0 {
    } else {
      AccountRun(states, steps, k - 1);
      StepKeepsAccountsExactly(states[k - 1], steps[k - 1], states[k]);
    }
  }

  /** In every run the accounts have been right up to moment `k` if and only if every step so far was disciplined. */
  lemma {:induction false} AccountsExactly(states: seq<Sys>, steps: seq<Step>, k: nat)
    requires IsRun(states, steps) && k < |states|
    ensures (forall j :: 0 <= j <= k ==> AccountInv(states[j])) <==>
            (forall j :: 0 <= j < k ==> Disciplined(states[j], steps[j]))
  {
    if k == 0 {
    } else {
      AccountsExactly(states, steps, k - 1);
      if AccountInv(states[k - 1]) {
        StepKeepsAccountsExactly(states[k - 1], steps[k - 1], states[k]);
      }
    }
  }

  // ---------------------------------------------------------------------------
  // The protocol that producer and clients are meant to follow

  /**
   * A buffer is sent once, between its claim and its flag; clients release what they hold
   * before the stamps come around.
   */
  ghost predicate Follows(s: Sys, step: Step) {
    && Shaped(s)
    && match step
       case Claim(_, _) => true
       case Write(i, sent) => i < s.pool.n && s.pool.bufs[i].producerActive && i !in s.written
       case Flag(_) => true
       case Release(msg) =>
         exists t :: t in s.held && MsgOf(t) == msg && t.buf < POOL_MAX && s.count[t.buf] < t.production + GENERATIONS
  }

  /** What has not been sent is held by nobody, and is in use while its producer is active. */
  ghost predicate WrittenInv(s: Sys)
    requires Shaped(s)
  {
    forall i: nat :: i < s.pool.n ==> UnwrittenInv(s, i)
  }

  /** A client's message is refused, or drops a reference of its own. */
  lemma OwnRelease(s: Sys, t: Token)
    requires AccountInv(s) && t in s.held && s.count[t.buf] < t.production + GENERATIONS
    ensures DropsRef(s, MsgOf(t)) <==> t.production == s.count[t.buf]
    ensures Disciplined(s, Release(MsgOf(t)))
  {
    SameStampExactly(t.production, s.count[t.buf]);
    if t.production == s.count[t.buf] {
      HoldsCurrent(s, t);
    }
  }

  lemma FollowingIsDisciplined(s: Sys, step: Step, s': Sys)
    requires AccountInv(s) && WrittenInv(s) && Next(s, step, s') && Follows(s, step)
    ensures Disciplined(s, step)
  {
    if step.Release? {
      var t :| t in s.held && MsgOf(t) == step.msg && t.buf < POOL_MAX && s.count[t.buf] < t.production + GENERATIONS;
      OwnRelease(s, t);
    } else if step.Write? {
      assert UnwrittenInv(s, step.buf);
    }
  }

  /** The part of that about one buffer. */
  ghost predicate UnwrittenInv(s: Sys, i: nat)
    requires Shaped(s) && i < POOL_MAX
  {
    i !in s.written ==> Holders(s, i) == {} && (s.pool.bufs[i].producerActive ==> s.pool.bufs[i].inUse)
  }

  lemma ClaimKeepsUnwritten(s: Sys, step: Step, s': Sys, i: nat)
    requires AccountInv(s) && i < s.pool.n && UnwrittenInv(s, i) && Next(s, step, s') && step.Claim?
    ensures Shaped(s') && UnwrittenInv(s', i)
  {
    if step.pick == Some(i) {
      assert Holders(s', i) == {};
    } else {
      assert Holders(s', i) == Holders(s, i);
    }
  }

  lemma ReleaseKeepsUnwritten(s: Sys, step: Step, s': Sys, i: nat)
    requires AccountInv(s) && i < s.pool.n && UnwrittenInv(s, i)
    requires Next(s, step, s') && step.Release? && Follows(s, step)
    ensures Shaped(s') && UnwrittenInv(s', i)
  {
    var t :| t in s.held && MsgOf(t) == step.msg && t.buf < POOL_MAX && s.count[t.buf] < t.production + GENERATIONS;
    OwnRelease(s, t);
    HoldersAfterRelease(s, step.msg, s', i);
    if t.production == s.count[t.buf] {
      HoldsCurrent(s, t);
    }
  }

  lemma WrittenStep(s: Sys, step: Step, s': Sys)
    requires AccountInv(s) && WrittenInv(s) && Next(s, step, s') && Follows(s, step)
    ensures Shaped(s') && WrittenInv(s')
  {
    StampStep(s, step, s');
    forall i: nat | i < s.pool.n ensures UnwrittenInv(s', i) {
      assert UnwrittenInv(s, i);
      match step
      case Claim(_, _) => ClaimKeepsUnwritten(s, step, s', i);
      case Write(v, sent) => NewHolders(s, s', v, sent, i);
      case Flag(_) => assert Holders(s', i) == Holders(s, i);
      case Release(_) => ReleaseKeepsUnwritten(s, step, s', i);
    }
  }

  /** Every run that follows the protocol is disciplined, so its accounts are right. */
  lemma {:induction false} ProtocolIsDisciplined(states: seq<Sys>, steps: seq<Step>, k: nat)
    requires IsRun(states, steps) && k < |states| && forall j :: 0 <= j < |steps| ==> Follows(states[j], steps[j])
    ensures AccountInv(states[k]) && WrittenInv(states[k])
    ensures forall j :: 0 <= j < k ==> Disciplined(states[j], steps[j])
  {
    if k == 0 {
      assert forall i: nat :: i < states[0].pool.n ==> Holders(states[0], i) == {};
    } else {
      ProtocolIsDisciplined(states, steps, k - 1);
      FollowingIsDisciplined(states[k - 1], steps[k - 1], states[k]);
      StepKeepsAccountsExactly(states[k - 1], steps[k - 1], states[k]);
      WrittenStep(states[k - 1], steps[k - 1], states[k]);
    }
  }

  // ---------------------------------------------------------------------------
  // What disciplined runs keep

  /**
   * In every state of every disciplined run: the mask of a buffer is exactly the
   * set of clients holding its current production, the reference count is their
   * number, and a buffer not in use has neither.
   */
  lemma ReferencesAreExact(states: seq<Sys>, steps: seq<Step>, k: nat, i: nat)
    requires IsDisciplinedRun(states, steps) && k < |states| && i < states[0].pool.n
    ensures Shaped(states[k]) && states[k].pool.n == states[0].pool.n
    ensures Ids(states[k].pool.bufs[i].mask) == Holders(states[k], i)
    ensures states[k].pool.bufs[i].refs == |Ids(states[k].pool.bufs[i].mask)|
    ensures !states[k].pool.bufs[i].inUse ==> states[k].pool.bufs[i].mask == 0 && states[k].pool.bufs[i].refs == 0
  {
    AccountRun(states, steps, k);
    StampRun(states, steps, k);
    assert BufInv(states[k], i);
    NoIdsMeansZero(states[k].pool.bufs[i].mask);
  }

  /** The free pass never takes a buffer whose current production some client holds. */
  lemma FreePassTakesUnheld(states: seq<Sys>, steps: seq<Step>, k: nat)
    requires IsDisciplinedRun(states, steps) && k < |steps| && steps[k].Claim?
    requires Shaped(states[k]) && !Exhausted(states[k].pool)
    ensures steps[k].pick.Some? && steps[k].pick.value < states[k].pool.n
    ensures Holders(states[k], steps[k].pick.value) == {}
  {
    AccountRun(states, steps, k);
    assert Next(states[k], steps[k], states[k + 1]);
    assert BufInv(states[k], steps[k].pick.value);
  }

  // ---------------------------------------------------------------------------
  // Descriptors on older productions

  /** Every descriptor a client holds is on its buffer's current production. */
  ghost predicate AllCurrent(s: Sys)
    requires Shaped(s) && TokensInv(s)
  {
    forall t :: t in s.held ==> t.production == s.count[t.buf]
  }

  /** Nobody holds a descriptor on any production of buffer `i`. */
  ghost predicate Unheld(s: Sys, i: nat) {
    forall t :: t in s.held ==> t.buf != i
  }

  /** A claim leaves a descriptor on an older production exactly when somebody holds the buffer it takes. */
  lemma ClaimKeepsCurrentExactly(s: Sys, step: Step, s': Sys)
    requires AccountInv(s) && AllCurrent(s) && Next(s, step, s') && step.Claim? && step.pick.Some?
    ensures AccountInv(s')
    ensures AllCurrent(s') <==> Holders(s, step.pick.value) == {}
  {
    ClaimKeepsAccounts(s, step, s');
    var v := step.pick.value;
    if c :| c in Holders(s, v) {
      var t :| t in s.held && t.buf == v && t.production == s.count[v] && t.client == c;
      assert t in s'.held;
    }
    if Holders(s, v) == {} {
      forall t | t in s'.held ensures t.production == s'.count[t.buf] {
        HoldsCurrent(s, t);
      }
    }
  }

  /** The claim at step `j`, if it is one, takes a buffer whose current production nobody holds. */
  ghost predicate ClaimsUnheld(s: Sys, step: Step) {
    step.Claim? && step.pick.Some? && step.pick.value < POOL_MAX ==> Shaped(s) && Holders(s, step.pick.value) == {}
  }

  ghost predicate CurrentUpTo(states: seq<Sys>, k: nat)
    requires k < |states|
  {
    forall i :: 0 <= i <= k ==> AccountInv(states[i]) && AllCurrent(states[i])
  }

  lemma StepKeepsCurrentExactly(s: Sys, step: Step, s': Sys)
    requires AccountInv(s) && AllCurrent(s) && Next(s, step, s') && AccountInv(s')
    ensures AllCurrent(s') <==> ClaimsUnheld(s, step)
  {
    if step.Claim? && step.pick.Some? {
      ClaimKeepsCurrentExactly(s, step, s');
    }
  }

  /** All descriptors have been current up to moment `k` if and only if no claim so far took a held buffer. */
  lemma {:induction false} AllCurrentExactly(states: seq<Sys>, steps: seq<Step>, k: nat)
    requires IsDisciplinedRun(states, steps) && k < |states|
    ensures CurrentUpTo(states, k) <==> forall j :: 0 <= j < k ==> ClaimsUnheld(states[j], steps[j])
  {
    AccountRun(states, steps, k);
    if k > 0 {
      AllCurrentExactly(states, steps, k - 1);
      AccountRun(states, steps, k - 1);
      if AllCurrent(states[k - 1]) {
        StepKeepsCurrentExactly(states[k - 1], steps[k - 1], states[k]);
      }
    }
  }

  /**
   * In a run in which no claim has met an exhausted pool, a claim takes a buffer of
   * which nobody holds any production.
   */
  lemma UnexhaustedClaimsTakeUnheld(states: seq<Sys>, steps: seq<Step>, k: nat)
    requires IsDisciplinedRun(states, steps) && k < |steps| && steps[k].Claim?
    requires forall j :: 0 <= j <= k && steps[j].Claim? ==> Shaped(states[j]) && !Exhausted(states[j].pool)
    ensures steps[k].pick.Some? && Unheld(states[k], steps[k].pick.value)
  {
    forall j | 0 <= j < k ensures ClaimsUnheld(states[j], steps[j]) {
      if steps[j].Claim? {
        FreePassTakesUnheld(states, steps, j);
      }
    }
    AllCurrentExactly(states, steps, k);
    FreePassTakesUnheld(states, steps, k);
    var v := steps[k].pick.value;
    assert AllCurrent(states[k]);
    forall t | t in states[k].held ensures t.buf != v {
      HoldsCurrent(states[k], t);
    }
  }

  // ---------------------------------------------------------------------------
  // Productions interrupted by a claim

  predicate Touches(step: Step, v: nat) {
    (step.Claim? && step.pick == Some(v)) || step == Flag(v)
  }

  /** Between steps `j` and `k` buffer `v` is neither claimed nor flagged. */
  ghost predicate Untouched(steps: seq<Step>, j: nat, k: nat, v: nat)
    requires k <= |steps|
  {
    forall m :: j < m < k ==> !Touches(steps[m], v)
  }

  ghost predicate ClaimedSince(steps: seq<Step>, k: nat, v: nat)
    requires k <= |steps|
  {
    exists j :: 0 <= j < k && steps[j].Claim? && steps[j].pick == Some(v) && Untouched(steps, j, k, v)
  }

  /** A release that drops the last reference, or finds none, while the producer is active. */
  ghost predicate FreesActive(s: Sys, step: Step, v: nat) {
    && Shaped(s) && v < s.pool.n && s.pool.bufs[v].producerActive
    && step.Release? && DropsRef(s, step.msg) && step.msg.bufferId == v
    && Holders(s, v) <= {step.msg.clientId as ClientId}
  }

  ghost predicate FreedSince(states: seq<Sys>, steps: seq<Step>, k: nat, v: nat)
    requires k <= |steps| <= |states|
  {
    exists j :: 0 <= j < k && FreesActive(states[j], steps[j], v) && Untouched(steps, j, k, v)
  }

  ghost predicate ActiveUnused(s: Sys, v: nat)
    requires Shaped(s) && v < POOL_MAX
  {
    s.pool.bufs[v].producerActive && !s.pool.bufs[v].inUse
  }

  /** Every active buffer is in use. */
  ghost predicate ActiveInUse(s: Sys)
    requires Shaped(s)
  {
    forall i: nat :: i < s.pool.n ==> !ActiveUnused(s, i)
  }

  /** What a disciplined release does to the flags of buffer `v`. */
  lemma ReleaseFlags(s: Sys, msg: ReleaseMsg, s': Sys, v: nat)
    requires AccountInv(s) && Next(s, Release(msg), s') && Disciplined(s, Release(msg)) && v < s.pool.n
    ensures s'.pool.bufs[v].producerActive == s.pool.bufs[v].producerActive
    ensures s'.pool.bufs[v].inUse ==
            (s.pool.bufs[v].inUse &&
             !(DropsRef(s, msg) && msg.bufferId == v && Holders(s, v) <= {msg.clientId as ClientId}))
  {
    assert BufInv(s, v);
    if DropsRef(s, msg) && msg.bufferId == v {
      DropKeepsColumnExactly(s.pool.bufs[v], msg.clientId as ClientId, Holders(s, v), s.count[v]);
    }
  }

  /** A release keeps every active buffer in use unless it drops the last reference of one. */
  lemma ReleaseKeepsActiveInUseExactly(s: Sys, msg: ReleaseMsg, s': Sys)
    requires AccountInv(s) && ActiveInUse(s) && Next(s, Release(msg), s') && Disciplined(s, Release(msg))
    ensures Shaped(s')
    ensures ActiveInUse(s') <==> !(DropsRef(s, msg) && FreesActive(s, Release(msg), msg.bufferId))
  {
    forall i: nat | i < s.pool.n ensures ActiveUnused(s', i) <==> FreesActive(s, Release(msg), i) {
      assert !ActiveUnused(s, i);
      ReleaseFlags(s, msg, s', i);
    }
  }

  /** A producer is active on a buffer exactly when it was claimed and has been neither claimed nor flagged since. */
  lemma {:induction false} ActiveExactly(states: seq<Sys>, steps: seq<Step>, k: nat, v: nat)
    requires IsRun(states, steps) && k < |states| && v < states[0].pool.n
    ensures Shaped(states[k]) && states[k].pool.n == states[0].pool.n
    ensures states[k].pool.bufs[v].producerActive <==> ClaimedSince(steps, k, v)
  {
    StampRun(states, steps, k);
    if k > 0 {
      ActiveExactly(states, steps, k - 1, v);
      ActiveStep(states[k - 1], steps[k - 1], states[k], v);
    }
  }

  lemma ActiveStep(s: Sys, step: Step, s': Sys, v: nat)
    requires Next(s, step, s') && v < s.pool.n
    ensures Shaped(s')
    ensures s'.pool.bufs[v].producerActive ==
            ((step.Claim? && step.pick == Some(v)) || (s.pool.bufs[v].producerActive && step != Flag(v)))
  {
    if step.Write? {
      RecordedOnlyCounts(s.pool.bufs[step.buf], step.sent);
    }
  }

  lemma UnusedStep(s: Sys, step: Step, s': Sys, v: nat)
    requires AccountInv(s) && Next(s, step, s') && Disciplined(s, step) && v < s.pool.n
    ensures Shaped(s')
    ensures ActiveUnused(s', v) <==> FreesActive(s, step, v) || (ActiveUnused(s, v) && !Touches(step, v))
  {
    assert BufInv(s, v);
    match step
    case Claim(_, _) =>
    case Write(i, sent) => RecordedOnlyCounts(s.pool.bufs[i], sent);
    case Flag(_) =>
    case Release(msg) => ReleaseFlags(s, msg, s', v);
  }

  /**
   * A buffer is active but not in use exactly when its last reference was dropped under its
   * producer, and nothing since.
   */
  lemma {:induction false} ActiveUnusedExactly(states: seq<Sys>, steps: seq<Step>, k: nat, v: nat)
    requires IsDisciplinedRun(states, steps) && k < |states| && v < states[0].pool.n
    ensures Shaped(states[k]) && states[k].pool.n == states[0].pool.n
    ensures ActiveUnused(states[k], v) <==> FreedSince(states, steps, k, v)
  {
    StampRun(states, steps, k);
    if k > 0 {
      ActiveUnusedExactly(states, steps, k - 1, v);
      AccountRun(states, steps, k - 1);
      UnusedStep(states[k - 1], steps[k - 1], states[k], v);
    }
  }

  /**
   * A claim takes a buffer in the middle of its production exactly when it meets an
   * exhausted pool whose oldest buffer has been claimed and not flagged since, or, in
   * the free pass, a buffer whose last reference was dropped under its producer.
   */
  lemma ClaimInterruptsExactly(states: seq<Sys>, steps: seq<Step>, k: nat, v: nat)
    requires IsDisciplinedRun(states, steps) && k < |steps| && steps[k].Claim? && steps[k].pick == Some(v)
    ensures Shaped(states[k]) && v < states[k].pool.n
    ensures states[k].pool.bufs[v].producerActive <==>
            if Exhausted(states[k].pool) then ClaimedSince(steps, k, v) else FreedSince(states, steps, k, v)
  {
    assert Next(states[k], steps[k], states[k + 1]);
    StampRun(states, steps, k);
    ActiveExactly(states, steps, k, v);
    ActiveUnusedExactly(states, steps, k, v);
  }

  /**
   * No buffer leaks: in every disciplined run a buffer is out of use exactly when no client
   * holds its current production and its producer is done with it, or has had it taken out
   * of use under it.
   */
  lemma {:induction false} FreeExactly(states: seq<Sys>, steps: seq<Step>, k: nat, v: nat)
    requires IsDisciplinedRun(states, steps) && k < |states| && v < states[0].pool.n
    ensures Shaped(states[k]) && states[k].pool.n == states[0].pool.n
    ensures !states[k].pool.bufs[v].inUse <==>
            Holders(states[k], v) == {} && (!ClaimedSince(steps, k, v) || FreedSince(states, steps, k, v))
  {
    StampRun(states, steps, k);
    ActiveExactly(states, steps, k, v);
    ActiveUnusedExactly(states, steps, k, v);
    AccountRun(states, steps, k);
    assert BufInv(states[k], v);
    IdleIsUnused(states, steps, k, v);
  }

  /** A buffer that no client holds and no producer is active on is out of use. */
  lemma {:induction false} IdleIsUnused(states: seq<Sys>, steps: seq<Step>, k: nat, v: nat)
    requires IsDisciplinedRun(states, steps) && k < |states| && v < states[0].pool.n
    ensures Shaped(states[k]) && states[k].pool.n == states[0].pool.n
    ensures Holders(states[k], v) == {} && !states[k].pool.bufs[v].producerActive ==> !states[k].pool.bufs[v].inUse
  {
    StampRun(states, steps, k);
    if k > 0 {
      IdleIsUnused(states, steps, k - 1, v);
      AccountRun(states, steps, k - 1);
      AccountRun(states, steps, k);
      IdleStep(states[k - 1], steps[k - 1], states[k], v);
    }
  }

  lemma IdleStep(s: Sys, step: Step, s': Sys, v: nat)
    requires AccountInv(s) && AccountInv(s') && Next(s, step, s') && Disciplined(s, step)
    requires v < s.pool.n == s'.pool.n
    requires Holders(s, v) == {} && !s.pool.bufs[v].producerActive ==> !s.pool.bufs[v].inUse
    ensures Holders(s', v) == {} && !s'.pool.bufs[v].producerActive ==> !s'.pool.bufs[v].inUse
  {
    assert BufInv(s, v) && BufInv(s', v);
    NoIdsMeansZero(s.pool.bufs[v].mask);
    match step
    case Claim(_, _) =>
      assert step.pick != Some(v) ==> Holders(s', v) == Holders(s, v);
    case Write(i, sent) =>
      RecordedOnlyCounts(s.pool.bufs[i], sent);
      NewHolders(s, s', i, sent, v);
    case Flag(_) =>
      assert Holders(s', v) == Holders(s, v);
    case Release(msg) =>
      ReleaseFlags(s, msg, s', v);
      HoldersAfterRelease(s, msg, s', v);
  }

  // ---------------------------------------------------------------------------
  // What the discipline buys, by example, on a pool of one buffer

  ghost predicate OneBuf(s: Sys, b: Buf, productions: nat, held: set<Token>, clock: int) {
    Shaped(s) && s.pool.n == 1 && s.pool.bufs[0] == b && s.count[0] == productions && s.held == held && s.clock == clock
  }

  lemma FreshSys(n: nat) returns (s: Sys)
    requires n <= POOL_MAX
    ensures Init(s) && s.pool.n == n
  {
    var size := POOL_MAX;
    s := Sys(Pool(Repeat(BLANK_BUF, size), n), Repeat(0, size), {}, {}, -1, []);
  }

  lemma ClaimOne(s: Sys, b: Buf, productions: nat, held: set<Token>, now: int) returns (s': Sys)
    requires OneBuf(s, b, productions, held, now - 1) && b.time <= now
    ensures Next(s, Claim(now, Some(0)), s')
    ensures OneBuf(s', BeginProduce(b, now), productions + 1, held, now) && 0 !in s'.written
  {
    s' := Sys(Claimed(s.pool, 0, now), s.count[0 := s.count[0] + 1], s.held, s.written - {0}, now, s.history + [0]);
  }

  lemma WriteOne(s: Sys, b: Buf, productions: nat, clock: int) returns (s': Sys, b': Buf)
    requires OneBuf(s, b, productions, {}, clock) && b.refs == 0 && b.mask == 0
    ensures Next(s, Write(0, [true]), s')
    ensures OneBuf(s', b', productions, {Token(0, 0, productions, b.gen)}, clock)
    ensures b' == b.(mask := b'.mask, refs := 1) && Ids(b'.mask) == {0}
  {
    s' := s.(pool := Written(s.pool, 0, [true]), held := NewTokens(s, 0, [true]), written := s.written + {0});
    b' := Recorded(b, [true]);
    assert [true][..0] == [];
    assert (0 as nat) as ClientId == 0;
    assert Receivers([true]) == {0 as ClientId};
    assert s.held + NewTokens(s, 0, [true]) == s'.held;
    NoIdsMeansZero(b.mask);
    RecordedCounts(b, [true]);
    RecordedOnlyCounts(b, [true]);
  }

  lemma FlagOne(s: Sys, b: Buf, productions: nat, held: set<Token>, clock: int) returns (s': Sys)
    requires OneBuf(s, b, productions, held, clock)
    ensures Next(s, Flag(0), s')
    ensures OneBuf(s', b.(producerActive := false, inUse := b.inUse && !Idle(b)), productions, held, clock)
  {
    s' := s.(pool := FlagUnused(s.pool, 0));
  }

  /**
   * After a reuse by the exhaustion pass, the free pass can hand a buffer out
   * while a client still has a descriptor on it, though of an older production:
   * the accounts speak of current productions only.
   */
  lemma OldProductionMayStillBeHeld() returns (states: seq<Sys>, steps: seq<Step>, stale: Token)
    ensures IsDisciplinedRun(states, steps) && |steps| == 6
    ensures steps[5] == Claim(2, Some(0)) && Shaped(states[5]) && !Exhausted(states[5].pool)
    ensures stale in states[5].held && stale.buf == 0 && stale.production < states[5].count[0]
  {
    var b := BLANK_BUF;
    var s0 := FreshSys(1);
    var s1 := ClaimOne(s0, b, 0, {}, 0);
    b := BeginProduce(b, 0);
    stale := Token(0, 0, 1, b.gen);
    var s2, b2 := WriteOne(s1, b, 1, 0);
    var s3 := FlagOne(s2, b2, 1, {stale}, 0);
    b := b2.(producerActive := false, inUse := true);
    var s4 := ClaimOne(s3, b, 1, {stale}, 1);
    b := BeginProduce(b, 1);
    var s5 := FlagOne(s4, b, 2, {stale}, 1);
    b := b.(producerActive := false, inUse := false);
    var s6 := ClaimOne(s5, b, 2, {stale}, 2);
    states := [s0, s1, s2, s3, s4, s5, s6];
    steps := [Claim(0, Some(0)), Write(0, [true]), Flag(0), Claim(1, Some(0)), Flag(0), Claim(2, Some(0))];
    assert !s5.pool.bufs[0].inUse;
  }

  /** The exhaustion pass takes a buffer whose producer is still active. */
  lemma ExhaustionTakesActiveBuffer() returns (states: seq<Sys>, steps: seq<Step>)
    ensures IsDisciplinedRun(states, steps) && |steps| == 2 && Shaped(states[1]) && Exhausted(states[1].pool)
    ensures steps[1] == Claim(1, Some(0)) && states[1].pool.bufs[0].producerActive
  {
    var b := BLANK_BUF;
    var s0 := FreshSys(1);
    var s1 := ClaimOne(s0, b, 0, {}, 0);
    b := BeginProduce(b, 0);
    var s2 := ClaimOne(s1, b, 1, {}, 1);
    states, steps := [s0, s1, s2], [Claim(0, Some(0)), Claim(1, Some(0))];
    assert forall i :: 0 <= i < s1.pool.n ==> s1.pool.bufs[i] == b;
  }

  /**
   * A release can take a buffer out of use while its producer is still active,
   * and the very next claim then takes it back in the middle of its production.
   */
  lemma ReleaseFreesActiveBuffer() returns (states: seq<Sys>, steps: seq<Step>)
    ensures IsDisciplinedRun(states, steps) && |steps| == 4
    ensures steps[3] == Claim(1, Some(0)) && Shaped(states[3]) && !Exhausted(states[3].pool)
    ensures states[3].pool.bufs[0].producerActive && !states[3].pool.bufs[0].inUse
  {
    var b := BLANK_BUF;
    var s0 := FreshSys(1);
    var s1 := ClaimOne(s0, b, 0, {}, 0);
    b := BeginProduce(b, 0);
    var t := Token(0, 0, 1, b.gen);
    var s2, b2 := WriteOne(s1, b, 1, 0);
    var s3, b3 := ReleaseOne(s2, b2, t);
    var s4 := ClaimOne(s3, b3, 1, {}, 1);
    states := [s0, s1, s2, s3, s4];
    steps := [Claim(0, Some(0)), Write(0, [true]), Release(MsgOf(t)), Claim(1, Some(0))];
    assert !s3.pool.bufs[0].inUse;
  }

  lemma ReleaseOne(s: Sys, b: Buf, t: Token) returns (s': Sys, b': Buf)
    requires OneBuf(s, b, t.production, {t}, 0) && t.buf == 0 && t.gen == b.gen
    requires b.refs == 1 && Ids(b.mask) == {t.client}
    ensures Next(s, Release(MsgOf(t)), s')
    ensures OneBuf(s', b', t.production, {}, 0)
    ensures b'.producerActive == b.producerActive && !b'.inUse && b'.time == b.time
  {
    s' := s.(pool := Released(s.pool, MsgOf(t)), held := {});
    b' := DropRef(b, t.client);
    DropRefAccounts(b, t.client, {t.client});
    assert s'.held == set u | u in s.held && MsgOf(u) != MsgOf(t);
  }
}
