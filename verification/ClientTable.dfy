/**
 * The client table of one server channel: sixteen slots, filled first-fit,
 * whose names outlive their clients. Adding a client holds the channel mutex
 * from the slot scan to the commit, but disconnects take only the mutex of
 * their own slot, so they may land in between.
 */
module ClientTable {
  import opened Prelude

  const NAME_LEN := 32

  datatype ClientState = Uninitialized | Initialized | Connected | Disconnected

  datatype Table = Table(state: seq<ClientState>, names: seq<string>, nClients: nat)

  const EMPTY_TABLE := Table(Repeat(Uninitialized, N_CLIENT), Repeat("", N_CLIENT), 0)

  ghost predicate WellFormed(t: Table) {
    |t.state| == |t.names| == N_CLIENT && t.nClients <= N_CLIENT
  }

  predicate Live(s: ClientState) {
    s.Initialized? || s.Connected?
  }

  ghost predicate LiveAt(t: Table, i: nat)
    requires WellFormed(t)
  {
    i < N_CLIENT && Live(t.state[i])
  }

  ghost function LiveSlots(t: Table): set<nat>
    requires WellFormed(t)
  {
    set i: nat | i < N_CLIENT && LiveAt(t, i)
  }

  predicate ValidName(name: string) {
    |name| < NAME_LEN && forall i :: 0 <= i < |name| ==> ' ' <= name[i] <= 'z'
  }

  ghost predicate NameTaken(t: Table, name: string)
    requires WellFormed(t)
  {
    exists i :: 0 <= i < t.nClients && Live(t.state[i]) && t.names[i] == name
  }

  /** `slot` is the lowest slot that no live client occupies. */
  ghost predicate FirstFree(t: Table, slot: nat)
    requires WellFormed(t)
  {
    slot < N_CLIENT && !Live(t.state[slot]) && forall i :: 0 <= i < slot ==> Live(t.state[i])
  }

  /** What the part of an add before the file system calls decides. */
  ghost predicate ScanPicks(t: Table, name: string, pick: Option<nat>)
    requires WellFormed(t)
  {
    if !ValidName(name) || NameTaken(t, name) then pick.None?
    else if pick.Some? then FirstFree(t, pick.value)
    else forall i :: 0 <= i < N_CLIENT ==> Live(t.state[i])
  }

  function Commit(t: Table, slot: nat, name: string): Table
    requires WellFormed(t) && slot < N_CLIENT
  {
    Table(t.state[slot := Initialized], t.names[slot := name],
          if slot >= t.nClients then slot + 1 else t.nClients)
  }

  /** An add that fails after marking its slot leaves the client count as it was. */
  function Mark(t: Table, slot: nat, name: string): Table
    requires WellFormed(t) && slot < N_CLIENT
  {
    Commit(t, slot, name).(nClients := t.nClients)
  }

  function Drop(t: Table, i: nat): Table
    requires WellFormed(t) && i < N_CLIENT
  {
    t.(state := t.state[i := Disconnected])
  }

  /** A whole successful write marks a live client as connected. */
  function FirstWrite(t: Table, i: nat): Table
    requires WellFormed(t) && i < N_CLIENT
  {
    t.(state := t.state[i := Connected])
  }

  /** The states after every live slot called `name` has been disconnected. */
  function DropAll(state: seq<ClientState>, names: seq<string>, name: string): (r: seq<ClientState>)
    requires |state| == |names|
    ensures |r| == |state|
    ensures forall i :: 0 <= i < |r| ==>
              r[i] == if Live(state[i]) && names[i] == name then Disconnected else state[i]
  {
    if |state| == 0 then []
    else
      var last := |state| - 1;
      DropAll(state[..last], names[..last], name) +
      [if Live(state[last]) && names[last] == name then Disconnected else state[last]]
  }

  function DropName(t: Table, name: string): Table
    requires WellFormed(t)
  {
    t.(state := DropAll(t.state, t.names, name))
  }

  /** `id` is what a lookup by name answers: the first slot ever given that name. */
  ghost predicate LookupAnswers(t: Table, name: string, id: Option<nat>)
    requires WellFormed(t)
  {
    if id.Some? then
      && id.value < t.nClients
      && t.names[id.value] == name
      && forall k :: 0 <= k < id.value ==> t.names[k] != name
    else
      forall k :: 0 <= k < t.nClients ==> t.names[k] != name
  }

  // ---------------------------------------------------------------------------
  // The server as a transition system

  /** `pending` is the slot and name of the add that is between scan and commit. */
  datatype Server = Server(table: Table, pending: Option<(nat, string)>)

  datatype Step =
    | Scan(name: string, pick: Option<nat>)
    | OpenFailed
    | CommitAdd
    | LateFailure
    | Disconnect(slot: nat)
    | Written(slot: nat)

  /** Every outcome the locks allow; no fairness and no timing is assumed. */
  ghost predicate Next(s: Server, step: Step, s': Server) {
    && WellFormed(s.table)
    && match step
       case Scan(name, pick) =>
         && s.pending.None?
         && ScanPicks(s.table, name, pick)
         && s' == s.(pending := if pick.Some? then Some((pick.value, name)) else None)
       case OpenFailed =>
         s.pending.Some? && s' == s.(pending := None)
       case CommitAdd =>
         && s.pending.Some?
         && s.pending.value.0 < N_CLIENT
         && s' == Server(Commit(s.table, s.pending.value.0, s.pending.value.1), None)
       case LateFailure =>
         && s.pending.Some?
         && s.pending.value.0 < N_CLIENT
         && s' == Server(Mark(s.table, s.pending.value.0, s.pending.value.1), None)
       case Disconnect(i) =>
         LiveAt(s.table, i) && s' == s.(table := Drop(s.table, i))
       case Written(i) =>
         LiveAt(s.table, i) && s' == s.(table := FirstWrite(s.table, i))
  }

  /** A run from a freshly created channel: `states[k]` and `states[k+1]` are joined by `steps[k]`. */
  ghost predicate IsRun(states: seq<Server>, steps: seq<Step>) {
    && |states| == |steps| + 1
    && states[0] == Server(EMPTY_TABLE, None)
    && forall k :: 0 <= k < |steps| ==> Next(states[k], steps[k], states[k + 1])
  }

  ghost predicate TableInv(t: Table) {
    && WellFormed(t)
    && (forall i :: 0 <= i < N_CLIENT ==> (t.state[i].Uninitialized? <==> t.nClients <= i))
    && (forall i, j :: 0 <= i < j < N_CLIENT && Live(t.state[j]) ==> t.names[i] != t.names[j])
  }

  ghost predicate PendingInv(t: Table, slot: nat, name: string)
    requires WellFormed(t)
  {
    && slot < N_CLIENT
    && !Live(t.state[slot])
    && slot <= t.nClients
    && (forall i :: 0 <= i < slot ==> t.names[i] != name)
    && (forall j :: 0 <= j < N_CLIENT && Live(t.state[j]) ==> t.names[j] != name)
  }

  ghost predicate Inv(s: Server) {
    && TableInv(s.table)
    && (s.pending.Some? ==> PendingInv(s.table, s.pending.value.0, s.pending.value.1))
  }

  /**
   * A failure after the state has been set leaves the slot live without raising
   * the client count. The table stays consistent, and the client can be looked
   * up, exactly when the slot was already below the count.
   */
  lemma LateFailureExactly(t: Table, slot: nat, name: string, id: Option<nat>)
    requires TableInv(t) && PendingInv(t, slot, name)
    ensures WellFormed(Mark(t, slot, name))
    ensures TableInv(Mark(t, slot, name)) <==> slot < t.nClients
    ensures LookupAnswers(Mark(t, slot, name), name, id) ==> (id == Some(slot) <==> slot < t.nClients)
  {
    var bad := Mark(t, slot, name);
    assert bad.names[slot] == name && forall i :: 0 <= i < slot ==> bad.names[i] != name;
    if slot < t.nClients {
      assert TableInv(bad);
    } else {
      assert Live(bad.state[slot]);
    }
  }

  /** A late failure strikes in a slot that the client count does not cover. */
  ghost predicate Strays(s: Server, step: Step) {
    step.LateFailure? && s.pending.Some? && s.pending.value.0 >= s.table.nClients
  }

  lemma StepKeepsInvExactly(s: Server, step: Step, s': Server)
    requires Inv(s) && Next(s, step, s')
    ensures Inv(s') <==> !Strays(s, step)
  {
    match step
    case Scan(name, pick) =>
      if pick.Some? {
        var slot := pick.value;
        var n := s.table.nClients;
        assert FirstFree(s.table, slot);
        assert n < N_CLIENT ==> !Live(s.table.state[n]);
      }
    case OpenFailed =>
    case CommitAdd =>
    case LateFailure => LateFailureExactly(s.table, s.pending.value.0, s.pending.value.1, None);
    case Disconnect(i) =>
    case Written(i) =>
  }

  /** No late failure before moment `k` has struck in an uncounted slot. */
  ghost predicate NoStrays(states: seq<Server>, steps: seq<Step>, k: nat)
    requires k <= |steps| <= |states|
  {
    forall j :: 0 <= j < k ==> !Strays(states[j], steps[j])
  }

  lemma {:induction false} RunKeepsInvExactly(states: seq<Server>, steps: seq<Step>, k: nat)
    requires IsRun(states, steps) && k < |states|
    ensures (forall i :: 0 <= i <= k ==> Inv(states[i])) <==> NoStrays(states, steps, k)
  {
    if k > 0 {
      RunKeepsInvExactly(states, steps, k - 1);
      if Inv(states[k - 1]) {
        StepKeepsInvExactly(states[k - 1], steps[k - 1], states[k]);
      }
    }
  }

  // ---------------------------------------------------------------------------
  // Looking a client up by name

  /** Looking up the name of a live client answers that client, whatever the name. */
  ghost predicate LookupsWork(t: Table)
    requires WellFormed(t)
  {
    forall name, id, j: nat :: LookupAnswers(t, name, id) && LiveAt(t, j) && t.names[j] == name ==> id == Some(j)
  }

  lemma ConsistentLookupsWork(t: Table)
    requires TableInv(t)
    ensures LookupsWork(t)
  {
    forall name, id, j: nat | LookupAnswers(t, name, id) && LiveAt(t, j) && t.names[j] == name
      ensures id == Some(j)
    {
      assert j < t.nClients;
    }
  }

  /** A lookup always has an answer. */
  ghost function Lookup(t: Table, name: string, n: nat): (id: Option<nat>)
    requires WellFormed(t) && n <= t.nClients
    ensures id.Some? ==>
              id.value < n && t.names[id.value] == name && forall k :: 0 <= k < id.value ==> t.names[k] != name
    ensures id.None? ==> forall k :: 0 <= k < n ==> t.names[k] != name
  {
    if n == 0 then None
    else
      var id := Lookup(t, name, n - 1);
      if id.None? && t.names[n - 1] == name then Some(n - 1) else id
  }

  lemma StrayIsNotFound(s: Server, step: Step, s': Server)
    requires Inv(s) && Next(s, step, s') && Strays(s, step)
    ensures WellFormed(s'.table) && !LookupsWork(s'.table)
  {
    var (slot, name) := s.pending.value;
    var t := s'.table;
    var id := Lookup(t, name, t.nClients);
    LateFailureExactly(s.table, slot, name, id);
    assert LookupAnswers(t, name, id) && LiveAt(t, slot) && t.names[slot] == name;
  }

  /** Lookups work at every moment of a run if and only if no late failure strikes in an uncounted slot. */
  lemma {:induction false} LookupsWorkExactly(states: seq<Server>, steps: seq<Step>, k: nat)
    requires IsRun(states, steps) && k < |states|
    ensures (forall i :: 0 <= i <= k ==> WellFormed(states[i].table) && LookupsWork(states[i].table)) <==>
            NoStrays(states, steps, k)
  {
    RunKeepsInvExactly(states, steps, k);
    if NoStrays(states, steps, k) {
      forall i | 0 <= i <= k ensures WellFormed(states[i].table) && LookupsWork(states[i].table) {
        ConsistentLookupsWork(states[i].table);
      }
    } else {
      LookupsWorkExactly(states, steps, k - 1);
      if NoStrays(states, steps, k - 1) {
        RunKeepsInvExactly(states, steps, k - 1);
        StrayIsNotFound(states[k - 1], steps[k - 1], states[k]);
      }
    }
  }

  /**
   * At every such moment a lookup by name answers a live slot exactly when a live
   * client carries that name, and then it answers that client, although the table
   * still holds the names of clients long gone.
   */
  lemma LookupFindsTheLiveClient(states: seq<Server>, steps: seq<Step>, k: nat, name: string, id: Option<nat>)
    requires IsRun(states, steps) && k < |states| && NoStrays(states, steps, k)
    requires WellFormed(states[k].table) && LookupAnswers(states[k].table, name, id)
    ensures forall j :: 0 <= j < N_CLIENT && LiveAt(states[k].table, j) && states[k].table.names[j] == name ==>
                          id == Some(j)
    ensures id.Some? && LiveAt(states[k].table, id.value) <==>
            exists j :: 0 <= j < N_CLIENT && LiveAt(states[k].table, j) && states[k].table.names[j] == name
  {
    RunKeepsInvExactly(states, steps, k);
    ConsistentLookupsWork(states[k].table);
  }

  /** Two live clients never share a name, so a close event disconnects at most one client. */
  lemma DropNameDropsOne(states: seq<Server>, steps: seq<Step>, k: nat, name: string, id: Option<nat>)
    requires IsRun(states, steps) && k < |states| && NoStrays(states, steps, k)
    requires WellFormed(states[k].table) && LookupAnswers(states[k].table, name, id)
    ensures DropName(states[k].table, name) ==
            if id.Some? && LiveAt(states[k].table, id.value) then Drop(states[k].table, id.value) else states[k].table
  {
    LookupFindsTheLiveClient(states, steps, k, name, id);
    var t := states[k].table;
    var want := if id.Some? && LiveAt(t, id.value) then Drop(t, id.value) else t;
    forall i | 0 <= i < N_CLIENT ensures DropName(t, name).state[i] == want.state[i] {
      if Live(t.state[i]) && t.names[i] == name {
        assert LiveAt(t, i);
      }
    }
    assert DropName(t, name).state == want.state;
  }

  // ---------------------------------------------------------------------------
  // Whom an add turns away

  /** A live client, in whatever slot, carries the name. */
  ghost predicate NameIsLive(t: Table, name: string)
    requires WellFormed(t)
  {
    exists j: nat :: LiveAt(t, j) && t.names[j] == name
  }

  /** No live client hides from the duplicate check. */
  lemma TakenIsLive(t: Table, name: string)
    requires TableInv(t)
    ensures NameTaken(t, name) <==> NameIsLive(t, name)
  {
    if NameIsLive(t, name) {
      var j: nat :| LiveAt(t, j) && t.names[j] == name;
      assert j < t.nClients;
    }
    if NameTaken(t, name) {
      var i :| 0 <= i < t.nClients && Live(t.state[i]) && t.names[i] == name;
      assert LiveAt(t, i);
    }
  }

  /** What there is against adding a client: its name, a live client of that name, or sixteen live clients. */
  ghost predicate TurnedAway(t: Table, name: string)
    requires WellFormed(t)
  {
    || |name| > 31 || (exists i :: 0 <= i < |name| && !(' ' <= name[i] <= 'z'))
    || NameIsLive(t, name)
    || forall i: nat :: i < 16 ==> LiveAt(t, i)
  }

  /**
   * In a consistent table a scan picks no slot if and only if one of these holds, and
   * otherwise it picks the lowest slot that is not live. Names of clients long gone do
   * not count, though the table still has them.
   */
  lemma ScanRefusesExactly(t: Table, name: string, pick: Option<nat>)
    requires TableInv(t) && ScanPicks(t, name, pick)
    ensures pick.None? <==> TurnedAway(t, name)
    ensures pick.Some? ==> pick.value < 16 && !LiveAt(t, pick.value) && forall i: nat :: i < pick.value ==> LiveAt(t, i)
  {
    TakenIsLive(t, name);
    if ValidName(name) {
      assert forall i :: 0 <= i < |name| ==> ' ' <= name[i] <= 'z';
    }
    if pick.Some? {
      assert !LiveAt(t, pick.value);
    } else if ValidName(name) && !NameTaken(t, name) {
      assert forall i: nat :: i < 16 ==> LiveAt(t, i);
    }
  }

  /** Names come into the table through the scan. */
  ghost predicate NamesValid(s: Server) {
    && WellFormed(s.table)
    && (forall i: nat :: LiveAt(s.table, i) ==> ValidName(s.table.names[i]))
    && (s.pending.Some? ==> ValidName(s.pending.value.1))
  }

  lemma {:induction false} RunNamesValid(states: seq<Server>, steps: seq<Step>, k: nat)
    requires IsRun(states, steps) && k < |states|
    ensures NamesValid(states[k])
  {
    if k > 0 {
      RunNamesValid(states, steps, k - 1);
      assert Next(states[k - 1], steps[k - 1], states[k]);
    }
  }

  /** A client that has been disconnected may come back under its name: the next scan picks a slot for it. */
  lemma ReturningClientIsAccepted(states: seq<Server>, steps: seq<Step>, k: nat, i: nat, pick: Option<nat>)
    requires IsRun(states, steps) && k < |steps| && NoStrays(states, steps, k + 1)
    requires steps[k] == Disconnect(i) && WellFormed(states[k].table) && LiveAt(states[k].table, i)
    requires WellFormed(states[k + 1].table) && ScanPicks(states[k + 1].table, states[k].table.names[i], pick)
    ensures pick.Some? && pick.value <= i
  {
    RunKeepsInvExactly(states, steps, k + 1);
    RunKeepsInvExactly(states, steps, k);
    RunNamesValid(states, steps, k);
    var t, t', name := states[k].table, states[k + 1].table, states[k].table.names[i];
    assert Next(states[k], steps[k], states[k + 1]) && Inv(states[k]) && Inv(states[k + 1]);
    ScanRefusesExactly(t', name, pick);
    assert !LiveAt(t', i) && ValidName(name);
    forall j: nat | LiveAt(t', j) ensures t'.names[j] != name {
      assert j != i && LiveAt(t, j);
    }
  }

  // ---------------------------------------------------------------------------
  // The client count as a high-water mark

  ghost function Active(s: Server): nat
    requires WellFormed(s.table)
  {
    |LiveSlots(s.table)|
  }

  /** The most clients simultaneously live in the first k + 1 states. */
  ghost function Peak(states: seq<Server>, k: nat): nat
    requires k < |states| && forall i :: 0 <= i <= k ==> WellFormed(states[i].table)
  {
    if k == 0 then Active(states[0]) else Max(Peak(states, k - 1), Active(states[k]))
  }

  /** No disconnect lands between the scan and the commit of an add. */
  ghost predicate AddsAreAtomic(states: seq<Server>, steps: seq<Step>)
    requires |states| == |steps| + 1
  {
    forall k :: 0 <= k < |steps| && steps[k].Disconnect? ==> states[k].pending.None?
  }

  ghost predicate SlotsBelowLive(t: Table, slot: nat)
    requires WellFormed(t)
  {
    forall i :: 0 <= i < slot && i < N_CLIENT ==> Live(t.state[i])
  }

  lemma ActiveBound(t: Table)
    requires TableInv(t)
    ensures |LiveSlots(t)| <= t.nClients
    ensures |LiveSlots(t)| == t.nClients <==> SlotsBelowLive(t, t.nClients)
  {
    assert LiveSlots(t) <= Below(t.nClients);
    if SlotsBelowLive(t, t.nClients) {
      assert LiveSlots(t) == Below(t.nClients);
    } else {
      var i :| 0 <= i < t.nClients && !Live(t.state[i]);
      var rest := Below(t.nClients) - {i};
      assert LiveSlots(t) <= rest;
      SubsetSize(LiveSlots(t), rest);
    }
    SubsetSize(LiveSlots(t), Below(t.nClients));
  }

  lemma CommitRaisesActive(t: Table, slot: nat, name: string)
    requires WellFormed(t) && slot < N_CLIENT && !Live(t.state[slot])
    ensures WellFormed(Commit(t, slot, name))
    ensures |LiveSlots(Commit(t, slot, name))| == |LiveSlots(t)| + 1
  {
    var t' := Commit(t, slot, name);
    forall i: nat ensures i in LiveSlots(t') <==> i in LiveSlots(t) + {slot} {
    }
    assert LiveSlots(t') == LiveSlots(t) + {slot};
  }

  /**
   * One commit keeps "count equals high-water mark" exactly when it reuses a
   * slot or every slot below the new one is still live.
   */
  lemma CommitKeepsHighWaterExactly(t: Table, slot: nat, name: string)
    requires TableInv(t) && PendingInv(t, slot, name)
    ensures WellFormed(Commit(t, slot, name))
    ensures Commit(t, slot, name).nClients == Max(t.nClients, |LiveSlots(Commit(t, slot, name))|) <==>
            slot < t.nClients || SlotsBelowLive(t, slot)
  {
    CommitRaisesActive(t, slot, name);
    ActiveBound(t);
    if slot < t.nClients {
      assert !SlotsBelowLive(t, t.nClients);
    }
  }

  /** Every commit before moment `k` reused a slot, or found every slot below its own live. */
  ghost predicate CommitsKeepPace(states: seq<Server>, steps: seq<Step>, k: nat)
    requires k <= |steps| <= |states| && forall i :: 0 <= i < k ==> WellFormed(states[i].table)
  {
    forall j :: 0 <= j < k && steps[j].CommitAdd? && states[j].pending.Some? ==>
                  var slot := states[j].pending.value.0;
                  slot < states[j].table.nClients || SlotsBelowLive(states[j].table, slot)
  }

  ghost predicate CountIsPeak(states: seq<Server>, k: nat)
    requires k < |states| && forall i :: 0 <= i <= k ==> WellFormed(states[i].table)
  {
    forall i :: 0 <= i <= k ==> states[i].table.nClients == Peak(states, i)
  }

  lemma HighWaterStepExactly(s: Server, step: Step, s': Server)
    requires Inv(s) && Next(s, step, s') && Inv(s')
    ensures s'.table.nClients == Max(s.table.nClients, Active(s')) <==>
            (step.CommitAdd? ==>
               var slot := s.pending.value.0;
               slot < s.table.nClients || SlotsBelowLive(s.table, slot))
  {
    ActiveBound(s'.table);
    if step.CommitAdd? {
      CommitKeepsHighWaterExactly(s.table, s.pending.value.0, s.pending.value.1);
    }
  }

  /**
   * The client count is at every moment the greatest number of clients that were ever
   * live at the same time, if and only if every commit that used a new slot found all
   * slots below it live.
   */
  lemma {:induction false} HighWaterExactly(states: seq<Server>, steps: seq<Step>, k: nat)
    requires IsRun(states, steps) && k < |states| && NoStrays(states, steps, k)
    ensures forall i :: 0 <= i <= k ==> WellFormed(states[i].table)
    ensures CountIsPeak(states, k) <==> CommitsKeepPace(states, steps, k)
  {
    RunKeepsInvExactly(states, steps, k);
    if k == 0 {
      assert LiveSlots(states[0].table) == {};
    } else {
      HighWaterExactly(states, steps, k - 1);
      HighWaterStepExactly(states[k - 1], steps[k - 1], states[k]);
    }
  }

  /** Between the scan and the commit of an atomic add, all slots below the picked one stay live. */
  lemma {:induction false} AtomicAddsKeepPace(states: seq<Server>, steps: seq<Step>, k: nat)
    requires IsRun(states, steps) && AddsAreAtomic(states, steps) && k < |states| && NoStrays(states, steps, k)
    ensures forall i :: 0 <= i <= k ==> WellFormed(states[i].table)
    ensures states[k].pending.Some? ==> SlotsBelowLive(states[k].table, states[k].pending.value.0)
    ensures CommitsKeepPace(states, steps, k)
  {
    RunKeepsInvExactly(states, steps, k);
    if k > 0 {
      AtomicAddsKeepPace(states, steps, k - 1);
    }
  }

  /** So it is with atomic adds. */
  lemma CountIsHighWaterMark(states: seq<Server>, steps: seq<Step>, k: nat)
    requires IsRun(states, steps) && AddsAreAtomic(states, steps) && k < |states| && NoStrays(states, steps, k)
    ensures forall i :: 0 <= i <= k ==> WellFormed(states[i].table)
    ensures states[k].table.nClients == Peak(states, k)
  {
    RunKeepsInvExactly(states, steps, k);
    AtomicAddsKeepPace(states, steps, k);
    HighWaterExactly(states, steps, k);
  }

  /** A disconnect between scan and commit makes the count exceed the mark. */
  lemma RacingDisconnectOvercounts() returns (states: seq<Server>, steps: seq<Step>)
    ensures IsRun(states, steps)
    ensures !AddsAreAtomic(states, steps)
    ensures forall i :: 0 <= i < |states| ==> WellFormed(states[i].table)
    ensures states[|steps|].table.nClients == 2 && Peak(states, |steps|) == 1
  {
    var s0 := Server(EMPTY_TABLE, None);
    var s1 := s0.(pending := Some((0, "a")));
    var s2 := Server(Commit(s1.table, 0, "a"), None);
    var s3 := s2.(pending := Some((1, "b")));
    var s4 := s3.(table := Drop(s3.table, 0));
    var s5 := Server(Commit(s4.table, 1, "b"), None);
    states := [s0, s1, s2, s3, s4, s5];
    steps := [Scan("a", Some(0)), CommitAdd, Scan("b", Some(1)), Disconnect(0), CommitAdd];
    assert steps[3].Disconnect? && states[3].pending.Some?;
    assert LiveSlots(s0.table) == {} && LiveSlots(s1.table) == {};
    assert LiveSlots(s2.table) == {0} && LiveSlots(s3.table) == {0};
    assert LiveSlots(s4.table) == {} && LiveSlots(s5.table) == {1};
    assert Peak(states, 0) == 0;
    assert Peak(states, 1) == 0;
    assert Peak(states, 2) == 1;
    assert Peak(states, 3) == 1;
    assert Peak(states, 4) == 1;
  }

  // ---------------------------------------------------------------------------
  // The channel object and its functions

  /** The pipe cannot be opened; the pipe's size or the socket fails afterwards; or nothing fails. */
  datatype Opening = PipeFails | LateFailure | Opens

  /** The answer of an add and the table it leaves. */
  ghost predicate AddResult(t: Table, name: string, pick: Option<nat>, opening: Opening, id: Option<nat>, t': Table)
    requires WellFormed(t)
  {
    && (pick.Some? ==> pick.value < N_CLIENT)
    && id == (if opening.Opens? then pick else None)
    && t' == if pick.None? || opening.PipeFails? then t
             else if opening.LateFailure? then Mark(t, pick.value, name)
             else Commit(t, pick.value, name)
  }

  class Channel {
    const clientState: array<ClientState>
    const clientNames: array<string>
    var nClients: nat

    ghost predicate Valid()
      reads this
    {
      clientState.Length == clientNames.Length == N_CLIENT && nClients <= N_CLIENT
    }

    ghost function View(): (t: Table)
      requires Valid()
      reads this, clientState, clientNames
      ensures WellFormed(t)
    {
      Table(clientState[..], clientNames[..], nClients)
    }

    constructor ()
      ensures Valid() && View() == EMPTY_TABLE
      ensures fresh(clientState) && fresh(clientNames)
    {
      clientState := new ClientState[N_CLIENT](_ => Uninitialized);
      clientNames := new string[N_CLIENT](_ => "");
      nClients := 0;
    }

    /** The part of an add under the channel mutex that comes before the pipe is made. */
    method ReserveSlot(name: string) returns (pick: Option<nat>)
      requires Valid()
      ensures ScanPicks(View(), name, pick)
      ensures TableInv(View()) ==> (pick.None? <==> TurnedAway(View(), name))
    {
      forall pick | TableInv(View()) && ScanPicks(View(), name, pick) ensures pick.None? <==> TurnedAway(View(), name) {
        ScanRefusesExactly(View(), name, pick);
      }
      if |name| >= NAME_LEN {
        return None;
      }
      for i := 0 to |name|
        invariant forall k :: 0 <= k < i ==> ' ' <= name[k] <= 'z'
      {
        if name[i] < ' ' || name[i] > 'z' {
          return None;
        }
      }
      for i := 0 to nClients
        invariant forall k :: 0 <= k < i ==> !(Live(clientState[k]) && clientNames[k] == name)
      {
        if Live(clientState[i]) && clientNames[i] == name {
          return None;
        }
      }
      for i := 0 to N_CLIENT
        invariant forall k :: 0 <= k < i ==> Live(clientState[k])
      {
        if !Live(clientState[i]) {
          return Some(i);
        }
      }
      return None;
    }

    /** The part of an add that runs once the pipe is open. */
    method CommitSlot(slot: nat, name: string)
      requires Valid() && slot < N_CLIENT
      modifies this`nClients, clientState, clientNames
      ensures Valid() && View() == Commit(old(View()), slot, name)
    {
      clientNames[slot] := name;
      clientState[slot] := Initialized;
      if slot >= nClients {
        nClients := slot + 1;
      }
    }

    /**
     * An add that no disconnect interrupts; `opening` says how far it gets once a slot is
     * picked. A late failure leaves name and state behind, but not the count.
     */
    method AddClient(name: string, opening: Opening) returns (id: Option<nat>)
      requires Valid()
      modifies this`nClients, clientState, clientNames
      ensures Valid()
      ensures exists pick ::
                ScanPicks(old(View()), name, pick) && AddResult(old(View()), name, pick, opening, id, View())
      ensures old(TableInv(View())) ==> (id.Some? <==> opening.Opens? && !old(TurnedAway(View(), name)))
      ensures id.Some? ==> id.value < N_CLIENT && clientNames[id.value] == name && clientState[id.value].Initialized?
      ensures id.Some? ==> nClients == Max(old(nClients), id.value + 1)
      ensures forall i :: 0 <= i < N_CLIENT && id.Some? && i != id.value ==>
                clientState[i] == old(clientState[i]) && clientNames[i] == old(clientNames[i])
    {
      ghost var before := View();
      var pick := ReserveSlot(name);
      id := None;
      if pick.Some? && opening.LateFailure? {
        clientNames[pick.value] := name;
        clientState[pick.value] := Initialized;
      } else if pick.Some? && opening.Opens? {
        CommitSlot(pick.value, name);
        id := pick;
      }
      assert AddResult(before, name, pick, opening, id, View());
    }

    method DisconnectClient(i: nat)
      requires Valid() && i < N_CLIENT
      modifies clientState
      ensures Valid() && View() == Drop(old(View()), i) && clientState[i].Disconnected?
      ensures forall j :: 0 <= j < N_CLIENT && j != i ==> clientState[j] == old(clientState[j])
    {
      clientState[i] := Disconnected;
    }

    method DisconnectClientByName(name: string)
      requires Valid()
      modifies clientState
      ensures Valid() && View() == DropName(old(View()), name)
    {
      ghost var before := View();
      for i := 0 to N_CLIENT
        invariant forall k :: 0 <= k < i ==> clientState[k] == DropName(before, name).state[k]
        invariant forall k :: i <= k < N_CLIENT ==> clientState[k] == before.state[k]
      {
        if Live(clientState[i]) && clientNames[i] == name {
          DisconnectClient(i);
        }
      }
      assert clientState[..] == DropName(before, name).state;
    }

    /** Looks at the slots below the client count only; in a consistent table that is every live one. */
    method GetNumClients() returns (n: nat)
      requires Valid()
      ensures n == |set k: nat | k < nClients && LiveAt(View(), k)|
      ensures TableInv(View()) ==> n == |LiveSlots(View())|
    {
      n := 0;
      ghost var seen: set<nat> := {};
      for i := 0 to nClients
        invariant seen == set k: nat | k < i && LiveAt(View(), k)
        invariant n == |seen|
      {
        if Live(clientState[i]) {
          n := n + 1;
          seen := seen + {i};
        }
      }
      assert TableInv(View()) ==> seen == LiveSlots(View());
    }

    method GetClientIdFromName(name: string) returns (id: Option<nat>)
      requires Valid()
      ensures LookupAnswers(View(), name, id)
      ensures if id.Some? then id.value < nClients && clientNames[id.value] == name
              else forall k :: 0 <= k < nClients ==> clientNames[k] != name
    {
      for i := 0 to nClients
        invariant forall k :: 0 <= k < i ==> clientNames[k] != name
      {
        if clientNames[i] == name {
          return Some(i);
        }
      }
      return None;
    }
  }
}
