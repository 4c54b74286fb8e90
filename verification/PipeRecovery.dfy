/**
 * What the framed pipe does at its limits: metadata that is turned down, payloads in
 * many pieces, and messages without room.
 */
module PipeRecovery {
  import opened Prelude
  import opened FramedPipe

  // ---------------------------------------------------------------------------
  // After metadata that the check turns down

  /** The check turns down the metadata that the next read takes. */
  ghost predicate Rejects(p: Proto, s: Link) {
    && ClientOk(p, s.client) && s.client.phase.WantMeta?
    && |s.fifo| >= p.metaLen && p.check(s.fifo[..p.metaLen]).None?
  }

  /** The link as it would be if all that came before had never been. */
  function Anew(s: Link, accepted: nat, delivered: nat): Link
    requires accepted <= |s.accepted| && delivered <= |s.client.delivered|
  {
    s.(accepted := s.accepted[accepted..], client := s.client.(delivered := s.client.delivered[delivered..]))
  }

  /** The read empties the pipe and delivers nothing, and the client starts over. */
  lemma RejectionClears(p: Proto, cap: nat, s: Link, s': Link)
    requires Rejects(p, s) && s.up && s.pending == [] && Next(p, cap, s, Read(p.metaLen), s')
    ensures s'.fifo == [] && s'.client.delivered == s.client.delivered && s'.accepted == s.accepted
    ensures Init(p, Anew(s', |s'.accepted|, |s'.client.delivered|))
  {
    var data := s.fifo[..p.metaLen];
    assert data + s.client.metaBuf[|data|..] == data;
  }

  /** No step looks at what was accepted or delivered before. */
  lemma StepAnew(p: Proto, cap: nat, s: Link, step: Step, s': Link, a: nat, d: nat)
    requires Next(p, cap, s, step, s') && a <= |s.accepted| && d <= |s.client.delivered|
    ensures a <= |s'.accepted| && d <= |s'.client.delivered|
    ensures s'.accepted[..a] == s.accepted[..a] && s'.client.delivered[..d] == s.client.delivered[..d]
    ensures Next(p, cap, Anew(s, a, d), step, Anew(s', a, d))
    ensures Greedy(p, s, step) ==> Greedy(p, Anew(s, a, d), step)
  {
    match step
    case Offer(m) =>
      assert (s.accepted + [m])[a..] == s.accepted[a..] + [m];
    case WriteOne =>
    case HangUp =>
    case Read(n) =>
      var before, after := s.client.delivered, s'.client.delivered;
      if after != before {
        assert after == before + [after[|before|]];
        assert after[d..] == before[d..] + [after[|before|]];
      }
  }

  /** Steps from some state on, as of a run. */
  ghost predicate IsGreedyPath(p: Proto, cap: nat, states: seq<Link>, steps: seq<Step>) {
    && |states| == |steps| + 1
    && (forall k :: 0 <= k < |steps| ==> Next(p, cap, states[k], steps[k], states[k + 1]))
    && (forall k :: 0 <= k < |steps| ==> Greedy(p, states[k], steps[k]))
    && (forall k :: 0 <= k < |steps| && steps[k].Offer? ==> Sound(p, steps[k].m))
  }

  lemma {:induction false} PathAnew(p: Proto, cap: nat, states: seq<Link>, steps: seq<Step>, a: nat, d: nat, k: nat)
    returns (anew: seq<Link>)
    requires IsGreedyPath(p, cap, states, steps) && a <= |states[0].accepted| && d <= |states[0].client.delivered|
    requires k <= |steps| && Init(p, Anew(states[0], a, d))
    ensures a <= |states[k].accepted| && d <= |states[k].client.delivered|
    ensures states[k].accepted[..a] == states[0].accepted[..a]
    ensures states[k].client.delivered[..d] == states[0].client.delivered[..d]
    ensures IsRun(p, cap, anew, steps[..k]) && anew[k] == Anew(states[k], a, d)
    ensures forall i :: 0 <= i < k ==> Greedy(p, anew[i], steps[..k][i])
  {
    if k == 0 {
      anew := [Anew(states[0], a, d)];
    } else {
      anew := PathAnew(p, cap, states, steps, a, d, k - 1);
      StepAnew(p, cap, states[k - 1], steps[k - 1], states[k], a, d);
      anew := anew + [Anew(states[k], a, d)];
      assert steps[..k] == steps[..k - 1] + [steps[k - 1]];
    }
  }

  /**
   * Metadata that the check turns down costs what is in the pipe and no more: the pipe is
   * emptied, and of the messages sent from then on the first ones are delivered after what
   * was delivered before, in order and byte for byte, and all once the pipe is empty again.
   */
  lemma RejectionRecovers(p: Proto, cap: nat, s: Link, states: seq<Link>, steps: seq<Step>, k: nat)
    requires Rejects(p, s) && s.up && s.pending == []
    requires IsGreedyPath(p, cap, states, steps) && k < |states| && Next(p, cap, s, Read(p.metaLen), states[0])
    ensures states[0].fifo == []
    ensures s.client.delivered <= states[k].client.delivered && s.accepted <= states[k].accepted
    ensures IsPrefix(states[k].client.delivered[|s.client.delivered|..], states[k].accepted[|s.accepted|..])
    ensures states[k].fifo == [] && states[k].pending == [] ==>
              |states[k].client.delivered| - |s.client.delivered| == |states[k].accepted| - |s.accepted|
  {
    RejectionClears(p, cap, s, states[0]);
    var anew := PathAnew(p, cap, states, steps, |s.accepted|, |s.client.delivered|, k);
    PipeDeliversMessages(p, cap, anew, steps[..k], k);
  }

  // ---------------------------------------------------------------------------
  // How many reads a payload may take

  /** The thread after reads that returned these pieces of a payload. */
  ghost function Fed(p: Proto, c: Client, pieces: seq<seq<Byte>>): Client
    requires ClientOk(p, c)
    decreases |pieces|
  {
    if pieces == [] || !(0 < |pieces[0]| <= Wanted(p, c)) then c else Fed(p, OnRead(p, c, pieces[0]), pieces[1..])
  }

  lemma {:induction false} FedPieces(p: Proto, c: Client, pieces: seq<seq<Byte>>, k: nat)
    requires ClientOk(p, c) && c.phase.WantPayload? && forall i :: 0 <= i < |pieces| ==> |pieces[i]| > 0
    requires |c.phase.got| + |Flatten(pieces)| == c.phase.need && k <= |pieces| && c.phase.tries + k <= 10
    ensures Fed(p, c, pieces[..k]) ==
            if k == |pieces| then
              Client(c.metaBuf, WantMeta,
                     c.delivered + [Delivery(c.metaBuf, c.phase.got + Flatten(pieces), c.phase.tries + k)])
            else if c.phase.tries + k == 10 then Client(c.metaBuf, WantMeta, c.delivered)
            else c.(phase := WantPayload(c.phase.need, c.phase.got + Flatten(pieces[..k]), c.phase.tries + k))
    decreases k
  {
    if k == 0 {
      assert c.phase.got + [] == c.phase.got;
    } else {
      var first, rest := pieces[0], pieces[1..];
      var c' := OnRead(p, c, first);
      assert pieces[..k][0] == first && pieces[..k][1..] == rest[..k - 1];
      if rest == [] {
        assert first + [] == first;
      } else {
        BytesLeft(rest);
        if c'.phase.WantPayload? {
          FedPieces(p, c', rest, k - 1);
          Associate(c.phase.got, first, Flatten(rest));
          Associate(c.phase.got, first, Flatten(rest[..k - 1]));
        }
      }
    }
  }

  lemma BytesLeft(pieces: seq<seq<Byte>>)
    requires pieces != [] && forall i :: 0 <= i < |pieces| ==> |pieces[i]| > 0
    ensures |Flatten(pieces)| > 0
  {
  }

  /** A payload in non-empty pieces is delivered if there are at most ten of them, and given up if there are more. */
  lemma PayloadInTenReadsExactly(p: Proto, c: Client, pieces: seq<seq<Byte>>)
    requires ClientOk(p, c) && c.phase == WantPayload(|Flatten(pieces)|, [], 0)
    requires pieces != [] && forall i :: 0 <= i < |pieces| ==> |pieces[i]| > 0
    ensures |pieces| <= 10 ==>
              Fed(p, c, pieces) ==
              Client(c.metaBuf, WantMeta, c.delivered + [Delivery(c.metaBuf, Flatten(pieces), |pieces|)])
    ensures |pieces| > 10 ==> Fed(p, c, pieces[..10]) == Client(c.metaBuf, WantMeta, c.delivered)
  {
    var k := Min(|pieces|, 10);
    FedPieces(p, c, pieces, k);
    assert pieces[..|pieces|] == pieces && [] + Flatten(pieces) == Flatten(pieces);
  }

  // ---------------------------------------------------------------------------
  // What a list write admits

  /** A message is accepted if and only if all of it fits in the room that the pipe has left. */
  lemma AcceptedExactly(p: Proto, cap: nat, s: Link, m: Msg, s': Link)
    requires Next(p, cap, s, Offer(m), s')
    ensures s'.accepted == s.accepted + [m] <==> |s.fifo| + |m.meta| + |Payload(m)| <= cap
    ensures s'.accepted == s.accepted || s'.accepted == s.accepted + [m]
  {
    BufsFlatten(m);
    assert s.accepted != s.accepted + [m] by {
      assert |s.accepted + [m]| == |s.accepted| + 1;
    }
  }
}
