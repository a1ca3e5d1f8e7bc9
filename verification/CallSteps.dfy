/**
 The calls of module Sockets as steps of the pipe protocol: whatever the socket answers, a call performs
 one enabled protocol step for each answer, starting with the step that carries its arguments.
 */
module CallSteps {
  import opened NetworkOrder
  import opened Framing
  import opened SendFlags
  import opened Sequences
  import opened Sockets
  import Protocol = PipeProtocol

  type Pipe = Protocol.Pipe
  type Step = Protocol.Step

  // ----- Taking several steps -----

  ghost predicate CanTake(p: Pipe, steps: seq<Step>)
    decreases |steps|, 0
  {
    var n := |steps| - 1;
    steps == [] || (CanTake(p, steps[..n]) && Protocol.Enabled(After(p, steps[..n]), steps[n]))
  }

  ghost function After(p: Pipe, steps: seq<Step>): Pipe
    requires CanTake(p, steps)
    decreases |steps|, 1
  {
    if steps == [] then p
    else
      var n := |steps| - 1;
      Protocol.Apply(After(p, steps[..n]), steps[n])
  }

  lemma OneMoreStep(p: Pipe, steps: seq<Step>, step: Step)
    requires CanTake(p, steps) && Protocol.Enabled(After(p, steps), step)
    ensures CanTake(p, steps + [step]) && After(p, steps + [step]) == Protocol.Apply(After(p, steps), step)
  {
    assert (steps + [step])[..|steps|] == steps;
  }

  lemma RunGrows(states: seq<Pipe>, steps: seq<Step>, step: Step)
    requires Protocol.IsRun(states, steps) && Protocol.Enabled(states[|steps|], step)
    ensures Protocol.IsRun(states + [Protocol.Apply(states[|steps|], step)], steps + [step])
  {
    var longer, all := states + [Protocol.Apply(states[|steps|], step)], steps + [step];
    forall i | 0 <= i < |all|
      ensures Protocol.Enabled(longer[i], all[i]) && longer[i + 1] == Protocol.Apply(longer[i], all[i])
    {
      assert longer[i] == states[i];
      if i < |steps| {
        assert all[i] == steps[i] && longer[i + 1] == states[i + 1];
      }
    }
  }

  /** Steps taken from the initial state are a run: all that is proved of runs holds of them. */
  lemma StepsAreRun(steps: seq<Step>) returns (states: seq<Pipe>)
    requires CanTake(Protocol.INIT, steps)
    ensures Protocol.IsRun(states, steps) && states[|steps|] == After(Protocol.INIT, steps)
    decreases |steps|
  {
    if steps == [] {
      states := [Protocol.INIT];
    } else {
      var n := |steps| - 1;
      var before := StepsAreRun(steps[..n]);
      states := before + [After(Protocol.INIT, steps)];
      RunGrows(before, steps[..n], steps[n]);
      assert steps[..n] + [steps[n]] == steps;
    }
  }

  // ----- Sending -----

  function SendStep(outcome: SendOutcome): Step {
    match outcome
    case Sent => Protocol.SendFrame
    case SendAgain => Protocol.SendRefused
    case SendError => Protocol.SendThrows
  }

  /** The steps of one call: its start, and one step for each answer. */
  function SendSteps(msgs: seq<Bytes>, more: bool, calls: seq<SendCall>): seq<Step>
    decreases |calls|
  {
    if calls == [] then [Protocol.CallSend(msgs, more)]
    else SendSteps(msgs, more, calls[..|calls| - 1]) + [SendStep(calls[|calls| - 1].outcome)]
  }

  /** In the middle of the call: the answers so far were all `Sent`. */
  lemma {:induction false} SendUnderWay(p: Pipe, msgs: seq<Bytes>, more: bool, calls: seq<SendCall>)
    requires p.sender.SenderIdle? && |calls| < |msgs|
    requires forall i | 0 <= i < |calls| :: calls[i].outcome.Sent?
    ensures
      var n := |calls|;
      && CanTake(p, SendSteps(msgs, more, calls))
      && After(p, SendSteps(msgs, more, calls))
         == p.(queue := p.queue + Frames(msgs, more)[..n], sender := Protocol.Sending(msgs, n, more))
    decreases |calls|
  {
    if calls == [] {
      OneMoreStep(p, [], Protocol.CallSend(msgs, more));
      assert [] + [Protocol.CallSend(msgs, more)] == SendSteps(msgs, more, calls);
    } else {
      var n := |calls| - 1;
      SendUnderWay(p, msgs, more, calls[..n]);
      OneMoreStep(p, SendSteps(msgs, more, calls[..n]), Protocol.SendFrame);
      OneMoreOut(p.queue, Frames(msgs, more), n);
    }
  }

  lemma OneMoreOut(q: seq<WireFrame>, fs: seq<WireFrame>, n: nat)
    requires n < |fs|
    ensures (q + fs[..n]) + [fs[n]] == q + fs[..n + 1]
  {
  }

  /** What a call adds to the sent chunks: nothing when it was refused, else the parts that went out. */
  function SentChunk(msgs: seq<Bytes>, more: bool, r: SendResult): seq<Chunk>
    requires r.SendThrew? ==> r.sent <= |msgs|
  {
    match r
    case SendCount(_) => [Chunk(msgs, more)]
    case SendRefused => []
    case SendThrew(sent) => [Chunk(msgs[..sent], true)]
  }

  /** The protocol's step for the last answer, in the middle of a call. */
  lemma LastSend(p: Pipe, msgs: seq<Bytes>, more: bool, n: nat, outcome: SendOutcome)
    requires n < |msgs| && (outcome.Sent? ==> n + 1 == |msgs|)
    requires outcome.SendAgain? ==> n == 0 && !MidMessage(p.queue)
    ensures
      var fs := Frames(msgs, more);
      var mid := p.(queue := p.queue + fs[..n], sender := Protocol.Sending(msgs, n, more));
      && Protocol.Enabled(mid, SendStep(outcome))
      && Protocol.Apply(mid, SendStep(outcome))
         == p.(queue := p.queue + fs[..if outcome.Sent? then |msgs| else n], sender := Protocol.SenderIdle,
               sent := p.sent + match outcome
                                case Sent => [Chunk(msgs, more)]
                                case SendAgain => []
                                case SendError => [Chunk(msgs[..n], true)])
  {
    OneMoreOut(p.queue, Frames(msgs, more), n);
    assert n == 0 ==> p.queue + Frames(msgs, more)[..n] == p.queue;
    assert p.sent + [] == p.sent;
  }

  /**
   A send call, however the socket answers, is a sequence of enabled protocol steps with its own arguments;
   they put its frames on the wire and record what was sent.
   */
  lemma SendIsSteps(p: Pipe, msgs: seq<Bytes>, flags: Flags, calls: seq<SendCall>, r: SendResult)
    requires p.sender.SenderIdle? && SendFollows(msgs, flags, calls, r)
    requires r.SendRefused? ==> |calls| == 1 && !MidMessage(p.queue)
    ensures
      var steps := SendSteps(msgs, flags.sndMore, calls);
      var n := if r.SendCount? then |msgs| else |calls| - 1;
      && CanTake(p, steps)
      && After(p, steps) == p.(queue := p.queue + Frames(msgs, flags.sndMore)[..n],
                               sent := p.sent + SentChunk(msgs, flags.sndMore, r))
  {
    var more := flags.sndMore;
    if calls == [] {
      OneMoreStep(p, [], Protocol.CallSend(msgs, more));
      assert [] + [Protocol.CallSend(msgs, more)] == SendSteps(msgs, more, calls);
    } else {
      var n := |calls| - 1;
      SendUnderWay(p, msgs, more, calls[..n]);
      LastSend(p, msgs, more, n, calls[n].outcome);
      OneMoreStep(p, SendSteps(msgs, more, calls[..n]), SendStep(calls[n].outcome));
    }
  }

  // ----- Receiving -----

  function RecvStep(outcome: RecvOutcome): Step {
    match outcome
    case Received(_) => Protocol.RecvFrame
    case RecvAgain => Protocol.RecvRefused
    case RecvError => Protocol.RecvThrows
  }

  function RecvSteps(bound: int, calls: seq<RecvCall>): seq<Step>
    decreases |calls|
  {
    if calls == [] then [Protocol.CallRecv(bound)]
    else RecvSteps(bound, calls[..|calls| - 1]) + [RecvStep(calls[|calls| - 1].outcome)]
  }

  /** The end of the message is still in the queue when frames that announce more were taken. */
  lemma RestHasMessage(q: seq<WireFrame>, n: nat)
    requires HasMessage(q) && n <= |q| && forall i | 0 <= i < n :: q[i].more
    ensures HasMessage(q[n..])
  {
    var i :| 0 <= i < |q| && !q[i].more;
    assert q[n..][i - n] == q[i];
  }

  /** The pipe in the middle of a receive that has written `before`. */
  function Receiving(p: Pipe, bound: int, before: seq<Bytes>): Pipe
    requires |before| <= |p.queue|
  {
    p.(queue := p.queue[|before|..], midReceive := before != [] || p.midReceive,
       receiver := Protocol.Receiving(bound, before))
  }

  /** The protocol's step for one more answer, in the middle of a call. */
  lemma NextRecv(p: Pipe, bound: int, before: seq<Bytes>, outcome: RecvOutcome)
    requires var n := |before|;
      && n <= |p.queue| && (bound >= 0 ==> n < bound)
      && (outcome.Received? ==> HasMessage(p.queue[n..]) && n < |p.queue| && outcome.frame == p.queue[n])
      && (outcome.RecvAgain? ==> n == 0 && !p.midReceive)
    ensures
      var n, mid := |before|, Receiving(p, bound, before);
      && Protocol.Enabled(mid, RecvStep(outcome))
      && Protocol.Apply(mid, RecvStep(outcome))
         == match outcome
            case RecvAgain => mid.(receiver := Protocol.ReceiverIdle)
            case RecvError => mid.(receiver := Protocol.ReceiverIdle, got := p.got + [Chunk(before, true)])
            case Received(f) =>
              var next := mid.(queue := p.queue[n + 1..], midReceive := f.more);
              if f.more then next.(receiver := Protocol.Receiving(bound, before + [f.data]))
              else next.(receiver := Protocol.ReceiverIdle, got := p.got + [Chunk(before + [f.data], false)])
  {
  }

  lemma OneMoreEarlier(q: seq<WireFrame>, dontWait: bool, calls: seq<RecvCall>, written: seq<Bytes>)
    requires AllMore(q, dontWait, calls, written) && calls != []
    ensures
      var n := |calls| - 1;
      && AllMore(q, dontWait, calls[..n], written[..n]) && HasMessage(q[n..])
      && calls[n].outcome == RecvOutcome.Received(q[n]) && q[n].more && written[..n] + [q[n].data] == written
  {
    RestHasMessage(q, |calls| - 1);
  }

  /** In the middle of the call: the answers so far were all frames that announce more. */
  lemma {:induction false} RecvUnderWay(p: Pipe, bound: int, dontWait: bool, calls: seq<RecvCall>, written: seq<Bytes>)
    requires p.receiver.ReceiverIdle? && AllMore(p.queue, dontWait, calls, written)
    requires bound >= 0 ==> |calls| <= bound
    ensures
      CanTake(p, RecvSteps(bound, calls)) && After(p, RecvSteps(bound, calls)) == Receiving(p, bound, written)
    decreases |calls|
  {
    if calls == [] {
      OneMoreStep(p, [], Protocol.CallRecv(bound));
      assert [] + [Protocol.CallRecv(bound)] == RecvSteps(bound, calls);
      assert written == [] && p.queue[0..] == p.queue;
    } else {
      var n := |calls| - 1;
      OneMoreEarlier(p.queue, dontWait, calls, written);
      RecvUnderWay(p, bound, dontWait, calls[..n], written[..n]);
      NextRecv(p, bound, written[..n], calls[n].outcome);
      OneMoreStep(p, RecvSteps(bound, calls[..n]), Protocol.RecvFrame);
    }
  }

  /** The steps of one receive: its start, one step for each answer, and the exception of a full bound. */
  function AllRecvSteps(bound: int, calls: seq<RecvCall>, r: RecvResult): seq<Step> {
    RecvSteps(bound, calls) + if r.TooManyParts? then [Protocol.TooManyParts] else []
  }

  /** Where a receive leaves the pipe. */
  function Received(p: Pipe, written: seq<Bytes>, mid: bool, chunks: seq<Chunk>): Pipe
    requires |written| <= |p.queue|
  {
    p.(queue := p.queue[|written|..], midReceive := mid, got := p.got + chunks)
  }

  /** The result of a receive that ends with the answer `last`, and what it has written then. */
  predicate EndsWith(last: RecvOutcome, before: seq<Bytes>, r: RecvResult, written: seq<Bytes>) {
    match last
    case RecvAgain => r.RecvRefused? && before == [] && written == []
    case RecvError => r.RecvThrew? && written == before
    case Received(f) => r.RecvCount? && !f.more && written == before + [f.data]
  }

  /** The last answer, in the middle of a call, leaves the pipe where the call's result says. */
  lemma LastRecv(p: Pipe, bound: int, before: seq<Bytes>, last: RecvOutcome, r: RecvResult, written: seq<Bytes>)
    requires p.receiver.ReceiverIdle? && |before| <= |p.queue| && (bound >= 0 ==> |before| < bound)
    requires EndsWith(last, before, r, written) && (r.RecvRefused? ==> !p.midReceive)
    requires last.Received? ==>
               |before| < |p.queue| && last.frame == p.queue[|before|] && HasMessage(p.queue[|before|..])
    ensures |written| <= |p.queue|
    ensures
      var mid := Receiving(p, bound, before);
      && Protocol.Enabled(mid, RecvStep(last))
      && Protocol.Apply(mid, RecvStep(last))
         == Received(p, written, !r.RecvCount? && (written != [] || p.midReceive),
                     if r.RecvRefused? then [] else [Chunk(written, !r.RecvCount?)])
  {
    NextRecv(p, bound, before, last);
    assert p.queue[0..] == p.queue && p.got + [] == p.got;
  }

  /** The call ends with the answer `last`. */
  lemma RecvEnds(p: Pipe, bound: int, dontWait: bool, earlier: seq<RecvCall>, before: seq<Bytes>, last: RecvCall,
                 r: RecvResult, written: seq<Bytes>)
    requires p.receiver.ReceiverIdle? && AllMore(p.queue, dontWait, earlier, before)
    requires bound >= 0 ==> |earlier| < bound
    requires EndsWith(last.outcome, before, r, written) && (r.RecvRefused? ==> !p.midReceive)
    requires last.outcome.Received? ==>
               |before| < |p.queue| && last.outcome.frame == p.queue[|before|] && HasMessage(p.queue[|before|..])
    ensures |written| <= |p.queue|
    ensures
      var steps := AllRecvSteps(bound, earlier + [last], r);
      && CanTake(p, steps)
      && After(p, steps) == Received(p, written, !r.RecvCount? && (written != [] || p.midReceive),
                                     if r.RecvRefused? then [] else [Chunk(written, !r.RecvCount?)])
  {
    var all := earlier + [last];
    assert all[..|earlier|] == earlier;
    RecvUnderWay(p, bound, dontWait, earlier, before);
    LastRecv(p, bound, before, last.outcome, r, written);
    OneMoreStep(p, RecvSteps(bound, earlier), RecvStep(last.outcome));
    assert RecvSteps(bound, all) + [] == RecvSteps(bound, all);
  }

  /** The call ends because its bound is reached. */
  lemma RecvGivesUp(p: Pipe, bound: nat, dontWait: bool, calls: seq<RecvCall>, written: seq<Bytes>)
    requires p.receiver.ReceiverIdle? && AllMore(p.queue, dontWait, calls, written) && |calls| == bound
    ensures
      var steps := RecvSteps(bound, calls) + [Protocol.TooManyParts];
      && CanTake(p, steps)
      && After(p, steps) == Received(p, written, written != [] || p.midReceive, [Chunk(written, true)])
  {
    RecvUnderWay(p, bound, dontWait, calls, written);
    OneMoreStep(p, RecvSteps(bound, calls), Protocol.TooManyParts);
  }

  /** The answers before the last one, and the last. */
  lemma EarlierAnswers(q: seq<WireFrame>, checkN: bool, limit: nat, dontWait: bool, calls: seq<RecvCall>,
                       r: RecvResult, written: seq<Bytes>)
    requires RecvTakes(q, calls) && RecvFollows(checkN, limit, dontWait, calls, r, written) && !r.TooManyParts?
    requires r.RecvRefused? ==> |calls| == 1
    ensures calls != [] && (checkN ==> |calls| <= limit)
    ensures
      var n := |calls| - 1;
      && n <= |written| && AllMore(q, dontWait, calls[..n], written[..n])
      && EndsWith(calls[n].outcome, written[..n], r, written)
      && (calls[n].outcome.Received? ==> n < |q| && calls[n].outcome.frame == q[n] && HasMessage(q[n..]))
  {
    var n := |calls| - 1;
    if r.RecvCount? {
      assert calls[0].outcome.Received?;
      RestHasMessage(q, n);
    }
  }

  lemma BoundAnswers(q: seq<WireFrame>, checkN: bool, limit: nat, dontWait: bool, calls: seq<RecvCall>,
                     written: seq<Bytes>)
    requires RecvTakes(q, calls) && RecvFollows(checkN, limit, dontWait, calls, TooManyParts, written)
    ensures checkN && |calls| == limit && AllMore(q, dontWait, calls, written)
  {
  }

  /**
   A receive call, bounded or not and however the socket answers, is a sequence of enabled protocol steps
   with its own bound; they take what it wrote off the queue and record it.
   */
  lemma RecvIsSteps(p: Pipe, checkN: bool, limit: nat, dontWait: bool, calls: seq<RecvCall>,
                    r: RecvResult, written: seq<Bytes>)
    requires p.receiver.ReceiverIdle? && RecvTakes(p.queue, calls) && |written| <= |p.queue|
    requires RecvFollows(checkN, limit, dontWait, calls, r, written)
    requires r.RecvRefused? ==> |calls| == 1 && !p.midReceive
    ensures
      var steps := AllRecvSteps(if checkN then limit else -1, calls, r);
      && CanTake(p, steps)
      && After(p, steps) == Received(p, written, !r.RecvCount? && (written != [] || p.midReceive),
                                     if r.RecvRefused? then [] else [Chunk(written, !r.RecvCount?)])
  {
    var bound := if checkN then limit else -1;
    if r.TooManyParts? {
      BoundAnswers(p.queue, checkN, limit, dontWait, calls, written);
      RecvGivesUp(p, bound, dontWait, calls, written);
    } else {
      EarlierAnswers(p.queue, checkN, limit, dontWait, calls, r, written);
      var n := |calls| - 1;
      RecvEnds(p, bound, dontWait, calls[..n], written[..n], calls[n], r, written);
      assert calls[..n] + [calls[n]] == calls;
    }
  }

  // ----- The loops on a socket -----

  ghost predicate Agrees(p: Pipe, s: Socket)
    reads s
  {
    p.queue == s.queue && p.midReceive == s.receiving
  }

  /** The sending loop on a socket performs the protocol's steps on the pipe. */
  method SendOnPipe(s: Socket, ghost p: Pipe, msgs: seq<Bytes>, flags: Flags)
    returns (r: SendResult, ghost steps: seq<Step>)
    requires s.Valid() && Agrees(p, s) && p.sender.SenderIdle?
    modifies s
    ensures s.Valid() && CanTake(p, steps) && Agrees(After(p, steps), s)
    ensures steps != [] && steps[0] == Protocol.CallSend(msgs, flags.sndMore)
    ensures r.SendThrew? ==> r.sent <= |msgs|
    ensures After(p, steps).sent == p.sent + SentChunk(msgs, flags.sndMore, r)
  {
    ghost var calls;
    r, calls := SendMultipart(s, msgs, flags);
    steps := SendSteps(msgs, flags.sndMore, calls);
    SendIsSteps(p, msgs, flags, calls, r);
    SendStarts(msgs, flags.sndMore, calls);
    FramesPrefix(msgs, flags.sndMore, if r.SendCount? then |msgs| else |calls| - 1);
  }

  lemma SendStarts(msgs: seq<Bytes>, more: bool, calls: seq<SendCall>)
    ensures SendSteps(msgs, more, calls)[0] == Protocol.CallSend(msgs, more)
    decreases |calls|
  {
  }

  /** The receiving loop on a socket performs the protocol's steps on the pipe. */
  method RecvOnPipe(s: Socket, ghost p: Pipe, checkN: bool, limit: nat, dontWait: bool)
    returns (r: RecvResult, written: seq<Bytes>, ghost steps: seq<Step>)
    requires s.Valid() && Agrees(p, s) && p.receiver.ReceiverIdle?
    modifies s
    ensures s.Valid() && CanTake(p, steps) && Agrees(After(p, steps), s)
    ensures steps != [] && steps[0] == Protocol.CallRecv(if checkN then limit else -1)
    ensures After(p, steps).got == p.got + if r.RecvRefused? then [] else [Chunk(written, !r.RecvCount?)]
  {
    ghost var calls;
    r, written, calls := RecvFrames(s, checkN, limit, dontWait);
    steps := AllRecvSteps(if checkN then limit else -1, calls, r);
    RecvIsSteps(p, checkN, limit, dontWait, calls, r, written);
    RecvStarts(if checkN then limit else -1, calls);
  }

  lemma RecvStarts(bound: int, calls: seq<RecvCall>)
    ensures RecvSteps(bound, calls)[0] == Protocol.CallRecv(bound)
    decreases |calls|
  {
  }
}
