/**
 One sender and one receiver running concurrently on a pipe, frame by frame.

 The sender runs `send_multipart` calls, the receiver `recv_multipart` calls, bounded or not; between any
 two socket operations of one the other may move. Every step is one socket operation of a loop in module
 Sockets together with the loop code around it. The socket assumptions are those stated there.
 */
module PipeProtocol {
  import opened NetworkOrder
  import opened Framing
  import opened Sequences

  /** The sender is about to send `msgs[it]`; `more` is its SNDMORE flag. */
  datatype Sender = SenderIdle | Sending(msgs: seq<Bytes>, it: nat, more: bool)

  /** The receiver has written `written`; `bound` is -1 for the unbounded receive. */
  datatype Receiver = ReceiverIdle | Receiving(bound: int, written: seq<Bytes>)

  /** The pipe, both threads, and what their finished calls sent and got. */
  datatype Pipe = Pipe(
    queue: seq<WireFrame>,
    midReceive: bool,
    sender: Sender,
    receiver: Receiver,
    sent: seq<Chunk>,
    got: seq<Chunk>)

  datatype Step =
    | CallSend(msgs: seq<Bytes>, more: bool)
    | SendFrame
    | SendRefused
    | SendThrows
    | CallRecv(bound: int)
    | RecvFrame
    | RecvRefused
    | RecvThrows
    | TooManyParts

  const INIT := Pipe([], false, SenderIdle, ReceiverIdle, [], [])

  ghost predicate Enabled(s: Pipe, step: Step) {
    match step
    case CallSend(_, _) => s.sender.SenderIdle?
    case SendFrame => s.sender.Sending? && s.sender.it < |s.sender.msgs|
    case SendRefused => s.sender.Sending? && !MidMessage(s.queue)
    case SendThrows => s.sender.Sending?
    case CallRecv(_) => s.receiver.ReceiverIdle?
    case RecvFrame => s.receiver.Receiving? && !OverBound(s.receiver) && HasMessage(s.queue)
    case RecvRefused => s.receiver.Receiving? && !OverBound(s.receiver) && !s.midReceive
    case RecvThrows => s.receiver.Receiving? && !OverBound(s.receiver)
    case TooManyParts => s.receiver.Receiving? && OverBound(s.receiver)
  }

  /** The frame the running send is about to put on the wire. */
  function NextFrame(s: Sender): WireFrame
    requires s.Sending? && s.it < |s.msgs|
  {
    WireFrame(s.msgs[s.it], s.it + 1 < |s.msgs| || s.more)
  }

  /** The check in front of each receive of the bounded loop. */
  predicate OverBound(r: Receiver)
    requires r.Receiving?
  {
    r.bound >= 0 && |r.written| >= r.bound
  }

  ghost function Apply(s: Pipe, step: Step): Pipe
    requires Enabled(s, step)
  {
    match step
    case CallSend(msgs, more) =>
      if msgs == [] then s.(sent := s.sent + [Chunk([], more)]) else s.(sender := Sending(msgs, 0, more))
    case SendFrame =>
      var Sending(msgs, it, more) := s.sender;
      var pushed := s.(queue := s.queue + [NextFrame(s.sender)]);
      if it + 1 == |msgs| then pushed.(sender := SenderIdle, sent := s.sent + [Chunk(msgs, more)])
      else pushed.(sender := Sending(msgs, it + 1, more))
    case SendRefused => s.(sender := SenderIdle)
    case SendThrows => s.(sender := SenderIdle, sent := s.sent + [Chunk(SentSoFar(s.sender), true)])
    case CallRecv(bound) => s.(receiver := Receiving(bound, []))
    case RecvFrame =>
      var f := s.queue[0];
      var written := s.receiver.written + [f.data];
      var popped := s.(queue := s.queue[1..], midReceive := f.more);
      if f.more then popped.(receiver := s.receiver.(written := written))
      else popped.(receiver := ReceiverIdle, got := s.got + [Chunk(written, false)])
    case RecvRefused => s.(receiver := ReceiverIdle)
    case RecvThrows => s.(receiver := ReceiverIdle, got := s.got + [Chunk(s.receiver.written, true)])
    case TooManyParts => s.(receiver := ReceiverIdle, got := s.got + [Chunk(s.receiver.written, true)])
  }

  /** A run: steps from the initial state, each enabled where it is taken. */
  ghost predicate IsRun(states: seq<Pipe>, steps: seq<Step>) {
    && |states| == |steps| + 1 && states[0] == INIT
    && forall i | 0 <= i < |steps| :: Enabled(states[i], steps[i]) && states[i + 1] == Apply(states[i], steps[i])
  }

  // ----- The invariant -----

  function SentSoFar(s: Sender): seq<Bytes> {
    if s.Sending? && s.it <= |s.msgs| then s.msgs[..s.it] else []
  }

  function WrittenSoFar(r: Receiver): seq<Bytes> { if r.Receiving? then r.written else [] }

  /** Everything the sender has put on the wire, and everything the receiver has taken off it. */
  function SentFrames(s: Pipe): seq<WireFrame> { Wire(s.sent) + Frames(SentSoFar(s.sender), true) }

  function GotFrames(s: Pipe): seq<WireFrame> { Wire(s.got) + Frames(WrittenSoFar(s.receiver), true) }

  ghost predicate Inv(s: Pipe) {
    && (s.sender.Sending? ==> s.sender.it < |s.sender.msgs| && (s.sender.it > 0 ==> MidMessage(s.queue)))
    && (s.receiver.Receiving? && s.receiver.written != [] ==> s.midReceive)
    && (s.midReceive ==> HasMessage(s.queue))
    && GotFrames(s) + s.queue == SentFrames(s)
  }

  lemma WireSnoc(chunks: seq<Chunk>, parts: seq<Bytes>, open: bool)
    ensures Wire(chunks + [Chunk(parts, open)]) == Wire(chunks) + Frames(parts, open)
  {
    assert (chunks + [Chunk(parts, open)])[..|chunks|] == chunks;
  }

  /** One more frame, seen as part of the running call or as the last of a finished one. */
  lemma OneMoreFrame(chunks: seq<Chunk>, parts: seq<Bytes>, f: WireFrame)
    ensures
      var before := (Wire(chunks) + Frames(parts, true)) + [f];
      var all := parts + [f.data];
      && Wire(chunks + [Chunk(all, f.more)]) == before
      && Wire(chunks) + Frames(all, f.more) == before
  {
    var all := parts + [f.data];
    assert Frames(parts, true) + [f] == Frames(all, f.more);
    ConcatAssociates(Wire(chunks), Frames(parts, true), [f]);
    WireSnoc(chunks, all, f.more);
  }

  /** A call in which nothing was sent or received leaves no frames behind. */
  lemma NothingInFlight(fs: seq<WireFrame>)
    ensures fs + Frames([], true) == fs
  {
  }

  lemma AdvanceSend(sent: seq<Chunk>, sender: Sender)
    requires sender.Sending? && sender.it < |sender.msgs|
    ensures
      var Sending(msgs, it, more) := sender;
      var before := (Wire(sent) + Frames(msgs[..it], true)) + [NextFrame(sender)];
      if it + 1 == |msgs| then Wire(sent + [Chunk(msgs, more)]) == before
      else Wire(sent) + Frames(msgs[..it + 1], true) == before
  {
    var Sending(msgs, it, more) := sender;
    OneMoreFrame(sent, msgs[..it], NextFrame(sender));
    assert msgs[..it] + [msgs[it]] == if it + 1 == |msgs| then msgs else msgs[..it + 1];
  }

  lemma SendFrameGrows(s: Pipe)
    requires Inv(s) && s.sender.Sending?
    ensures SentFrames(Apply(s, SendFrame)) == SentFrames(s) + [NextFrame(s.sender)]
  {
    AdvanceSend(s.sent, s.sender);
    NothingInFlight(Wire(Apply(s, SendFrame).sent));
  }

  lemma SendFrameKeeps(s: Pipe)
    requires Inv(s) && s.sender.Sending?
    ensures Inv(Apply(s, SendFrame))
  {
    var f := NextFrame(s.sender);
    SendFrameGrows(s);
    PushKeepsMessage(s.queue, f);
    ConcatAssociates(GotFrames(s), s.queue, [f]);
  }

  lemma PushKeepsMessage(q: seq<WireFrame>, f: WireFrame)
    ensures HasMessage(q) ==> HasMessage(q + [f])
  {
    if i :| 0 <= i < |q| && !q[i].more {
      assert (q + [f])[i] == q[i];
    }
  }

  lemma RecvFrameGrows(s: Pipe)
    requires Inv(s) && Enabled(s, RecvFrame)
    ensures GotFrames(Apply(s, RecvFrame)) == GotFrames(s) + [s.queue[0]]
  {
    var f, next := s.queue[0], Apply(s, RecvFrame);
    var all := s.receiver.written + [f.data];
    OneMoreFrame(s.got, s.receiver.written, f);
    if f.more {
      assert next.got == s.got && WrittenSoFar(next.receiver) == all;
    } else {
      assert next.got == s.got + [Chunk(all, false)] && WrittenSoFar(next.receiver) == [];
      NothingInFlight(Wire(next.got));
    }
  }

  lemma RecvFrameKeeps(s: Pipe)
    requires Inv(s) && Enabled(s, RecvFrame)
    ensures Inv(Apply(s, RecvFrame))
  {
    RecvFrameGrows(s);
    PopKeeps(s.queue);
    MoveFront(GotFrames(s), s.queue);
  }

  /** Taking the front frame of a whole message leaves the end of that message, and the end of the queue. */
  lemma PopKeeps(q: seq<WireFrame>)
    requires HasMessage(q)
    ensures q[0].more ==> HasMessage(q[1..])
    ensures MidMessage(q) ==> MidMessage(q[1..])
  {
    var i :| 0 <= i < |q| && !q[i].more;
    if i > 0 {
      assert q[1..][i - 1] == q[i];
    }
  }

  /** The steps that start or end a send without touching the wire. */
  lemma SendCallKeeps(s: Pipe, step: Step)
    requires Inv(s) && Enabled(s, step)
    requires step.CallSend? || step.SendRefused? || step.SendThrows?
    ensures Inv(Apply(s, step))
  {
    NothingInFlight(Wire(s.sent));
    WireSnoc(s.sent, SentSoFar(s.sender), if step.CallSend? then step.more else true);
    NothingInFlight(Wire(Apply(s, step).sent));
  }

  /** The steps that start or end a receive without touching the wire. */
  lemma RecvCallKeeps(s: Pipe, step: Step)
    requires Inv(s) && Enabled(s, step)
    requires step.CallRecv? || step.RecvRefused? || step.RecvThrows? || step.TooManyParts?
    ensures Inv(Apply(s, step))
  {
    NothingInFlight(Wire(s.got));
    WireSnoc(s.got, WrittenSoFar(s.receiver), true);
    NothingInFlight(Wire(Apply(s, step).got));
  }

  lemma StepKeeps(s: Pipe, step: Step)
    requires Inv(s) && Enabled(s, step)
    ensures Inv(Apply(s, step))
  {
    if step.SendFrame? {
      SendFrameKeeps(s);
    } else if step.RecvFrame? {
      RecvFrameKeeps(s);
    } else if step.CallSend? || step.SendRefused? || step.SendThrows? {
      SendCallKeeps(s, step);
    } else {
      RecvCallKeeps(s, step);
    }
  }

  lemma {:induction false} RunKeeps(states: seq<Pipe>, steps: seq<Step>, i: nat)
    requires IsRun(states, steps) && i < |states|
    ensures Inv(states[i])
  {
    if i > 0 {
      RunKeeps(states, steps, i - 1);
      StepKeeps(states[i - 1], steps[i - 1]);
    }
  }

  // ----- Main results: every state of every run -----

  /** No frame is lost, repeated, reordered or changed: those taken, then those queued, are those sent. */
  lemma FramesConserved(states: seq<Pipe>, steps: seq<Step>, i: nat)
    requires IsRun(states, steps) && i < |states|
    ensures GotFrames(states[i]) + states[i].queue == SentFrames(states[i])
  {
    RunKeeps(states, steps, i);
  }

  /** The assertions of the two loops hold wherever a refusal can happen: it hits only a first frame. */
  lemma RefusedOnlyAtFirstFrame(states: seq<Pipe>, steps: seq<Step>, i: nat)
    requires IsRun(states, steps) && i < |states|
    ensures Enabled(states[i], SendRefused) ==> states[i].sender.it == 0
    ensures Enabled(states[i], RecvRefused) ==> states[i].receiver.written == []
  {
    RunKeeps(states, steps, i);
  }

  /** A receiver inside a message never waits for the sender: the rest of the message is in the queue. */
  lemma MidMessageNeverWaits(states: seq<Pipe>, steps: seq<Step>, i: nat)
    requires IsRun(states, steps) && i < |states|
    requires states[i].receiver.Receiving? && states[i].receiver.written != []
    ensures Enabled(states[i], RecvFrame) || Enabled(states[i], TooManyParts)
  {
    RunKeeps(states, steps, i);
  }

  /** A bounded receive never takes more than its bound, and gives up exactly when it has taken that many. */
  lemma {:induction false} BoundRespected(states: seq<Pipe>, steps: seq<Step>, i: nat)
    requires IsRun(states, steps) && i < |states| && states[i].receiver.Receiving?
    ensures
      var r := states[i].receiver;
      && (r.bound >= 0 ==> |r.written| <= r.bound)
      && (Enabled(states[i], TooManyParts) <==> |r.written| == r.bound)
  {
    if i > 0 && states[i - 1].receiver.Receiving? {
      BoundRespected(states, steps, i - 1);
    }
  }

  /** What the receiver has seen assembles to a prefix of the messages that were sent, however calls split them. */
  lemma ReceivedIsPrefix(states: seq<Pipe>, steps: seq<Step>, i: nat)
    requires IsRun(states, steps) && i < |states|
    ensures Assemble(GotFrames(states[i])).messages <= Assemble(SentFrames(states[i])).messages
  {
    RunKeeps(states, steps, i);
    AssembleMonotonic(GotFrames(states[i]), states[i].queue);
  }

  /**
   The frame protocol refines a queue of messages. Whatever the receives did, bounded, refused or throwing:
   everything taken, then everything queued, assembles to the messages sent, and what is left over is
   exactly what the running send has already put on the wire.
   */
  lemma RefinesMessageQueue(states: seq<Pipe>, steps: seq<Step>, i: nat)
    requires IsRun(states, steps) && i < |states|
    requires WholeMessages(states[i].sent)
    ensures
      var s := states[i];
      && Assemble(GotFrames(s) + s.queue) == Assembly(Messages(s.sent), SentSoFar(s.sender))
      && Assemble(GotFrames(s)).messages <= Messages(s.sent)
  {
    FramesConserved(states, steps, i);
    var s := states[i];
    AssembleWire(s.sent);
    AssembleOpen(Wire(s.sent), SentSoFar(s.sender));
    EmptyPending(SentSoFar(s.sender));
    AssembleMonotonic(GotFrames(s), s.queue);
  }

  /**
   As long as no finished receive stopped inside a message, the results of the receives, then the messages
   in the pipe, are the messages sent, one by one and part by part.
   */
  lemma WholeReceives(states: seq<Pipe>, steps: seq<Step>, i: nat)
    requires IsRun(states, steps) && i < |states|
    requires WholeMessages(states[i].sent) && WholeMessages(states[i].got)
    ensures
      var s := states[i];
      var inPipe := Assemble(Frames(WrittenSoFar(s.receiver), true) + s.queue);
      && Messages(s.got) + inPipe.messages == Messages(s.sent)
      && inPipe.pending == SentSoFar(s.sender)
  {
    RefinesMessageQueue(states, steps, i);
    var s := states[i];
    var inPipe := Frames(WrittenSoFar(s.receiver), true) + s.queue;
    ConcatAssociates(Wire(s.got), Frames(WrittenSoFar(s.receiver), true), s.queue);
    AssembleBehind(s.got, inPipe);
  }

  /** The calls the documentation describes: closed sends, unbounded receives, and no socket exception. */
  predicate PlainStep(step: Step) {
    match step
    case CallSend(_, more) => !more
    case CallRecv(bound) => bound < 0
    case SendThrows => false
    case RecvThrows => false
    case _ => true
  }

  ghost predicate PlainState(s: Pipe) {
    && WholeMessages(s.sent) && WholeMessages(s.got)
    && (s.sender.Sending? ==> !s.sender.more)
    && (s.receiver.Receiving? ==> s.receiver.bound < 0)
  }

  lemma {:induction false} PlainRunKeeps(states: seq<Pipe>, steps: seq<Step>, i: nat)
    requires IsRun(states, steps) && i < |states|
    requires forall k | 0 <= k < |steps| :: PlainStep(steps[k])
    ensures PlainState(states[i])
  {
    if i > 0 {
      PlainRunKeeps(states, steps, i - 1);
      assert PlainStep(steps[i - 1]);
    }
  }

  /** In every run of plain calls, refusals included, the pipe is a queue of messages at every moment. */
  lemma PlainRunRefines(states: seq<Pipe>, steps: seq<Step>, i: nat)
    requires IsRun(states, steps) && i < |states|
    requires forall k | 0 <= k < |steps| :: PlainStep(steps[k])
    ensures
      var s := states[i];
      var inPipe := Assemble(Frames(WrittenSoFar(s.receiver), true) + s.queue);
      && Messages(s.got) + inPipe.messages == Messages(s.sent)
      && inPipe.pending == SentSoFar(s.sender)
  {
    PlainRunKeeps(states, steps, i);
    WholeReceives(states, steps, i);
  }

  // ----- A call that nobody interrupts -----

  /** `k` frames of the running send, one after the other. */
  ghost function SendFrames(s: Pipe, k: nat): Pipe
    requires k > 0 ==> s.sender.Sending? && s.sender.it + k <= |s.sender.msgs|
    decreases k
  {
    if k == 0 then s
    else
      var next := Apply(s, SendFrame);
      if next.sender.Sending? then SendFrames(next, k - 1) else next
  }

  /** A send that runs through is the successful call of module Sockets: its frames, and one finished chunk. */
  lemma {:induction false} UninterruptedSend(s: Pipe)
    requires s.sender.Sending? && s.sender.it < |s.sender.msgs|
    ensures
      var Sending(msgs, it, more) := s.sender;
      SendFrames(s, |msgs| - it)
      == s.(queue := s.queue + Frames(msgs, more)[it..], sender := SenderIdle, sent := s.sent + [Chunk(msgs, more)])
    decreases |s.sender.msgs| - s.sender.it
  {
    var Sending(msgs, it, more) := s.sender;
    var next := Apply(s, SendFrame);
    assert Frames(msgs, more)[it..] == [NextFrame(s.sender)] + Frames(msgs, more)[it + 1..];
    ConcatAssociates(s.queue, [NextFrame(s.sender)], Frames(msgs, more)[it + 1..]);
    if it + 1 < |msgs| {
      UninterruptedSend(next);
    } else {
      assert Frames(msgs, more)[it + 1..] == [];
    }
  }

  /** From the call itself: the frames carry the MORE flag the caller asked for. */
  lemma SendFromCall(s: Pipe, msgs: seq<Bytes>, more: bool)
    requires s.sender.SenderIdle? && msgs != []
    ensures SendFrames(Apply(s, CallSend(msgs, more)), |msgs|)
            == s.(queue := s.queue + Frames(msgs, more), sent := s.sent + [Chunk(msgs, more)])
  {
    UninterruptedSend(Apply(s, CallSend(msgs, more)));
    assert Frames(msgs, more)[0..] == Frames(msgs, more);
  }

  /** `k` frames of the running receive, one after the other. */
  ghost function RecvFrames(s: Pipe, k: nat): Pipe
    requires k > 0 ==> s.receiver.Receiving? && s.receiver.bound < 0
    requires k > 0 ==> HasMessage(s.queue) && k <= |HeadMessage(s.queue)|
    decreases k
  {
    if k == 0 then s
    else
      var next := Apply(s, RecvFrame);
      if next.receiver.Receiving? && k > 1 then RecvFrames(next, k - 1) else next
  }

  /** An unbounded receive that runs through takes exactly the first message of the queue. */
  lemma {:induction false} UninterruptedRecv(s: Pipe)
    requires s.receiver.Receiving? && s.receiver.bound < 0 && HasMessage(s.queue)
    ensures
      var m := HeadMessage(s.queue);
      RecvFrames(s, |m|)
      == s.(queue := s.queue[|m|..], midReceive := false, receiver := ReceiverIdle,
            got := s.got + [Chunk(s.receiver.written + m, false)])
    decreases |s.queue|
  {
    var f := s.queue[0];
    if f.more {
      var next := Apply(s, RecvFrame);
      PopKeeps(s.queue);
      UninterruptedRecv(next);
      ConcatAssociates(s.receiver.written, [f.data], HeadMessage(next.queue));
    }
  }

  /** From the call itself: an unbounded receive with a message waiting takes that message. */
  lemma RecvFromCall(s: Pipe, bound: int)
    requires s.receiver.ReceiverIdle? && bound < 0 && HasMessage(s.queue)
    ensures
      var m := HeadMessage(s.queue);
      RecvFrames(Apply(s, CallRecv(bound)), |m|)
      == s.(queue := s.queue[|m|..], midReceive := false, got := s.got + [Chunk(m, false)])
  {
    UninterruptedRecv(Apply(s, CallRecv(bound)));
    assert [] + HeadMessage(s.queue) == HeadMessage(s.queue);
  }
}
