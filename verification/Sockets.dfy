/**
 A socket pair as a FIFO of frames, and the loops that send and receive multipart messages on it.

 Calls into the library may also fail or report "try again"; which of these happens is not determined
 here. What is assumed is atomic delivery: a send may be refused only between messages, and a receive
 may be refused only between messages and succeeds only when a whole message has arrived.
 */
module Sockets {
  import opened NetworkOrder
  import opened Framing
  import opened SendFlags

  datatype SendOutcome = Sent | SendAgain | SendError
  datatype RecvOutcome = Received(frame: WireFrame) | RecvAgain | RecvError

  /** One call of the socket, with the library's answer. */
  datatype SendCall = SendCall(frame: WireFrame, dontWait: bool, outcome: SendOutcome)
  datatype RecvCall = RecvCall(dontWait: bool, outcome: RecvOutcome)

  class Socket {
    var queue: seq<WireFrame>     // written and not yet received
    var receiving: bool           // the last frame received announced more
    ghost var sends: seq<SendCall>  // every send call so far
    ghost var recvs: seq<RecvCall>  // every receive call so far

    ghost predicate Valid()
      reads this
    {
      receiving ==> HasMessage(queue)
    }

    constructor ()
      ensures Valid() && queue == [] && !receiving && sends == [] && recvs == []
    {
      queue, receiving, sends, recvs := [], false, [], [];
    }

    method Send(data: Bytes, flags: Flags) returns (r: SendOutcome)
      requires Valid()
      modifies this
      ensures Valid() && receiving == old(receiving)
      ensures queue == if r.Sent? then old(queue) + [WireFrame(data, flags.sndMore)] else old(queue)
      ensures r.SendAgain? ==> !MidMessage(old(queue))
      ensures sends == old(sends) + [SendCall(WireFrame(data, flags.sndMore), flags.dontWait, r)]
      ensures recvs == old(recvs)
    {
      ghost var frame := WireFrame(data, flags.sndMore);
      if * {
        sends := sends + [SendCall(frame, flags.dontWait, SendError)];
        return SendError;
      }
      if !MidMessage(queue) {
        if * {
          sends := sends + [SendCall(frame, flags.dontWait, SendAgain)];
          return SendAgain;
        }
      }
      sends := sends + [SendCall(frame, flags.dontWait, Sent)];
      ghost var before := queue;
      queue := queue + [WireFrame(data, flags.sndMore)];
      assert HasMessage(before) ==> HasMessage(queue) by {
        if i :| 0 <= i < |before| && !before[i].more {
          assert queue[i] == before[i];
        }
      }
      return Sent;
    }

    method Recv(dontWait: bool) returns (r: RecvOutcome)
      requires Valid()
      modifies this
      ensures Valid()
      ensures r.Received? ==> HasMessage(old(queue)) && r.frame == old(queue)[0]
      ensures r.Received? ==> queue == old(queue)[1..] && receiving == r.frame.more
      ensures !r.Received? ==> queue == old(queue) && receiving == old(receiving)
      ensures r.RecvAgain? ==> !old(receiving)
      ensures recvs == old(recvs) + [RecvCall(dontWait, r)] && sends == old(sends)
    {
      if * {
        recvs := recvs + [RecvCall(dontWait, RecvError)];
        return RecvError;
      }
      if !receiving {
        if * {
          recvs := recvs + [RecvCall(dontWait, RecvAgain)];
          return RecvAgain;
        }
        if !HasMessage(queue) {
          recvs := recvs + [RecvCall(dontWait, RecvAgain)];
          return RecvAgain;
        }
      }
      r := Received(queue[0]);
      recvs := recvs + [RecvCall(dontWait, r)];
      ghost var before := queue;
      queue, receiving := queue[1..], queue[0].more;
      assert receiving ==> HasMessage(queue) by {
        if receiving {
          var i :| 0 <= i < |before| && !before[i].more;
          assert queue[i - 1] == before[i];
        }
      }
    }
  }

  // ----- Sending -----

  /** `Threw(sent)`: the socket's exception, after `sent` frames went out. */
  datatype SendResult = SendCount(n: nat) | SendRefused | SendThrew(sent: nat)

  /**
   A send loop does what the socket's answers say: it asks for the frames of the list in order, with the
   caller's DONTWAIT, as long as they are sent; the first other answer ends it, and is its result.
   */
  ghost predicate SendFollows(msgs: seq<Bytes>, flags: Flags, calls: seq<SendCall>, r: SendResult) {
    && |calls| <= |msgs|
    && (forall i | 0 <= i < |calls| ::
          calls[i].frame == Frames(msgs, flags.sndMore)[i] && calls[i].dontWait == flags.dontWait)
    && (forall i | 0 <= i < |calls| - 1 :: calls[i].outcome.Sent?)
    && (r.SendCount? <==> |calls| == |msgs| && (calls != [] ==> calls[|calls| - 1].outcome.Sent?))
    && (r.SendRefused? <==> calls != [] && calls[|calls| - 1].outcome.SendAgain?)
    && (r.SendThrew? <==> calls != [] && calls[|calls| - 1].outcome.SendError?)
    && (r.SendThrew? ==> r.sent == |calls| - 1)
  }

  /** The first calls of the loop, all of them sent. */
  ghost predicate AllSent(msgs: seq<Bytes>, flags: Flags, calls: seq<SendCall>) {
    && |calls| <= |msgs|
    && forall i | 0 <= i < |calls| :: calls[i] == SendCall(Frames(msgs, flags.sndMore)[i], flags.dontWait, Sent)
  }

  /** How one more call continues the loop, or ends it and determines its result. */
  lemma OneMoreSend(msgs: seq<Bytes>, flags: Flags, calls: seq<SendCall>, outcome: SendOutcome)
    requires AllSent(msgs, flags, calls) && |calls| < |msgs|
    ensures
      var all := calls + [SendCall(Frames(msgs, flags.sndMore)[|calls|], flags.dontWait, outcome)];
      match outcome
      case Sent => AllSent(msgs, flags, all)
      case SendAgain => SendFollows(msgs, flags, all, SendRefused)
      case SendError => SendFollows(msgs, flags, all, SendThrew(|calls|))
  {
  }

  lemma EverySent(msgs: seq<Bytes>, flags: Flags, calls: seq<SendCall>)
    requires AllSent(msgs, flags, calls) && |calls| == |msgs|
    ensures SendFollows(msgs, flags, calls, SendCount(|msgs|))
  {
  }

  /** One send, in terms of the frames of the whole list and the `n` of them that went out before. */
  method SendNext(s: Socket, ghost q: seq<WireFrame>, ghost fs: seq<WireFrame>, ghost n: nat,
                  data: Bytes, flags: Flags) returns (sent: SendOutcome)
    requires s.Valid() && n < |fs| && s.queue == q + fs[..n]
    requires fs[n] == WireFrame(data, flags.sndMore) && (n > 0 ==> fs[n - 1].more)
    modifies s
    ensures s.Valid() && s.receiving == old(s.receiving)
    ensures s.queue == q + fs[..if sent.Sent? then n + 1 else n]
    ensures sent.SendAgain? ==> n == 0 && !MidMessage(q) && s.queue == q
    ensures s.sends == old(s.sends) + [SendCall(fs[n], flags.dontWait, sent)] && s.recvs == old(s.recvs)
  {
    assert fs[..n + 1] == fs[..n] + [fs[n]];
    assert n == 0 ==> q + fs[..n] == q;
    assert n > 0 ==> (q + fs[..n])[|q| + n - 1] == fs[n - 1];
    sent := s.Send(data, flags);
  }

  lemma FramesPrefix(msgs: seq<Bytes>, open: bool, n: nat)
    requires n <= |msgs|
    ensures n < |msgs| ==> Frames(msgs, open)[..n] == Frames(msgs[..n], true)
    ensures n == |msgs| ==> Frames(msgs, open)[..n] == Frames(msgs, open)
  {
  }

  method SendMultipart(s: Socket, msgs: seq<Bytes>, flags: Flags)
    returns (r: SendResult, ghost calls: seq<SendCall>)
    requires s.Valid()
    modifies s
    ensures s.Valid() && s.receiving == old(s.receiving)
    ensures r.SendCount? ==> r.n == |msgs| && s.queue == old(s.queue) + Frames(msgs, flags.sndMore)
    ensures r.SendRefused? ==> msgs != [] && !MidMessage(old(s.queue)) && s.queue == old(s.queue)
    ensures r.SendThrew? ==> r.sent < |msgs| && s.queue == old(s.queue) + Frames(msgs[..r.sent], true)
    ensures s.sends == old(s.sends) + calls && SendFollows(msgs, flags, calls, r)
    ensures r.SendRefused? ==> |calls| == 1
    ensures s.recvs == old(s.recvs)
  {
    var it, count := 0, 0;
    calls := [];
    ghost var fs := Frames(msgs, flags.sndMore);
    while it != |msgs|
      invariant 0 <= it <= |msgs| && count == it
      invariant s.Valid() && s.receiving == old(s.receiving)
      invariant s.queue == old(s.queue) + fs[..it]
      invariant s.sends == old(s.sends) + calls && s.recvs == old(s.recvs)
      invariant |calls| == it && AllSent(msgs, flags, calls)
      decreases |msgs| - it
    {
      var next := it + 1;
      var msgFlags := flags.Or(if next == |msgs| then NO_FLAGS else SNDMORE);
      var sent := SendNext(s, old(s.queue), fs, it, msgs[it], msgFlags);
      FramesPrefix(msgs, flags.sndMore, it);
      OneMoreSend(msgs, flags, calls, sent);
      calls := calls + [SendCall(fs[it], msgFlags.dontWait, sent)];
      if sent.SendError? {
        return SendThrew(it), calls;
      }
      if sent.SendAgain? {
        assert it == 0;  // the assertion of the source: atomic delivery
        return SendRefused, calls;
      }
      count := count + 1;
      it := next;
    }
    FramesPrefix(msgs, flags.sndMore, it);
    EverySent(msgs, flags, calls);
    return SendCount(count), calls;
  }

  // ----- Receiving -----

  datatype RecvResult = RecvCount(n: nat) | RecvRefused | TooManyParts | RecvThrew

  /** After some frames of the head message of `q` were taken: what was written, what is left. */
  ghost predicate TookPrefix(q: seq<WireFrame>, written: seq<Bytes>, rest: seq<WireFrame>) {
    && (written != [] ==> HasMessage(q) && |written| < |HeadMessage(q)|)
    && (written != [] ==> written == HeadMessage(q)[..|written|])
    && |written| <= |q| && rest == q[|written|..]
  }

  /**
   A receive loop does what the socket's answers say: it asks, with the caller's DONTWAIT, as long as
   frames come that announce more and the bound leaves room; what it writes is what came.
   */
  ghost predicate RecvFollows(checkN: bool, limit: nat, dontWait: bool, calls: seq<RecvCall>,
                              r: RecvResult, written: seq<Bytes>) {
    && (checkN ==> |calls| <= limit)
    && (forall i | 0 <= i < |calls| :: calls[i].dontWait == dontWait)
    && (forall i | 0 <= i < |calls| - 1 :: calls[i].outcome.Received? && calls[i].outcome.frame.more)
    && |written| == (if calls == [] || calls[|calls| - 1].outcome.Received? then |calls| else |calls| - 1)
    && (forall i | 0 <= i < |written| ::
          calls[i].outcome.Received? && written[i] == calls[i].outcome.frame.data)
    && (r.RecvCount? <==>
          calls != [] && calls[|calls| - 1].outcome.Received? && !calls[|calls| - 1].outcome.frame.more)
    && (r.RecvRefused? <==> calls != [] && calls[|calls| - 1].outcome.RecvAgain?)
    && (r.RecvThrew? <==> calls != [] && calls[|calls| - 1].outcome.RecvError?)
    && (r.TooManyParts? ==> checkN && |calls| == limit)
    && (r.RecvCount? ==> r.n == |calls|)
  }

  /** The frames received are those at the front of the queue, and come only when a whole message is there. */
  ghost predicate RecvTakes(q: seq<WireFrame>, calls: seq<RecvCall>) {
    && (calls != [] && calls[0].outcome.Received? ==> HasMessage(q))
    && forall i | 0 <= i < |calls| && calls[i].outcome.Received? :: i < |q| && calls[i].outcome.frame == q[i]
  }

  /** So far every call received the next frame of `q`, and it announced more. */
  ghost predicate AllMore(q: seq<WireFrame>, dontWait: bool, calls: seq<RecvCall>, written: seq<Bytes>) {
    && |calls| == |written| <= |q| && (calls != [] ==> HasMessage(q))
    && forall i | 0 <= i < |calls| ::
         calls[i] == RecvCall(dontWait, Received(q[i])) && q[i] == WireFrame(written[i], true)
  }

  /** How one more call continues the loop, or ends it and determines its result. */
  lemma OneMoreCall(q: seq<WireFrame>, checkN: bool, limit: nat, dontWait: bool, calls: seq<RecvCall>,
                    written: seq<Bytes>, got: RecvOutcome)
    requires AllMore(q, dontWait, calls, written) && (checkN ==> |calls| < limit)
    requires got.Received? ==> |calls| < |q| && got.frame == q[|calls|] && (calls == [] ==> HasMessage(q))
    ensures
      var all := calls + [RecvCall(dontWait, got)];
      && RecvTakes(q, all)
      && match got
         case RecvError => RecvFollows(checkN, limit, dontWait, all, RecvThrew, written)
         case RecvAgain => RecvFollows(checkN, limit, dontWait, all, RecvRefused, written)
         case Received(f) =>
           if f.more then AllMore(q, dontWait, all, written + [f.data])
           else RecvFollows(checkN, limit, dontWait, all, RecvCount(|all|), written + [f.data])
  {
  }

  lemma BoundReached(q: seq<WireFrame>, limit: nat, dontWait: bool, calls: seq<RecvCall>, written: seq<Bytes>)
    requires AllMore(q, dontWait, calls, written) && |calls| == limit
    ensures RecvFollows(true, limit, dontWait, calls, TooManyParts, written) && RecvTakes(q, calls)
  {
  }

  /** One receive, in terms of the queue `q` that the loop started with and the `n` frames taken since. */
  method RecvNext(s: Socket, ghost q: seq<WireFrame>, ghost n: nat, dontWait: bool) returns (got: RecvOutcome)
    requires s.Valid() && n <= |q| && s.queue == q[n..]
    modifies s
    ensures s.Valid()
    ensures got.Received? ==> n < |q| && got.frame == q[n] && s.queue == q[n + 1..] && s.receiving == got.frame.more
    ensures got.Received? && n == 0 ==> HasMessage(q)
    ensures !got.Received? ==> s.queue == q[n..] && s.receiving == old(s.receiving)
    ensures got.RecvAgain? ==> !old(s.receiving)
    ensures s.recvs == old(s.recvs) + [RecvCall(dontWait, got)] && s.sends == old(s.sends)
  {
    assert n == 0 ==> q[n..] == q;
    got := s.Recv(dontWait);
  }

  /** The receive loop itself; `written` is what went through the output iterator. */
  method RecvFrames(s: Socket, checkN: bool, limit: nat, dontWait: bool)
    returns (r: RecvResult, written: seq<Bytes>, ghost calls: seq<RecvCall>)
    requires s.Valid()
    modifies s
    ensures s.Valid() && |written| <= |old(s.queue)| && s.queue == old(s.queue)[|written|..]
    ensures s.receiving == if r.RecvCount? then false else written != [] || old(s.receiving)
    ensures r.RecvRefused? ==> |calls| == 1 && !old(s.receiving)
    ensures checkN && limit == 0 ==> r.TooManyParts?
    ensures s.recvs == old(s.recvs) + calls && s.sends == old(s.sends)
    ensures RecvFollows(checkN, limit, dontWait, calls, r, written)
    ensures RecvTakes(old(s.queue), calls)
  {
    var count := 0;
    calls := [];
    written := [];
    ghost var q := s.queue;
    while true
      invariant s.Valid() && count == |written| <= |q| && s.queue == q[count..]
      invariant s.receiving == (count > 0 || old(s.receiving))
      invariant checkN ==> count <= limit
      invariant s.recvs == old(s.recvs) + calls && s.sends == old(s.sends)
      invariant AllMore(q, dontWait, calls, written)
      decreases |q| - count
    {
      if checkN && count >= limit {
        BoundReached(q, limit, dontWait, calls, written);
        return TooManyParts, written, calls;
      }
      var got := RecvNext(s, q, count, dontWait);
      OneMoreCall(q, checkN, limit, dontWait, calls, written, got);
      calls := calls + [RecvCall(dontWait, got)];
      if got.RecvError? {
        return RecvThrew, written, calls;
      }
      if got.RecvAgain? {
        assert count == 0;  // the assertion of the source: atomic delivery
        return RecvRefused, written, calls;
      }
      count := count + 1;
      written := written + [got.frame.data];
      if !got.frame.more {
        break;
      }
    }
    return RecvCount(count), written, calls;
  }

  /** What the loop's frames are in terms of messages: the head message, or a proper part of it. */
  lemma RecvMeans(q: seq<WireFrame>, checkN: bool, limit: nat, dontWait: bool, calls: seq<RecvCall>,
                  r: RecvResult, written: seq<Bytes>)
    requires RecvFollows(checkN, limit, dontWait, calls, r, written) && RecvTakes(q, calls)
    requires |written| <= |q| && (!r.RecvCount? && written != [] ==> HasMessage(q[|written|..]))
    ensures r.RecvCount? ==> HasMessage(q) && written == HeadMessage(q)
    ensures !r.RecvCount? ==> TookPrefix(q, written, q[|written|..])
    ensures checkN ==> |written| <= limit && (r.RecvThrew? ==> |written| < limit)
    ensures r.TooManyParts? ==> checkN && |written| == limit
  {
    if r.RecvCount? {
      TookMessage(q, written);
    } else {
      TookFrames(q, written);
    }
  }

  /**
   The receive behind both entry points; `limit` is used only when `checkN`. What it wrote is the head
   message, or as much of it as was taken when the loop gave up.
   */
  method RecvMultipartLoop(s: Socket, checkN: bool, limit: nat, dontWait: bool)
    returns (r: RecvResult, written: seq<Bytes>, ghost calls: seq<RecvCall>)
    requires s.Valid()
    modifies s
    ensures s.Valid()
    ensures r.RecvCount? ==>
      && HasMessage(old(s.queue)) && written == HeadMessage(old(s.queue)) && r.n == |written|
      && s.queue == old(s.queue)[|written|..] && !s.receiving
      && (checkN ==> |written| <= limit)
    ensures !r.RecvCount? ==> TookPrefix(old(s.queue), written, s.queue)
    ensures !r.RecvCount? ==> s.receiving == (written != [] || old(s.receiving))
    ensures r.RecvRefused? ==> written == [] && !old(s.receiving)
    ensures r.TooManyParts? ==> checkN && |written| == limit
    ensures r.RecvThrew? && checkN ==> |written| < limit
    ensures checkN && limit == 0 ==> r.TooManyParts?
    ensures s.recvs == old(s.recvs) + calls && s.sends == old(s.sends)
    ensures RecvFollows(checkN, limit, dontWait, calls, r, written)
    ensures RecvTakes(old(s.queue), calls)
  {
    r, written, calls := RecvFrames(s, checkN, limit, dontWait);
    RecvMeans(old(s.queue), checkN, limit, dontWait, calls, r, written);
  }

  /** Frames taken that all announce more are a proper part of the head message. */
  lemma TookFrames(q: seq<WireFrame>, written: seq<Bytes>)
    requires |written| <= |q| && (written != [] ==> HasMessage(q[|written|..]))
    requires forall i | 0 <= i < |written| :: q[i] == WireFrame(written[i], true)
    ensures TookPrefix(q, written, q[|written|..])
  {
    if written != [] {
      var n := |written|;
      var i :| 0 <= i < |q[n..]| && !q[n..][i].more;
      assert !q[n + i].more;
      HeadMessageIsFront(q);
      var m := HeadMessage(q);
      assert forall k | 0 <= k < |m| :: q[k] == q[..|m|][k];
      assert !q[|m| - 1].more;
      assert written == m[..n];
    }
  }

  /** Frames taken up to one that announces no more are the head message. */
  lemma TookMessage(q: seq<WireFrame>, written: seq<Bytes>)
    requires 0 < |written| <= |q|
    requires forall i | 0 <= i < |written| :: q[i] == WireFrame(written[i], i + 1 < |written|)
    ensures HasMessage(q) && HeadMessage(q) == written
  {
    assert Frames(written, false) == q[..|written|];
    HeadMessageUnique(q, written);
  }

  method RecvMultipart(s: Socket, dontWait: bool)
    returns (r: RecvResult, written: seq<Bytes>, ghost calls: seq<RecvCall>)
    requires s.Valid()
    modifies s
    ensures s.Valid() && !r.TooManyParts?
    ensures r.RecvCount? ==>
      && HasMessage(old(s.queue)) && written == HeadMessage(old(s.queue)) && r.n == |written|
      && s.queue == old(s.queue)[|written|..] && !s.receiving
    ensures !r.RecvCount? ==> TookPrefix(old(s.queue), written, s.queue)
    ensures !r.RecvCount? ==> s.receiving == (written != [] || old(s.receiving))
    ensures r.RecvRefused? ==> written == [] && !old(s.receiving)
    ensures s.recvs == old(s.recvs) + calls && s.sends == old(s.sends)
    ensures RecvFollows(false, 0, dontWait, calls, r, written)
    ensures RecvTakes(old(s.queue), calls)
  {
    r, written, calls := RecvMultipartLoop(s, false, 0, dontWait);
  }

  /**
   The bounded receive. It returns the count exactly when the message fits; with too many parts it has
   written the first `n` of them, and the message the queue then starts with is exactly the remainder.
   */
  method RecvMultipartN(s: Socket, n: nat, dontWait: bool)
    returns (r: RecvResult, written: seq<Bytes>, ghost calls: seq<RecvCall>)
    requires s.Valid()
    modifies s
    ensures s.Valid()
    ensures n == 0 ==> r.TooManyParts? && written == [] && s.queue == old(s.queue)
    ensures r.RecvCount? ==>
      && HasMessage(old(s.queue)) && written == HeadMessage(old(s.queue)) && r.n == |written| <= n
      && s.queue == old(s.queue)[|written|..] && !s.receiving
    ensures r.TooManyParts? && n > 0 ==>
      && HasMessage(old(s.queue)) && n < |HeadMessage(old(s.queue))|
      && written == HeadMessage(old(s.queue))[..n] && s.queue == old(s.queue)[n..] && s.receiving
      && HasMessage(s.queue) && HeadMessage(s.queue) == HeadMessage(old(s.queue))[n..]
    ensures r.RecvRefused? ==> n > 0 && written == [] && s.queue == old(s.queue) && !old(s.receiving)
    ensures r.RecvThrew? ==> |written| < n && TookPrefix(old(s.queue), written, s.queue)
    ensures s.recvs == old(s.recvs) + calls && s.sends == old(s.sends)
    ensures RecvFollows(true, n, dontWait, calls, r, written)
    ensures RecvTakes(old(s.queue), calls)
  {
    r, written, calls := RecvMultipartLoop(s, true, n, dontWait);
    if r.TooManyParts? && n > 0 {
      HeadMessageRest(old(s.queue), n);
    }
  }

  lemma HeadInTwo(q: seq<WireFrame>, n: nat)
    requires HasMessage(q) && n < |HeadMessage(q)|
    ensures
      var m := HeadMessage(q);
      m[..n] + m[n..] == m && q[n..][|m| - n..] == q[|m|..]
  {
  }

  /** After a bounded receive gave up, an unbounded one delivers exactly the parts that were left. */
  method RecvRemainder(s: Socket, n: nat, dontWait: bool)
    returns (bounded: RecvResult, first: seq<Bytes>, r: RecvResult, second: seq<Bytes>,
             ghost calls: seq<RecvCall>, ghost others: seq<RecvCall>)
    requires s.Valid() && n > 0
    modifies s
    ensures s.Valid()
    ensures r.RecvCount? ==>
      && HasMessage(old(s.queue)) && first + second == HeadMessage(old(s.queue))
      && s.queue == old(s.queue)[|first + second|..] && !s.receiving
    ensures r.RecvRefused? ==> first == []
    ensures s.recvs == old(s.recvs) + calls + others && RecvFollows(true, n, dontWait, calls, bounded, first)
    ensures if bounded.TooManyParts? then RecvFollows(false, 0, dontWait, others, r, second)
            else r == bounded && second == [] && others == []
  {
    bounded, first, calls := RecvMultipartN(s, n, dontWait);
    if !bounded.TooManyParts? {
      r, second, others := bounded, [], [];
      assert first + second == first;
    } else {
      HeadInTwo(old(s.queue), n);
      r, second, others := RecvMultipart(s, dontWait);
    }
  }

  /**
   A message sent in two calls, the first with SNDMORE, arrives as one. The second call cannot be refused
   once the first has sent something.
   */
  method SendInTwo(s: Socket, a: seq<Bytes>, b: seq<Bytes>, dontWait: bool)
    returns (first: SendResult, second: SendResult, r: RecvResult, written: seq<Bytes>,
             ghost calls: seq<SendCall>, ghost others: seq<SendCall>, ghost answers: seq<RecvCall>)
    requires s.Valid() && s.queue == [] && b != []
    modifies s
    ensures s.Valid()
    ensures first.SendCount? && a != [] ==> !second.SendRefused?
    ensures first.SendCount? && second.SendCount? && r.RecvCount? ==> written == a + b && s.queue == []
    ensures first.SendCount? && second.SendCount? ==> !r.TooManyParts? && written <= a + b
    ensures s.sends == old(s.sends) + calls + others && SendFollows(a, Flags(dontWait, true), calls, first)
    ensures if first.SendCount? then SendFollows(b, Flags(dontWait, false), others, second) else others == []
    ensures s.recvs == old(s.recvs) + answers
    ensures if first.SendCount? && second.SendCount? then RecvFollows(false, 0, dontWait, answers, r, written)
            else answers == []
  {
    var own := Flags(dontWait, false);
    first, calls := SendMultipart(s, a, own.Or(SNDMORE));
    second, r, written, others, answers := SendRefused, RecvRefused, [], [], [];
    if first.SendCount? {
      second, others := SendMultipart(s, b, own);
      if second.SendCount? {
        SplitSendsReceived(a, b, []);
        assert s.queue == Frames(a, true) + Frames(b, false) + [];
        r, written, answers := RecvMultipart(s, dontWait);
      }
    }
  }
}
