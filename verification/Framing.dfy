/** Messages on the wire: a message is a run of frames in which every frame but the last announces more. */
module Framing {
  import opened NetworkOrder
  import opened Sequences

  datatype WireFrame = WireFrame(data: Bytes, more: bool)

  /**
   What one call of a sending or receiving loop puts on or takes off the wire: some parts, and whether
   the last of them left the message open.
   */
  datatype Chunk = Chunk(parts: seq<Bytes>, open: bool)

  function Frames(parts: seq<Bytes>, open: bool): (fs: seq<WireFrame>)
    ensures |fs| == |parts|
    ensures forall i | 0 <= i < |parts| :: fs[i] == WireFrame(parts[i], i + 1 < |parts| || open)
  {
    seq(|parts|, i requires 0 <= i < |parts| => WireFrame(parts[i], i + 1 < |parts| || open))
  }

  /** All frames of some chunks, in order. */
  function Wire(chunks: seq<Chunk>): seq<WireFrame> {
    if chunks == [] then []
    else Wire(chunks[..|chunks| - 1]) + Frames(chunks[|chunks| - 1].parts, chunks[|chunks| - 1].open)
  }

  /** The last frame written announced more: the sender is inside a message. */
  predicate MidMessage(q: seq<WireFrame>) { q != [] && q[|q| - 1].more }

  /** The end of a message is among the frames. */
  predicate HasMessage(q: seq<WireFrame>) { exists i | 0 <= i < |q| :: !q[i].more }

  /** The parts of `q` up to and including the first frame that announces no more. */
  function HeadMessage(q: seq<WireFrame>): (m: seq<Bytes>)
    requires HasMessage(q)
    ensures 0 < |m| <= |q|
  {
    if q[0].more then
      assert HasMessage(q[1..]);
      [q[0].data] + HeadMessage(q[1..])
    else [q[0].data]
  }

  /** Complete messages, and the parts of the message that is still open. */
  datatype Assembly = Assembly(messages: seq<seq<Bytes>>, pending: seq<Bytes>)

  /** What a reader of the frames sees; the frames are taken in arrival order. */
  function Assemble(q: seq<WireFrame>): Assembly {
    if q == [] then Assembly([], []) else Receive(Assemble(q[..|q| - 1]), q[|q| - 1])
  }

  function Receive(a: Assembly, f: WireFrame): Assembly {
    if f.more then Assembly(a.messages, a.pending + [f.data])
    else Assembly(a.messages + [a.pending + [f.data]], [])
  }

  // ----- The head message -----

  /** The head message, re-framed, is exactly the front of the queue, and nothing shorter ends there. */
  lemma {:induction false} HeadMessageIsFront(q: seq<WireFrame>)
    requires HasMessage(q)
    ensures Frames(HeadMessage(q), false) == q[..|HeadMessage(q)|]
  {
    if q[0].more {
      assert HasMessage(q[1..]);
      HeadMessageIsFront(q[1..]);
      var m := HeadMessage(q[1..]);
      assert HeadMessage(q) == [q[0].data] + m;
      assert q[..|m| + 1] == [q[0]] + q[1..][..|m|];
    }
  }

  /** The head message is the only cut at which the front re-frames as one closed message. */
  lemma {:induction false} HeadMessageUnique(q: seq<WireFrame>, m: seq<Bytes>)
    requires m != [] && |m| <= |q| && Frames(m, false) == q[..|m|]
    ensures HasMessage(q) && HeadMessage(q) == m
  {
    var last := |m| - 1;
    assert forall i | 0 <= i <= last :: q[i] == q[..|m|][i] && q[i].more == (i < last);
    assert !q[last].more;
    HeadMessageIsFront(q);
    var h := HeadMessage(q);
    var k := |h| - 1;
    assert forall i | 0 <= i <= k :: q[i] == q[..|h|][i] && q[i].more == (i < k);
    assert !q[k].more;
    assert !(k < last) && !(last < k);
    assert forall i | 0 <= i < |m| :: h[i] == q[i].data == m[i];
  }

  /** Taking some frames of a message off the queue leaves the rest of that message in front. */
  lemma HeadMessageRest(q: seq<WireFrame>, n: nat)
    requires HasMessage(q) && n < |HeadMessage(q)|
    ensures HasMessage(q[n..]) && HeadMessage(q[n..]) == HeadMessage(q)[n..]
  {
    HeadMessageIsFront(q);
    var m := HeadMessage(q);
    assert Frames(m[n..], false) == q[n..][..|m| - n];
    HeadMessageUnique(q[n..], m[n..]);
  }

  // ----- Frames of consecutive calls -----

  /** Sending `a` with the message left open and then `b` is sending `a + b` at once. */
  lemma SplitSendsJoin(a: seq<Bytes>, b: seq<Bytes>, open: bool)
    requires b != []
    ensures Frames(a, true) + Frames(b, open) == Frames(a + b, open)
  {
  }

  /** The receiver sees the two sends as one message, whatever follows them. */
  lemma SplitSendsReceived(a: seq<Bytes>, b: seq<Bytes>, q: seq<WireFrame>)
    requires b != []
    ensures
      var wire := Frames(a, true) + Frames(b, false) + q;
      HasMessage(wire) && HeadMessage(wire) == a + b && wire[|a + b|..] == q
  {
    SplitSendsJoin(a, b, false);
    var wire := Frames(a, true) + Frames(b, false) + q;
    assert Frames(a + b, false) == wire[..|a + b|];
    HeadMessageUnique(wire, a + b);
  }

  /** Behind any other frames, the two sends add one message: what was pending there, then both lists. */
  lemma SplitSendsAssemble(p: seq<WireFrame>, a: seq<Bytes>, b: seq<Bytes>)
    requires b != []
    ensures Assemble(p + Frames(a, true) + Frames(b, false))
            == Assembly(Assemble(p).messages + [Assemble(p).pending + a + b], [])
  {
    AssembleOpen(p, a);
    AssembleClosed(p + Frames(a, true), b);
  }

  lemma FramesSnoc(parts: seq<Bytes>, i: nat, open: bool)
    requires i < |parts|
    ensures Frames(parts[..i], true) + [WireFrame(parts[i], open)] == Frames(parts[..i + 1], open)
  {
  }

  // ----- Assembling -----

  lemma AssembleSnoc(q: seq<WireFrame>, f: WireFrame)
    ensures Assemble(q + [f]) == Receive(Assemble(q), f)
  {
    assert (q + [f])[..|q|] == q;
  }

  /** Messages once seen stay: more frames only add messages behind them. */
  lemma {:induction false} AssembleMonotonic(p: seq<WireFrame>, q: seq<WireFrame>)
    ensures Assemble(p).messages <= Assemble(p + q).messages
  {
    if q == [] {
      assert p + q == p;
    } else {
      var front, last := q[..|q| - 1], q[|q| - 1];
      AssembleMonotonic(p, front);
      AssembleSnoc(p + front, last);
      assert p + q == (p + front) + [last];
    }
  }

  lemma FramesLast(p: seq<WireFrame>, parts: seq<Bytes>, open: bool)
    requires parts != []
    ensures
      var n := |parts| - 1;
      p + Frames(parts, open) == (p + Frames(parts[..n], true)) + [WireFrame(parts[n], open)]
  {
    var n := |parts| - 1;
    FramesSnoc(parts, n, open);
    assert parts[..n + 1] == parts;
  }

  lemma PendingSnoc(pending: seq<Bytes>, parts: seq<Bytes>)
    requires parts != []
    ensures (pending + parts[..|parts| - 1]) + [parts[|parts| - 1]] == pending + parts
  {
  }

  /** Frames that keep the message open only lengthen its pending parts. */
  lemma {:induction false} AssembleOpen(p: seq<WireFrame>, parts: seq<Bytes>)
    ensures Assemble(p + Frames(parts, true)) == Assembly(Assemble(p).messages, Assemble(p).pending + parts)
  {
    if parts == [] {
      assert p + Frames(parts, true) == p;
    } else {
      var n := |parts| - 1;
      AssembleOpen(p, parts[..n]);
      FramesLast(p, parts, true);
      AssembleSnoc(p + Frames(parts[..n], true), WireFrame(parts[n], true));
      PendingSnoc(Assemble(p).pending, parts);
    }
  }

  /** A closed, non-empty chunk completes one message: the pending parts and then its own. */
  lemma AssembleClosed(p: seq<WireFrame>, parts: seq<Bytes>)
    requires parts != []
    ensures Assemble(p + Frames(parts, false))
            == Assembly(Assemble(p).messages + [Assemble(p).pending + parts], [])
  {
    var n := |parts| - 1;
    AssembleOpen(p, parts[..n]);
    FramesLast(p, parts, false);
    AssembleSnoc(p + Frames(parts[..n], true), WireFrame(parts[n], false));
    PendingSnoc(Assemble(p).pending, parts);
  }

  /** No call stopped inside a message: each sent or received a whole one, or nothing at all. */
  ghost predicate WholeMessages(chunks: seq<Chunk>) {
    forall i | 0 <= i < |chunks| :: chunks[i].parts == [] || !chunks[i].open
  }

  /** The messages of such calls, in order. */
  function Messages(chunks: seq<Chunk>): seq<seq<Bytes>> {
    if chunks == [] then []
    else Messages(chunks[..|chunks| - 1]) + Message(chunks[|chunks| - 1])
  }

  function Message(c: Chunk): seq<seq<Bytes>> { if c.parts == [] then [] else [c.parts] }

  /** Framing loses nothing: whole messages put on the wire are assembled again, with their boundaries. */
  lemma {:induction false} AssembleWire(chunks: seq<Chunk>)
    requires WholeMessages(chunks)
    ensures Assemble(Wire(chunks)) == Assembly(Messages(chunks), [])
  {
    if chunks != [] {
      var n := |chunks| - 1;
      var front, last := Wire(chunks[..n]), chunks[n];
      AssembleWire(chunks[..n]);
      if last.parts == [] {
        assert front + Frames([], last.open) == front;
      } else {
        AssembleClosed(front, last.parts);
        EmptyPending(last.parts);
      }
    }
  }

  lemma EmptyPending(parts: seq<Bytes>)
    ensures [] + parts == parts
  {
  }

  /** Whole messages in front of any frames are seen first; the frames behind them are seen as if alone. */
  lemma {:induction false} AssembleBehind(chunks: seq<Chunk>, q: seq<WireFrame>)
    requires WholeMessages(chunks)
    ensures Assemble(Wire(chunks) + q) == Behind(Messages(chunks), Assemble(q))
  {
    AssembleWire(chunks);
    if q == [] {
      assert Wire(chunks) + q == Wire(chunks);
    } else {
      var front, last := q[..|q| - 1], q[|q| - 1];
      AssembleBehind(chunks, front);
      AssembleSnoc(Wire(chunks) + front, last);
      SplitLast(Wire(chunks), q);
      ReceiveBehind(Messages(chunks), Assemble(front), last);
    }
  }

  function Behind(ms: seq<seq<Bytes>>, a: Assembly): Assembly {
    Assembly(ms + a.messages, a.pending)
  }

  lemma ReceiveBehind(ms: seq<seq<Bytes>>, a: Assembly, f: WireFrame)
    ensures Receive(Behind(ms, a), f) == Behind(ms, Receive(a, f))
  {
  }

  // ----- The queue's predicates in terms of what a reader assembles -----

  /** A message is open at the end of the frames exactly when a reader has parts of one pending. */
  lemma MidMessageIsPending(q: seq<WireFrame>)
    ensures MidMessage(q) <==> Assemble(q).pending != []
  {
  }

  /** The head message is the first that a reader assembles. */
  lemma HeadMessageAssembles(q: seq<WireFrame>)
    requires HasMessage(q)
    ensures Assemble(q).messages != [] && HeadMessage(q) == Assemble(q).messages[0]
  {
    HeadMessageIsFront(q);
    var m := HeadMessage(q);
    assert q == q[..|m|] + q[|m|..] && [] + q[..|m|] == q[..|m|];
    AssembleClosed([], m);
    EmptyPending(m);
    AssembleMonotonic(q[..|m|], q[|m|..]);
  }

  /** A message is there exactly when a reader assembles one. */
  lemma HasMessageAssembles(q: seq<WireFrame>)
    ensures HasMessage(q) <==> Assemble(q).messages != []
  {
    if HasMessage(q) {
      HeadMessageAssembles(q);
    } else {
      NoMessageAssembles(q);
    }
  }

  lemma {:induction false} NoMessageAssembles(q: seq<WireFrame>)
    requires !HasMessage(q)
    ensures Assemble(q).messages == []
  {
    if q != [] {
      var init := q[..|q| - 1];
      assert forall i | 0 <= i < |init| :: q[i] == init[i];
      NoMessageAssembles(init);
    }
  }
}
