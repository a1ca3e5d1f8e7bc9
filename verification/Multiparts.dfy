/** `multipart_t`: a deque of message parts, its transfer over a socket, and its use of the codec. */
module Multiparts {
  import opened NetworkOrder
  import opened Framing
  import opened SendFlags
  import opened Sockets
  import opened MultipartCodec
  import opened CodecLoops
  import opened Sequences

  datatype TransferResult = Done(success: bool) | Threw

  /** The outcomes of `recv` and `send` as those of the loops in module Sockets. */
  function AsReceived(r: TransferResult, n: nat): RecvResult {
    match r
    case Done(success) => if success then RecvCount(n) else RecvRefused
    case Threw => RecvThrew
  }

  function AsSent(r: TransferResult, n: nat): SendResult {
    match r
    case Done(success) => if success then SendCount(n) else SendRefused
    case Threw => SendThrew(n)
  }

  class Multipart {
    var parts: seq<Bytes>

    constructor ()
      ensures parts == []
    {
      parts := [];
    }

    method Clear()
      modifies this
      ensures parts == []
    {
      parts := [];
    }

    method Push(part: Bytes)
      modifies this
      ensures parts == [part] + old(parts)
    {
      parts := [part] + parts;
    }

    method Add(part: Bytes)
      modifies this
      ensures parts == old(parts) + [part]
    {
      parts := parts + [part];
    }

    method Pop() returns (part: Bytes)
      requires parts != []
      modifies this
      ensures old(parts) == [part] + parts
    {
      part := parts[0];
      parts := parts[1..];
    }

    method Remove() returns (part: Bytes)
      requires parts != []
      modifies this
      ensures old(parts) == parts + [part]
    {
      part := parts[|parts| - 1];
      parts := parts[..|parts| - 1];
    }

    // ----- Over a socket -----

    /** On "try again" or an exception the old contents are gone and the parts received so far stay. */
    method Recv(socket: Socket, dontWait: bool) returns (r: TransferResult, ghost calls: seq<RecvCall>)
      requires socket.Valid()
      modifies this, socket
      ensures socket.Valid()
      ensures r == Done(true) ==>
        && HasMessage(old(socket.queue)) && parts == HeadMessage(old(socket.queue))
        && socket.queue == old(socket.queue)[|parts|..] && !socket.receiving
      ensures r != Done(true) ==> TookPrefix(old(socket.queue), parts, socket.queue)
      ensures r == Done(false) ==> parts == [] && !old(socket.receiving)
      ensures socket.recvs == old(socket.recvs) + calls && socket.sends == old(socket.sends)
      ensures RecvFollows(false, 0, dontWait, calls, AsReceived(r, |parts|), parts)
      ensures RecvTakes(old(socket.queue), calls)
    {
      Clear();
      calls := [];
      ghost var q := socket.queue;
      var more := true;
      while more
        invariant socket.Valid() && |parts| <= |q| && socket.queue == q[|parts|..]
        invariant socket.receiving == (more && (parts != [] || old(socket.receiving)))
        invariant socket.recvs == old(socket.recvs) + calls && socket.sends == old(socket.sends)
        invariant more ==> AllMore(q, dontWait, calls, parts)
        invariant !more ==> RecvFollows(false, 0, dontWait, calls, RecvCount(|parts|), parts) && RecvTakes(q, calls)
        decreases more, |q| - |parts|
      {
        var got := RecvNext(socket, q, |parts|, dontWait);
        OneMoreCall(q, false, 0, dontWait, calls, parts, got);
        calls := calls + [RecvCall(dontWait, got)];
        if got.RecvError? {
          RecvMeans(q, false, 0, dontWait, calls, RecvThrew, parts);
          return Threw, calls;
        }
        if got.RecvAgain? {
          RecvMeans(q, false, 0, dontWait, calls, RecvRefused, parts);
          return Done(false), calls;
        }
        more := got.frame.more;
        Add(got.frame.data);
      }
      RecvMeans(q, false, 0, dontWait, calls, RecvCount(|parts|), parts);
      return Done(true), calls;
    }

    /**
     Sends the parts as one closed message, whatever the caller's SNDMORE says. The part handed to a
     failing send has already been popped: a refusal loses the front part and sends nothing.
     */
    method Send(socket: Socket, flags: Flags) returns (r: TransferResult, ghost calls: seq<SendCall>)
      requires socket.Valid()
      modifies this, socket
      ensures socket.Valid() && socket.receiving == old(socket.receiving)
      ensures r == Done(true) ==> parts == [] && socket.queue == old(socket.queue) + Frames(old(parts), false)
      ensures r == Done(false) ==>
        && old(parts) != [] && parts == old(parts)[1..]
        && socket.queue == old(socket.queue) && !MidMessage(old(socket.queue))
      ensures r.Threw? ==>
        && |parts| < |old(parts)|
        && var sent := |old(parts)| - |parts| - 1;
           parts == old(parts)[sent + 1..]
           && socket.queue == old(socket.queue) + Frames(old(parts)[..sent], true)
      ensures socket.sends == old(socket.sends) + calls && socket.recvs == old(socket.recvs)
      ensures SendFollows(old(parts), Flags(flags.dontWait, false), calls,
                          AsSent(r, if r.Threw? then |old(parts)| - |parts| - 1 else |old(parts)|))
    {
      ghost var all, i := parts, 0;
      ghost var fs := Frames(all, false);
      calls := [];
      var own := flags.WithoutMore();
      assert own == Flags(flags.dontWait, false);
      var more := |parts| > 0;
      while more
        invariant 0 <= i <= |all| && parts == all[i..] && (more <==> i < |all|)
        invariant socket.Valid() && socket.receiving == old(socket.receiving)
        invariant socket.queue == old(socket.queue) + fs[..i]
        invariant socket.sends == old(socket.sends) + calls && socket.recvs == old(socket.recvs)
        invariant |calls| == i && AllSent(all, own, calls)
        decreases |all| - i
      {
        var message := Pop();
        more := |parts| > 0;
        var messageFlags := (if more then SNDMORE else NO_FLAGS).Or(own);
        var sent := SendNext(socket, old(socket.queue), fs, i, message, messageFlags);
        FramesPrefix(all, false, i);
        OneMoreSend(all, own, calls, sent);
        calls := calls + [SendCall(fs[i], messageFlags.dontWait, sent)];
        if sent.SendError? {
          return Threw, calls;
        }
        if sent.SendAgain? {
          return Done(false), calls;
        }
        i := i + 1;
      }
      FramesPrefix(all, false, i);
      EverySent(all, own, calls);
      Clear();
      return Done(true), calls;
    }

    // ----- Concatenation, copy, comparison -----

    /** Moves the other's parts in front of this one's. An object cannot be prepended to itself. */
    method Prepend(other: Multipart)
      requires other != this
      modifies this, other
      ensures parts == old(other.parts) + old(parts) && other.parts == []
    {
      while other.parts != []
        invariant other.parts + parts == old(other.parts) + old(parts)
        decreases |other.parts|
      {
        ghost var before := parts;
        var last := other.Remove();
        Push(last);
        ConcatAssociates(other.parts, [last], before);
      }
      assert [] + parts == parts;
    }

    /** Moves the other's parts behind this one's. */
    method Append(other: Multipart)
      requires other != this
      modifies this, other
      ensures parts == old(parts) + old(other.parts) && other.parts == []
    {
      while other.parts != []
        invariant parts + other.parts == old(parts) + old(other.parts)
        decreases |other.parts|
      {
        ghost var before := parts;
        var first := other.Pop();
        Add(first);
        ConcatAssociates(before, [first], other.parts);
      }
      assert parts + [] == parts;
    }

    /** A copy in a new object: no later change of either shows in the other. */
    method Clone() returns (copy: Multipart)
      ensures fresh(copy) && copy.parts == parts
    {
      copy := new Multipart();
      for i := 0 to |parts|
        invariant fresh(copy) && copy.parts == parts[..i]
      {
        copy.Add(parts[i]);
      }
    }

    method Equal(other: Multipart) returns (eq: bool)
      ensures eq <==> parts == other.parts
    {
      if |parts| != |other.parts| {
        return false;
      }
      for i := 0 to |parts|
        invariant parts[..i] == other.parts[..i]
      {
        if parts[i] != other.parts[i] {
          return false;
        }
      }
      return true;
    }

    // ----- The codec -----

    method EncodeSelf(order: ByteOrder, modulus: nat) returns (r: EncodeResult)
      requires IsSizeModulus(modulus)
      ensures r.RangeError? <==> !AllFit(parts)
      ensures r.Overrun? <==> AllFit(parts) && EncodedSize(parts) >= modulus
      ensures r.Encoded? ==> fresh(r.message) && r.message[..] == Encode(parts)
      ensures r.Encoded? ==> Decoded(r.message[..]) == parts && Parse(r.message[..]).ending.Complete?
    {
      r := EncodeParts(order, modulus, parts);
      if r.Encoded? {
        RoundTrip(parts);
      }
    }

    /** Appends what the message decodes to; on an exception the parts before the fault have been appended. */
    method DecodeAppend(order: ByteOrder, encoded: array<Byte>) returns (ending: Ending)
      modifies this
      ensures ending == Parse(encoded[..]).ending
      ensures parts == old(parts) + Decoded(encoded[..])
    {
      var written;
      ending, written := DecodeMessage(order, encoded);
      parts := parts + written;
    }

    /**
     Encoding the other multipart and decoding behind this one moves its parts here, across hosts, unless
     the encoding fails or overruns.
     */
    method AppendEncoded(sender: ByteOrder, receiver: ByteOrder, modulus: nat, other: Multipart) returns (ok: bool)
      requires IsSizeModulus(modulus)
      modifies this
      ensures ok <==> AllFit(old(other.parts)) && EncodedSize(old(other.parts)) < modulus
      ensures parts == if ok then old(parts) + old(other.parts) else old(parts)
    {
      var r := other.EncodeSelf(sender, modulus);
      if !r.Encoded? {
        return false;
      }
      var sent := other.parts;
      var ending := DecodeAppend(receiver, r.message);
      assert ending.Complete?;
      assert parts == old(parts) + sent;
      return true;
    }

    /** On an exception the caller gets no result. */
    static method DecodeNew(order: ByteOrder, encoded: array<Byte>) returns (ending: Ending, result: Multipart)
      ensures fresh(result)
      ensures ending == Parse(encoded[..]).ending
      ensures ending.Complete? ==> result.parts == Decoded(encoded[..])
    {
      result := new Multipart();
      ending := result.DecodeAppend(order, encoded);
    }
  }
}
