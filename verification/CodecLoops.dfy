/** The two loops of the codec: they move a cursor through a buffer and compute what MultipartCodec states. */
module CodecLoops {
  import opened NetworkOrder
  import opened MultipartCodec
  import opened Sequences

  /**
   The encoded message; or the exception for a part whose size does not fit 32 bits; or a write pass that
   would leave the message. The source does not detect the last: what it does from there on is undefined.
   */
  datatype EncodeResult = Encoded(message: array<Byte>) | RangeError | Overrun

  lemma {:induction false} EncodedSizeSnoc(parts: seq<Bytes>, i: nat)
    requires i < |parts|
    ensures EncodedSize(parts[..i + 1]) == EncodedSize(parts[..i]) + FrameSize(parts[i])
  {
    if i == 0 {
      assert parts[..1][1..] == [];
    } else {
      EncodedSizeSnoc(parts[1..], i - 1);
      assert parts[..i + 1][1..] == parts[1..][..i];
      assert parts[..i][1..] == parts[1..][..i - 1];
    }
  }

  lemma WrapOnce(modulus: nat, a: nat, b: nat)
    requires IsSizeModulus(modulus)
    ensures (a % modulus + b) % modulus == (a + b) % modulus
  {
  }

  /** First pass: check every size and add up the room needed. The sum wraps around as `size_t` does. */
  method MeasureParts(modulus: nat, parts: seq<Bytes>) returns (fits: bool, total: nat)
    requires IsSizeModulus(modulus)
    ensures fits <==> AllFit(parts)
    ensures fits ==> total == EncodedSize(parts) % modulus
  {
    fits, total := true, 0;
    for i := 0 to |parts|
      invariant AllFit(parts[..i])
      invariant fits && total == EncodedSize(parts[..i]) % modulus
    {
      var partSize := |parts[i]|;
      if partSize > UINT32_MAX {
        assert !Fits(parts[i]);
        fits := false;
        return;
      }
      var countSize := if partSize < UINT8_MAX then 1 else 5;
      total := (total + (partSize + countSize)) % modulus;
      EncodedSizeSnoc(parts, i);
      WrapOnce(modulus, EncodedSize(parts[..i]), FrameSize(parts[i]));
      assert parts[..i + 1] == parts[..i] + [parts[i]];
    }
    assert parts[..|parts|] == parts;
  }

  /** Writes a size field at `at`; returns the advanced cursor. */
  method WriteSizeField(order: ByteOrder, buf: array<Byte>, at: nat, size: Word) returns (next: nat)
    requires at + |SizeField(size)| <= buf.Length
    modifies buf
    ensures next == at + |SizeField(size)|
    ensures buf[..next] == old(buf[..at]) + SizeField(size)
  {
    if size < UINT8_MAX {
      buf[at] := size as Byte;
      next := at + 1;
    } else {
      buf[at] := 0xFF;
      WriteNetworkOrder(order, buf, at + 1, size);
      next := at + 5;
      assert buf[..next] == buf[..at + 1] + buf[at + 1..at + 5];
    }
  }

  /** memcpy into the buffer; returns the advanced cursor. */
  method CopyInto(buf: array<Byte>, at: nat, data: Bytes) returns (next: nat)
    requires at + |data| <= buf.Length
    modifies buf
    ensures next == at + |data|
    ensures buf[..next] == old(buf[..at]) + data
  {
    forall i | 0 <= i < |data| {
      buf[at + i] := data[i];
    }
    next := at + |data|;
  }

  lemma EncodeFrom(parts: seq<Bytes>, i: nat)
    requires i < |parts| && AllFit(parts[i..])
    ensures AllFit(parts[i + 1..])
    ensures Encode(parts[i..]) == SizeField(|parts[i]|) + parts[i] + Encode(parts[i + 1..])
  {
    assert parts[i..][0] == parts[i] && parts[i..][1..] == parts[i + 1..];
  }

  /**
   Second pass, into a message of any size: the cursor stays inside exactly when the whole encoding fits,
   and then what was written is the encoding. The test in the loop is the model's, not the source's.
   */
  method WriteParts(order: ByteOrder, parts: seq<Bytes>, encoded: array<Byte>) returns (inside: bool)
    requires AllFit(parts)
    modifies encoded
    ensures inside <==> |Encode(parts)| <= encoded.Length
    ensures inside ==> encoded[..|Encode(parts)|] == Encode(parts)
  {
    var cursor := 0;
    ghost var rest := Encode(parts);
    assert parts[0..] == parts;
    for i := 0 to |parts|
      invariant AllFit(parts[i..]) && rest == Encode(parts[i..])
      invariant 0 <= cursor <= encoded.Length && cursor + |rest| == |Encode(parts)|
      invariant encoded[..cursor] + rest == Encode(parts)
    {
      EncodeFrom(parts, i);
      ghost var written, field, tail := encoded[..cursor], SizeField(|parts[i]|), Encode(parts[i + 1..]);
      if encoded.Length < cursor + FrameSize(parts[i]) {
        return false;
      }
      cursor := WriteSizeField(order, encoded, cursor, |parts[i]|);
      cursor := CopyInto(encoded, cursor, parts[i]);
      ConcatAssociates(written, field, parts[i]);
      ConcatAssociates(written, field + parts[i], tail);
      rest := tail;
    }
    assert encoded[..cursor] + [] == encoded[..cursor];
    return true;
  }

  /**
   `encode`: measure, allocate, write. It throws exactly when some part exceeds 32 bits, writes past its
   message exactly when the sum of the sizes wraps around, and otherwise the write pass ends exactly at
   the end that the size pass measured.
   */
  method EncodeParts(order: ByteOrder, modulus: nat, parts: seq<Bytes>) returns (r: EncodeResult)
    requires IsSizeModulus(modulus)
    ensures r.RangeError? <==> !AllFit(parts)
    ensures r.Overrun? <==> AllFit(parts) && EncodedSize(parts) >= modulus
    ensures r.Encoded? ==> fresh(r.message) && r.message[..] == Encode(parts)
  {
    var fits, total := MeasureParts(modulus, parts);
    if !fits {
      return RangeError;
    }
    var encoded := new Byte[total];
    var inside := WriteParts(order, parts, encoded);
    RoomIffNoWrap(modulus, parts);
    if !inside {
      return Overrun;
    }
    EncodeRendersCanonical(parts);
    assert encoded[..|Encode(parts)|] == encoded[..];
    return Encoded(encoded);
  }

  /** Reads the size field at `at`, in either form, without leaving the buffer. */
  method ReadSizeField(order: ByteOrder, encoded: array<Byte>, at: nat) returns (ok: bool, size: nat, next: nat)
    requires at < encoded.Length
    ensures
      var rest := encoded[at..];
      && (ok <==> SizeWidth(rest) <= |rest|)
      && (ok ==> size == StoredSize(rest) && next == at + SizeWidth(rest))
  {
    ok, size, next := true, encoded[at] as nat, at + 1;
    if size == UINT8_MAX {
      if encoded.Length - next < 4 {
        ok := false;
        return;
      }
      var field := encoded[next..next + 4];
      assert field == encoded[at..][1..5];
      ReadIsValue(order, field);
      size := ReadNetworkOrder(order, field);
      next := next + 4;
    }
  }

  lemma DecodeStep(b: Bytes, written: seq<Bytes>)
    ensures HasFrame(b) ==>
      var rest := b[FrameEnd(b)..];
      && Parse(b).ending == Parse(rest).ending
      && written + Decoded(b) == (written + [HeadFrame(b).data]) + Decoded(rest)
    ensures !HasFrame(b) ==> Parse(b).ending == StopReason(b) && written + Decoded(b) == written
  {
    if HasFrame(b) {
      var rest := b[FrameEnd(b)..];
      assert Decoded(b) == [HeadFrame(b).data] + Decoded(rest);
    }
  }

  /**
   `decode`: one cursor between the start of the buffer and its limit. `written` is what went through
   the output iterator; on an exception it holds the parts read so far.
   */
  method DecodeMessage(order: ByteOrder, encoded: array<Byte>) returns (ending: Ending, written: seq<Bytes>)
    ensures ending == Parse(encoded[..]).ending
    ensures written == Decoded(encoded[..])
  {
    var source, limit := 0, encoded.Length;
    written := [];
    ghost var rest := encoded[..];
    while source < limit
      invariant source <= limit && rest == encoded[source..]
      invariant written + Decoded(rest) == Decoded(encoded[..])
      invariant Parse(rest).ending == Parse(encoded[..]).ending
      decreases limit - source
    {
      DecodeStep(rest, written);
      var ok, partSize, start := ReadSizeField(order, encoded, source);
      if !ok {
        return SizeOverflow, written;
      }
      if limit - start < partSize {
        return PartOverflow, written;
      }
      written := written + [encoded[start..start + partSize]];
      assert HeadFrame(rest).data == encoded[start..start + partSize];
      source := start + partSize;
      rest := rest[FrameEnd(rest)..];
    }
    DecodeStep(rest, written);
    return Complete, written;
  }
}
