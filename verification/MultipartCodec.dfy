/**
 The RFC 50 flattening of a list of parts into one byte string, and its parse.

 `Encode` and `Parse` state what the two loops of module CodecLoops compute. The independent
 reference is the grammar of frames: a frame is a part written with either a one-byte or a
 five-byte size, and `Render` lays frames out one after the other.
 */
module MultipartCodec {
  import opened NetworkOrder
  import opened Sequences

  // ----- Encoding -----

  predicate Fits(part: Bytes) { |part| <= UINT32_MAX }

  predicate AllFit(parts: seq<Bytes>) { forall i | 0 <= i < |parts| :: Fits(parts[i]) }

  /** What a part adds to the size of the encoded message. */
  function FrameSize(part: Bytes): nat { |part| + if |part| < UINT8_MAX then 1 else 5 }

  function EncodedSize(parts: seq<Bytes>): nat {
    if parts == [] then 0 else FrameSize(parts[0]) + EncodedSize(parts[1..])
  }

  function SizeField(size: Word): Bytes {
    if size < UINT8_MAX then [size as Byte] else [0xFF] + NetworkBytes(size)
  }

  function Encode(parts: seq<Bytes>): Bytes
    requires AllFit(parts)
  {
    if parts == [] then [] else SizeField(|parts[0]|) + parts[0] + Encode(parts[1..])
  }

  // ----- Decoding -----

  /** How a decoding run ends: at the end of the input, or with one of its two exceptions. */
  datatype Ending = Complete | SizeOverflow | PartOverflow

  /** A part together with the form its size had on the wire: `wide` is the five-byte form. */
  datatype Frame = Frame(data: Bytes, wide: bool)

  datatype Parsed = Parsed(frames: seq<Frame>, ending: Ending)

  function SizeWidth(b: Bytes): nat
    requires b != []
  {
    if b[0] == 0xFF then 5 else 1
  }

  /** The size stored at the head of `b`. */
  function StoredSize(b: Bytes): nat
    requires b != [] && SizeWidth(b) <= |b|
  {
    if b[0] == 0xFF then Value(b[1..5]) else b[0] as nat
  }

  /** A whole frame stands at the head of `b`: its size field is there, and so is its part. */
  predicate HasFrame(b: Bytes) {
    b != [] && SizeWidth(b) <= |b| && SizeWidth(b) + StoredSize(b) <= |b|
  }

  function FrameEnd(b: Bytes): (end: nat)
    requires HasFrame(b)
    ensures 0 < end <= |b|
  {
    SizeWidth(b) + StoredSize(b)
  }

  function HeadFrame(b: Bytes): Frame
    requires HasFrame(b)
  {
    Frame(b[SizeWidth(b)..FrameEnd(b)], b[0] == 0xFF)
  }

  /** Why decoding stops in front of `b`. */
  function StopReason(b: Bytes): Ending
    requires !HasFrame(b)
  {
    if b == [] then Complete else if |b| < SizeWidth(b) then SizeOverflow else PartOverflow
  }

  function Parse(b: Bytes): Parsed {
    if HasFrame(b) then
      var rest := Parse(b[FrameEnd(b)..]);
      Parsed([HeadFrame(b)] + rest.frames, rest.ending)
    else
      Parsed([], StopReason(b))
  }

  /** The parts a list of frames carries. */
  function Parts(fs: seq<Frame>): (parts: seq<Bytes>)
    ensures |parts| == |fs| && forall i | 0 <= i < |fs| :: parts[i] == fs[i].data
  {
    seq(|fs|, i requires 0 <= i < |fs| => fs[i].data)
  }

  /** What goes through the output iterator of `decode`, on normal ending and on an exception alike. */
  function Decoded(b: Bytes): seq<Bytes> { Parts(Parse(b).frames) }

  // ----- The grammar -----

  ghost predicate WellFormed(fs: seq<Frame>) {
    forall i | 0 <= i < |fs| :: FrameOk(fs[i])
  }

  predicate FrameOk(f: Frame) {
    if f.wide then Fits(f.data) else |f.data| < UINT8_MAX
  }

  function RenderFrame(f: Frame): (b: Bytes)
    requires FrameOk(f)
    ensures |b| == |f.data| + if f.wide then 5 else 1
  {
    (if f.wide then [0xFF] + NetworkBytes(|f.data|) else [|f.data| as Byte]) + f.data
  }

  function Render(fs: seq<Frame>): Bytes
    requires WellFormed(fs)
  {
    if fs == [] then [] else RenderFrame(fs[0]) + Render(fs[1..])
  }

  // ----- A frame parses as itself, whatever follows it -----

  lemma HeadOfRendered(f: Frame, b: Bytes)
    requires FrameOk(f)
    ensures
      var whole := RenderFrame(f) + b;
      HasFrame(whole) && HeadFrame(whole) == f && FrameEnd(whole) == |RenderFrame(f)|
  {
    var whole := RenderFrame(f) + b;
    if f.wide {
      assert whole[1..5] == NetworkBytes(|f.data|);
      NetworkBytesDenote(|f.data|);
    }
    assert StoredSize(whole) == |f.data|;
    assert whole[SizeWidth(whole)..|RenderFrame(f)|] == f.data;
  }

  lemma ParseFrame(f: Frame, b: Bytes)
    requires FrameOk(f)
    ensures Parse(RenderFrame(f) + b) == Parsed([f] + Parse(b).frames, Parse(b).ending)
  {
    HeadOfRendered(f, b);
    assert (RenderFrame(f) + b)[|RenderFrame(f)|..] == b;
  }

  /** Parsing rendered frames followed by anything gives the frames, then what the rest gives. */
  lemma {:induction false} ParseRender(fs: seq<Frame>, b: Bytes)
    requires WellFormed(fs)
    ensures Parse(Render(fs) + b) == Parsed(fs + Parse(b).frames, Parse(b).ending)
  {
    if fs == [] {
      assert Render(fs) + b == b;
      assert fs + Parse(b).frames == Parse(b).frames;
    } else {
      ParseRender(fs[1..], b);
      ParseFrame(fs[0], Render(fs[1..]) + b);
      ConcatAssociates(RenderFrame(fs[0]), Render(fs[1..]), b);
      HeadTailConcat(fs, Parse(b).frames);
    }
  }

  /** What is left of the input when decoding stops, by the way it stops. */
  ghost predicate Stuck(rest: Bytes, ending: Ending) {
    !HasFrame(rest) && StopReason(rest) == ending
  }

  /** A frame found at the head of the input is exactly what rendering it writes. */
  lemma HeadFrameRenders(b: Bytes)
    requires HasFrame(b)
    ensures FrameOk(HeadFrame(b)) && RenderFrame(HeadFrame(b)) == b[..FrameEnd(b)]
  {
    if b[0] == 0xFF {
      BytesOfValue(b[1..5]);
      assert b[..FrameEnd(b)] == [b[0]] + b[1..5] + b[5..FrameEnd(b)];
    } else {
      assert b[..FrameEnd(b)] == [b[0]] + b[1..FrameEnd(b)];
    }
  }

  /** Soundness: the frames found are a prefix of the input, and the rest explains the ending. */
  lemma {:induction false} ParseSound(b: Bytes) returns (rest: Bytes)
    ensures WellFormed(Parse(b).frames)
    ensures b == Render(Parse(b).frames) + rest
    ensures Stuck(rest, Parse(b).ending)
    decreases |b|
  {
    if HasFrame(b) {
      var tail := b[FrameEnd(b)..];
      rest := ParseSound(tail);
      HeadFrameRenders(b);
      RenderCons(HeadFrame(b), Parse(tail).frames);
      assert b == b[..FrameEnd(b)] + tail;
    } else {
      rest := b;
    }
  }

  lemma RenderCons(f: Frame, fs: seq<Frame>)
    requires FrameOk(f) && WellFormed(fs)
    ensures WellFormed([f] + fs) && Render([f] + fs) == RenderFrame(f) + Render(fs)
  {
    assert ([f] + fs)[1..] == fs;
  }

  // ----- Main results -----

  /** Decoding ends normally on exactly the byte strings of the grammar. */
  lemma AcceptsExactlyTheGrammar(b: Bytes)
    ensures Parse(b).ending.Complete? <==> exists fs :: WellFormed(fs) && Render(fs) == b
  {
    if Parse(b).ending.Complete? {
      var rest := ParseSound(b);
      assert Render(Parse(b).frames) == b;
    }
    if fs :| WellFormed(fs) && Render(fs) == b {
      ParseRender(fs, []);
      assert Render(fs) + [] == b;
    }
  }

  /** On any input, the frames found are the longest run of whole frames at its start. */
  lemma LongestMatch(b: Bytes, fs: seq<Frame>)
    requires WellFormed(fs) && Render(fs) <= b
    ensures fs <= Parse(b).frames
  {
    var rest := b[|Render(fs)|..];
    assert b == Render(fs) + rest;
    ParseRender(fs, rest);
  }

  /** No byte string can be cut into frames in two ways. */
  lemma UniquelyDecodable(fs: seq<Frame>, gs: seq<Frame>)
    requires WellFormed(fs) && WellFormed(gs) && Render(fs) == Render(gs)
    ensures fs == gs
  {
    ParseRender(fs, []);
    ParseRender(gs, []);
    assert Render(fs) + [] == Render(gs) + [];
    assert fs + [] == fs && gs + [] == gs;
  }

  /** The frames `Encode` writes: the wide form exactly where the narrow one cannot hold the size. */
  function Canonical(parts: seq<Bytes>): (fs: seq<Frame>)
    ensures |fs| == |parts|
  {
    seq(|parts|, i requires 0 <= i < |parts| => Frame(parts[i], |parts[i]| >= UINT8_MAX))
  }

  lemma {:induction false} EncodeRendersCanonical(parts: seq<Bytes>)
    requires AllFit(parts)
    ensures WellFormed(Canonical(parts))
    ensures Render(Canonical(parts)) == Encode(parts)
    ensures |Encode(parts)| == EncodedSize(parts)
  {
    if parts != [] {
      EncodeRendersCanonical(parts[1..]);
      assert Canonical(parts)[1..] == Canonical(parts[1..]);
    }
  }

  /** Decoding what was encoded, with anything behind it, gives the parts and then the rest. */
  lemma StreamRoundTrip(parts: seq<Bytes>, b: Bytes)
    requires AllFit(parts)
    ensures
      var whole := Parse(Encode(parts) + b);
      Parts(whole.frames) == parts + Decoded(b) && whole.ending == Parse(b).ending
  {
    EncodeRendersCanonical(parts);
    ParseRender(Canonical(parts), b);
    PartsOfCanonical(parts, Parse(b).frames);
  }

  lemma PartsOfCanonical(parts: seq<Bytes>, fs: seq<Frame>)
    ensures Parts(Canonical(parts) + fs) == parts + Parts(fs)
  {
  }

  /** Round trip: `decode(encode(parts))` ends normally with `parts`. */
  lemma {:induction false} RoundTrip(parts: seq<Bytes>)
    requires AllFit(parts)
    ensures Parse(Encode(parts)).ending.Complete?
    ensures Decoded(Encode(parts)) == parts
  {
    StreamRoundTrip(parts, []);
    assert Encode(parts) + [] == Encode(parts);
  }

  lemma EncodeInjective(xs: seq<Bytes>, ys: seq<Bytes>)
    requires AllFit(xs) && AllFit(ys) && Encode(xs) == Encode(ys)
    ensures xs == ys
  {
    RoundTrip(xs);
    RoundTrip(ys);
  }

  /** Encoding is a homomorphism: encoded messages can be joined without re-encoding. */
  lemma {:induction false} EncodeConcat(xs: seq<Bytes>, ys: seq<Bytes>)
    requires AllFit(xs) && AllFit(ys)
    ensures AllFit(xs + ys) && Encode(xs + ys) == Encode(xs) + Encode(ys)
  {
    if xs == [] {
      assert xs + ys == ys;
    } else {
      EncodeConcat(xs[1..], ys);
      assert (xs + ys)[0] == xs[0] && (xs + ys)[1..] == xs[1..] + ys;
      ConcatAssociates(SizeField(|xs[0]|) + xs[0], Encode(xs[1..]), Encode(ys));
    }
  }

  /** The size field of every size, in particular around 255, is read back, and is short exactly below 255. */
  lemma SizeFieldReads(size: Word, rest: Bytes)
    ensures
      var b := SizeField(size) + rest;
      && SizeWidth(b) == |SizeField(size)| && StoredSize(b) == size
      && (|SizeField(size)| == 1 <==> size < 255) && (|SizeField(size)| == 5 <==> size >= 255)
  {
    var b := SizeField(size) + rest;
    if size >= 255 {
      assert b[1..5] == NetworkBytes(size);
      NetworkBytesDenote(size);
    }
  }

  // ----- Truncation -----

  /** A proper, non-empty piece of one frame holds no frame and is not a normal end. */
  lemma CutFrameStuck(f: Frame, k: nat)
    requires FrameOk(f) && 0 < k < |RenderFrame(f)|
    ensures Stuck(RenderFrame(f)[..k], if f.wide && k < 5 then SizeOverflow else PartOverflow)
  {
    var whole := RenderFrame(f);
    var cut := whole[..k];
    if f.wide && 5 <= k {
      assert cut[1..5] == whole[1..5] == NetworkBytes(|f.data|);
      NetworkBytesDenote(|f.data|);
    }
  }

  /** The number of frames that lie wholly within the first `k` rendered bytes. */
  function WholeFrames(fs: seq<Frame>, k: nat): (n: nat)
    requires WellFormed(fs)
    ensures n <= |fs|
  {
    if fs == [] || k < |RenderFrame(fs[0])| then 0
    else 1 + WholeFrames(fs[1..], k - |RenderFrame(fs[0])|)
  }

  lemma {:induction false} WholeFramesBounds(fs: seq<Frame>, k: nat)
    requires WellFormed(fs)
    ensures
      var n := WholeFrames(fs, k);
      |Render(fs[..n])| <= k && (n < |fs| ==> k < |Render(fs[..n + 1])|)
  {
    if fs != [] {
      var n := WholeFrames(fs, k);
      if k < |RenderFrame(fs[0])| {
        assert Render(fs[..1]) == RenderFrame(fs[0]) + Render(fs[..1][1..]);
      } else {
        WholeFramesBounds(fs[1..], k - |RenderFrame(fs[0])|);
        assert fs[..n][1..] == fs[1..][..n - 1];
        if n < |fs| {
          assert fs[..n + 1][1..] == fs[1..][..n];
        }
      }
    }
  }

  /** A cut inside rendered frames splits them into the whole ones and a piece of the next. */
  lemma {:induction false} CutPoint(fs: seq<Frame>, k: nat) returns (piece: Bytes)
    requires WellFormed(fs) && k <= |Render(fs)|
    ensures
      var n := WholeFrames(fs, k);
      && Render(fs)[..k] == Render(fs[..n]) + piece
      && (n == |fs| ==> piece == [])
      && (n < |fs| ==> piece < RenderFrame(fs[n]))
  {
    if fs == [] {
      piece := [];
    } else if k < |RenderFrame(fs[0])| {
      piece := Render(fs)[..k];
    } else {
      var n := WholeFrames(fs, k);
      var left := k - |RenderFrame(fs[0])|;
      piece := CutPoint(fs[1..], left);
      assert fs[..n][1..] == fs[1..][..n - 1];
      assert Render(fs)[..k] == RenderFrame(fs[0]) + Render(fs[1..])[..left];
      assert Render(fs[..n]) == RenderFrame(fs[0]) + Render(fs[1..][..n - 1]);
    }
  }

  /** How decoding ends on a piece of a frame, of which `wide` gives the form of its size field. */
  function CutEnding(wide: bool, pieceSize: nat): Ending {
    if pieceSize == 0 then Complete else if wide && pieceSize < 5 then SizeOverflow else PartOverflow
  }

  /**
   Cutting rendered frames anywhere: decoding the first `k` bytes yields exactly the frames wholly
   inside them. It ends normally exactly when the cut falls between two frames, with the first exception
   when it falls inside a wide size field, and with the second when it falls inside a part.
   */
  lemma Truncation(fs: seq<Frame>, k: nat)
    requires WellFormed(fs) && k <= |Render(fs)|
    ensures
      var n := WholeFrames(fs, k);
      |Render(fs[..n])| <= k &&
      Parse(Render(fs)[..k]) == Parsed(fs[..n], CutEnding(n < |fs| && fs[n].wide, k - |Render(fs[..n])|))
  {
    var n := WholeFrames(fs, k);
    var piece := CutPoint(fs, k);
    assert Parse(piece) == Parsed([], CutEnding(n < |fs| && fs[n].wide, |piece|)) by {
      if piece != [] {
        CutFrameStuck(fs[n], |piece|);
        assert piece == RenderFrame(fs[n])[..|piece|];
      }
    }
    ParseRender(fs[..n], piece);
    assert fs[..n] + [] == fs[..n];
    assert |Render(fs)[..k]| == |Render(fs[..n])| + |piece|;
  }

  /** Truncation of an encoded message, in terms of its parts. */
  lemma EncodeTruncation(parts: seq<Bytes>, k: nat) returns (n: nat)
    requires AllFit(parts) && k <= |Encode(parts)|
    ensures n <= |parts| && EncodedSize(parts[..n]) <= k
    ensures n < |parts| ==> k < EncodedSize(parts[..n + 1])
    ensures Decoded(Encode(parts)[..k]) == parts[..n]
    ensures Parse(Encode(parts)[..k]).ending
            == CutEnding(n < |parts| && |parts[n]| >= UINT8_MAX, k - EncodedSize(parts[..n]))
  {
    EncodeRendersCanonical(parts);
    var fs := Canonical(parts);
    n := WholeFrames(fs, k);
    WholeFramesBounds(fs, k);
    Truncation(fs, k);
    CanonicalPrefix(parts, n);
    if n < |parts| {
      CanonicalPrefix(parts, n + 1);
    }
  }

  lemma CanonicalPrefix(parts: seq<Bytes>, n: nat)
    requires AllFit(parts) && n <= |parts|
    ensures WellFormed(Canonical(parts)[..n]) && Parts(Canonical(parts)[..n]) == parts[..n]
    ensures |Render(Canonical(parts)[..n])| == EncodedSize(parts[..n])
  {
    EncodeRendersCanonical(parts[..n]);
    assert Canonical(parts[..n]) == Canonical(parts)[..n];
  }

  /** Every rejected input is the start of an accepted one: decoding can only ever miss bytes at the end. */
  lemma {:induction false} RejectedMeansCutShort(b: Bytes) returns (more: Bytes)
    ensures Parse(b + more).ending.Complete?
    ensures Parse(b).frames <= Parse(b + more).frames
    ensures Parse(b).ending.Complete? <==> more == []
  {
    var rest := ParseSound(b);
    if rest == [] {
      more := [];
      assert b + more == b;
    } else {
      more := FinishFrame(rest);
      var fs := Parse(b).frames;
      ConcatAssociates(Render(fs), rest, more);
      FinishedParse(fs, rest + more);
    }
  }

  lemma FinishedParse(fs: seq<Frame>, last: Bytes)
    requires WellFormed(fs) && HasFrame(last) && FrameEnd(last) == |last|
    ensures Parse(Render(fs) + last) == Parsed(fs + [HeadFrame(last)], Complete)
  {
    ParseLastFrame(last);
    ParseRender(fs, last);
  }

  lemma ParseLastFrame(b: Bytes)
    requires HasFrame(b) && FrameEnd(b) == |b|
    ensures Parse(b) == Parsed([HeadFrame(b)], Complete)
  {
    assert b[|b|..] == [];
  }

  /** Zeros that complete a started frame: first its size field, then as many bytes as that announces. */
  lemma FinishFrame(rest: Bytes) returns (more: Bytes)
    requires rest != [] && !HasFrame(rest)
    ensures more != [] && HasFrame(rest + more) && FrameEnd(rest + more) == |rest + more|
  {
    var width := SizeWidth(rest);
    var filler := Zeros(if |rest| < width then width - |rest| else 0);
    var started := rest + filler;
    if |rest| >= width {
      assert started == rest;
    }
    var padding := Zeros(width + StoredSize(started) - |started|);
    StoredSizeStays(started, padding);
    more := filler + padding;
    assert rest + more == started + padding;
  }

  lemma StoredSizeStays(b: Bytes, more: Bytes)
    requires b != [] && SizeWidth(b) <= |b|
    ensures SizeWidth(b + more) == SizeWidth(b) && StoredSize(b + more) == StoredSize(b)
  {
    if b[0] == 0xFF {
      assert (b + more)[1..5] == b[1..5];
    }
  }

  function Zeros(n: nat): (z: Bytes)
    ensures |z| == n
  {
    seq(n, i => 0 as Byte)
  }

  // ----- Normal form -----

  /** The number of frames that use the five-byte size although one byte would do. */
  function Overlong(fs: seq<Frame>): nat {
    if fs == [] then 0
    else (if fs[0].wide && |fs[0].data| < UINT8_MAX then 1 else 0) + Overlong(fs[1..])
  }

  lemma {:induction false} OverlongCost(fs: seq<Frame>)
    requires WellFormed(fs)
    ensures AllFit(Parts(fs))
    ensures |Render(fs)| == |Encode(Parts(fs))| + 4 * Overlong(fs)
    ensures Overlong(fs) == 0 ==> Render(fs) == Encode(Parts(fs))
  {
    if fs != [] {
      OverlongCost(fs[1..]);
      assert Parts(fs)[1..] == Parts(fs[1..]);
    }
  }

  /**
   Re-encoding what was decoded: it never fails, decodes to the same parts, is shorter by exactly four
   bytes for each overlong size field, and is the original exactly when there is none.
   */
  lemma NormalForm(b: Bytes)
    requires Parse(b).ending.Complete?
    ensures
      var parts := Decoded(b);
      && AllFit(parts)
      && Decoded(Encode(parts)) == parts
      && |b| - |Encode(parts)| == 4 * Overlong(Parse(b).frames)
      && (Encode(parts) == b <==> Overlong(Parse(b).frames) == 0)
  {
    var rest := ParseSound(b);
    assert b == Render(Parse(b).frames);
    OverlongCost(Parse(b).frames);
    RoundTrip(Decoded(b));
  }

  /** An input that is not in normal form: an empty part with a five-byte size. */
  lemma OverlongInput()
    ensures
      var b: Bytes := [0xFF, 0, 0, 0, 0];
      Parse(b) == Parsed([Frame([], true)], Complete) && Encode(Decoded(b)) == [0] != b
  {
    var b: Bytes := [0xFF, 0, 0, 0, 0];
    var f := Frame([], true);
    assert NetworkBytes(0) == [0, 0, 0, 0];
    assert RenderFrame(f) == b;
    ParseFrame(f, []);
    assert b + [] == b;
    assert Decoded(b) == [[]];
  }

  // ----- The size pass against the write pass -----

  /** The size pass adds in `size_t`: the message has room for the encoding exactly when the sum does not wrap. */
  lemma RoomIffNoWrap(modulus: nat, parts: seq<Bytes>)
    requires IsSizeModulus(modulus) && AllFit(parts)
    ensures |Encode(parts)| <= EncodedSize(parts) % modulus <==> EncodedSize(parts) < modulus
  {
    EncodeRendersCanonical(parts);
    var size := EncodedSize(parts);
    assert size < modulus ==> size % modulus == size;
  }

  /** Many views of one buffer, as a range of `const_buffer`s may hold. */
  function Copies(n: nat, part: Bytes): (parts: seq<Bytes>)
    ensures |parts| == n && forall i | 0 <= i < n :: parts[i] == part
  {
    seq(n, i => part)
  }

  lemma {:induction false} CopiesSize(n: nat, part: Bytes)
    ensures EncodedSize(Copies(n, part)) == n * FrameSize(part)
  {
    if n > 0 {
      CopiesSize(n - 1, part);
      assert Copies(n, part)[1..] == Copies(n - 1, part);
    }
  }

  /** With a 64-bit `size_t`, 2^32 views of a buffer of the largest size a part may have do not fit. */
  lemma NoRoom64(part: Bytes)
    requires |part| == UINT32_MAX
    ensures
      var parts, modulus := Copies(0x1_0000_0000, part), 0x1_0000_0000_0000_0000;
      AllFit(parts) && |Encode(parts)| > EncodedSize(parts) % modulus
  {
    var parts := Copies(0x1_0000_0000, part);
    CopiesSize(0x1_0000_0000, part);
    RoomIffNoWrap(0x1_0000_0000_0000_0000, parts);
  }

  /** With a 32-bit `size_t`, 65532 views of a 64 KiB buffer do not fit. */
  lemma NoRoom32(part: Bytes)
    requires |part| == 0x1_0000
    ensures
      var parts, modulus := Copies(65532, part), 0x1_0000_0000;
      AllFit(parts) && |Encode(parts)| > EncodedSize(parts) % modulus
  {
    var parts := Copies(65532, part);
    CopiesSize(65532, part);
    RoomIffNoWrap(0x1_0000_0000, parts);
  }
}
