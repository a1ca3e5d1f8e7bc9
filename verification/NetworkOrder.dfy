/** Bytes, 32-bit words and the network byte order in which the codec stores part sizes. */
module NetworkOrder {

  newtype Byte = x: int | 0 <= x < 0x100
  type Bytes = seq<Byte>
  type Word = x: int | 0 <= x < 0x1_0000_0000

  const UINT8_MAX := 0xFF
  const UINT32_MAX := 0xFFFF_FFFF

  /** A `size_t` of 32 or 64 bits, by the number of values it has. */
  predicate IsSizeModulus(m: nat) { m == 0x1_0000_0000 || m == 0x1_0000_0000_0000_0000 }

  /** The byte order of the machine the program runs on. */
  datatype ByteOrder = LittleEndian | BigEndian

  // ----- Unsigned 32-bit operators: left shift and addition wrap around -----

  function ShiftLeft(w: Word, factor: nat): Word { w * factor % 0x1_0000_0000 }

  function ShiftRight(w: Word, factor: nat): Word
    requires factor > 0
  {
    w / factor
  }

  function LowByte(w: Word): Byte { (w % 0x100) as Byte }

  function AddWrap(v: Word, w: Word): Word { (v + w) % 0x1_0000_0000 }

  /** On 32-bit words, shifts by whole bytes and the byte mask are these operators. */
  lemma ShiftsAreArithmetic(w: bv32)
    ensures w << 24 == w * 0x100_0000 && w << 16 == w * 0x1_0000 && w << 8 == w * 0x100
    ensures w >> 24 == w / 0x100_0000 && w >> 16 == w / 0x1_0000 && w >> 8 == w / 0x100
    ensures w & 0xFF == w % 0x100
    ensures (((w >> 24) & 0xFF) << 24) + (((w >> 16) & 0xFF) << 16) + (((w >> 8) & 0xFF) << 8) + (w & 0xFF) == w
  {
  }

  // ----- The positional meaning of four bytes -----

  /** The number that a byte string denotes, most significant byte first. */
  function Value(s: Bytes): nat {
    if s == [] then 0 else Value(s[..|s| - 1]) * 0x100 + s[|s| - 1] as int
  }

  /** The base-256 digit of `w` whose place value is `place`. */
  function Digit(w: Word, place: nat): Byte
    requires place > 0
  {
    (w / place % 0x100) as Byte
  }

  /** The four bytes a big-endian machine keeps in memory for `w`. */
  function BigEndianImage(w: Word): (s: Bytes)
    ensures |s| == 4
  {
    [Digit(w, 0x100_0000), Digit(w, 0x1_0000), Digit(w, 0x100), Digit(w, 1)]
  }

  /** The word a big-endian machine reads from four bytes of memory. */
  function BigEndianValue(s: Bytes): Word
    requires |s| == 4
  {
    s[3] as int + 0x100 * s[2] as int + 0x1_0000 * s[1] as int + 0x100_0000 * s[0] as int
  }

  /** The probe for the byte order: the lowest-addressed byte of the 16-bit value 1. */
  predicate IsLittleEndian(order: ByteOrder)
    ensures IsLittleEndian(order) <==> order.LittleEndian?
  {
    var image := if order.LittleEndian? then [1, 0] else [0, 1];
    image[0] == 1
  }

  // ----- Writing and reading a size -----

  /** The four bytes of `w` in network order: those of a big-endian machine. */
  function NetworkBytes(w: Word): (s: Bytes)
    ensures |s| == 4
  {
    BigEndianImage(w)
  }

  /** The word read back from four bytes: shifted sum on a little-endian host, plain copy on the other. */
  function ReadNetworkOrder(order: ByteOrder, s: Bytes): Word
    requires |s| == 4
  {
    if IsLittleEndian(order) then
      AddWrap(AddWrap(AddWrap(ShiftLeft(s[0] as int, 0x100_0000), ShiftLeft(s[1] as int, 0x1_0000)),
                ShiftLeft(s[2] as int, 0x100)),
           s[3] as int)
    else
      BigEndianValue(s)
  }

  /** Writes four bytes at `at`, byte by byte on a little-endian host and by a plain copy on the other. */
  method WriteNetworkOrder(order: ByteOrder, buf: array<Byte>, at: nat, value: Word)
    requires at + 4 <= buf.Length
    modifies buf
    ensures buf[at..at + 4] == NetworkBytes(value)
    ensures buf[..at] == old(buf[..at]) && buf[at + 4..] == old(buf[at + 4..])
  {
    if IsLittleEndian(order) {
      buf[at] := LowByte(ShiftRight(value, 0x100_0000));
      buf[at + 1] := LowByte(ShiftRight(value, 0x1_0000));
      buf[at + 2] := LowByte(ShiftRight(value, 0x100));
      buf[at + 3] := LowByte(value);
    } else {
      var image := BigEndianImage(value);
      forall i | 0 <= i < 4 {
        buf[at + i] := image[i];
      }
    }
  }

  // ----- Network order means positional value, whatever the host -----

  lemma DigitsOfWord(w: Word)
    ensures w == ((Digit(w, 0x100_0000) as int * 0x100 + Digit(w, 0x1_0000) as int) * 0x100
                  + Digit(w, 0x100) as int) * 0x100 + Digit(w, 1) as int
  {
    assert w / 0x1_0000 == w / 0x100 / 0x100;
    assert w / 0x100_0000 == w / 0x1_0000 / 0x100;
  }

  lemma WordOfDigits(a: Byte, b: Byte, c: Byte, d: Byte)
    ensures
      var w := ((a as int * 0x100 + b as int) * 0x100 + c as int) * 0x100 + d as int;
      && 0 <= w < 0x1_0000_0000
      && Digit(w, 0x100_0000) == a && Digit(w, 0x1_0000) == b && Digit(w, 0x100) == c && Digit(w, 1) == d
  {
    var hi := (a as int * 0x100 + b as int) * 0x100 + c as int;
    var w := hi * 0x100 + d as int;
    assert w / 0x100 == hi;
    assert w / 0x1_0000 == a as int * 0x100 + b as int;
    assert w / 0x100_0000 == a as int;
  }

  lemma ValueOfFour(s: Bytes)
    requires |s| == 4
    ensures Value(s) == ((s[0] as int * 0x100 + s[1] as int) * 0x100 + s[2] as int) * 0x100 + s[3] as int
  {
    assert s[..3][..2] == s[..2] && s[..2][..1] == s[..1];
    assert Value(s[..1]) == Value(s[..1][..0]) * 0x100 + s[0] as int;
    assert Value(s[..2]) == Value(s[..1]) * 0x100 + s[1] as int;
    assert Value(s[..3]) == Value(s[..2]) * 0x100 + s[2] as int;
  }

  lemma NoWrap(x: nat)
    requires x < 0x1_0000_0000
    ensures x % 0x1_0000_0000 == x
  {
  }

  lemma ShiftedSum(a: Byte, b: Byte, c: Byte, d: Byte)
    ensures AddWrap(AddWrap(AddWrap(ShiftLeft(a as int, 0x100_0000), ShiftLeft(b as int, 0x1_0000)),
                      ShiftLeft(c as int, 0x100)), d as int)
            == ((a as int * 0x100 + b as int) * 0x100 + c as int) * 0x100 + d as int
  {
    var x, y, z := a as int * 0x100_0000, b as int * 0x1_0000, c as int * 0x100;
    NoWrap(x);
    NoWrap(y);
    NoWrap(z);
    NoWrap(x + y);
    NoWrap(x + y + z);
    NoWrap(x + y + z + d as int);
  }

  /** The bytes written denote the word, most significant byte first. */
  lemma NetworkBytesDenote(w: Word)
    ensures Value(NetworkBytes(w)) == w
  {
    ValueOfFour(NetworkBytes(w));
    DigitsOfWord(w);
  }

  /** The word read is the positional value of the bytes: no shift or sum ever wraps around. */
  lemma ReadIsValue(order: ByteOrder, s: Bytes)
    requires |s| == 4
    ensures ReadNetworkOrder(order, s) == Value(s)
  {
    ValueOfFour(s);
    ShiftedSum(s[0], s[1], s[2], s[3]);
  }

  /** Reading what was written gives the word back. */
  lemma ReadAfterWrite(order: ByteOrder, w: Word)
    ensures ReadNetworkOrder(order, NetworkBytes(w)) == w
  {
    NetworkBytesDenote(w);
    ReadIsValue(order, NetworkBytes(w));
  }

  /** Writing what was read gives the four bytes back. */
  lemma WriteAfterRead(order: ByteOrder, s: Bytes)
    requires |s| == 4
    ensures NetworkBytes(ReadNetworkOrder(order, s)) == s
  {
    ReadIsValue(order, s);
    BytesOfValue(s);
  }

  lemma BytesOfValue(s: Bytes)
    requires |s| == 4
    ensures Value(s) < 0x1_0000_0000 && NetworkBytes(Value(s)) == s
  {
    ValueOfFour(s);
    WordOfDigits(s[0], s[1], s[2], s[3]);
  }
}
