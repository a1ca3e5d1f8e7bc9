/** Buffer views and their saturating arithmetic. Memory is one sequence of bytes; a view is a stretch of it. */
module Buffers {
  import opened NetworkOrder

  datatype Buffer = Buffer(data: nat, size: nat)

  function Min(a: nat, b: nat): nat { if b < a then b else a }

  /** `b + n`: advance by at most the whole view. */
  function Plus(b: Buffer, n: nat): Buffer {
    Buffer(b.data + Min(n, b.size), b.size - Min(n, b.size))
  }

  /** `buffer(b, n)`: the first `n` bytes, or all of them. */
  function Truncate(b: Buffer, n: nat): Buffer { Buffer(b.data, Min(b.size, n)) }

  class MutableBuffer {
    var data: nat
    var size: nat

    constructor (data: nat, size: nat)
      ensures View() == Buffer(data, size)
    {
      this.data, this.size := data, size;
    }

    function View(): Buffer
      reads this
    {
      Buffer(data, size)
    }

    /** `operator+=`. */
    method Advance(n: nat)
      modifies this
      ensures View() == Plus(old(View()), n)
    {
      var shift := Min(n, size);
      data := data + shift;
      size := size - shift;
    }
  }

  function PlusAll(b: Buffer, ns: seq<nat>): Buffer
    decreases |ns|
  {
    if ns == [] then b else PlusAll(Plus(b, ns[0]), ns[1..])
  }

  function Total(ns: seq<nat>): nat { if ns == [] then 0 else ns[0] + Total(ns[1..]) }

  /** The bytes a view shows. */
  function Shown(memory: Bytes, b: Buffer): Bytes
    requires b.data + b.size <= |memory|
  {
    memory[b.data..b.data + b.size]
  }

  /**
   A sequence of advances is one advance by their true sum, saturated at the end of the view: the view
   ends where it always ended and never leaves the original stretch.
   */
  lemma {:induction false} AdvancesAddUp(b: Buffer, ns: seq<nat>)
    ensures
      var shift := Min(Total(ns), b.size);
      PlusAll(b, ns) == Buffer(b.data + shift, b.size - shift)
    decreases |ns|
  {
    if ns != [] {
      AdvancesAddUp(Plus(b, ns[0]), ns[1..]);
    }
  }

  /** The sum of two sizes as `size_t` computes it. */
  function SizeSum(modulus: nat, m: nat, n: nat): nat
    requires m < modulus && n < modulus
  {
    if m + n < modulus then m + n else m + n - modulus
  }

  /**
   Adding twice is adding the sum exactly when the sum does not wrap around in `size_t`, or wraps to
   something that still covers the whole view.
   */
  lemma PlusTwice(modulus: nat, b: Buffer, m: nat, n: nat)
    requires IsSizeModulus(modulus) && b.size < modulus && m < modulus && n < modulus
    ensures Plus(Plus(b, m), n) == Plus(b, SizeSum(modulus, m, n))
            <==> m + n < modulus || b.size <= m + n - modulus
  {
  }

  /** A wrapped sum that falls short: the largest size and 6 wrap to 5, which does not cover 10 bytes. */
  lemma PlusTwiceFails(modulus: nat)
    requires IsSizeModulus(modulus)
    ensures Plus(Plus(Buffer(0, 10), modulus - 1), 6) == Buffer(10, 0)
    ensures Plus(Buffer(0, 10), SizeSum(modulus, modulus - 1, 6)) == Buffer(5, 5)
  {
  }

  /** `buffer(b, n)` and `b + n` split the bytes of a view, for every `n`. */
  lemma SplitBytes(memory: Bytes, b: Buffer, n: nat)
    requires b.data + b.size <= |memory|
    ensures Shown(memory, b) == Shown(memory, Truncate(b, n)) + Shown(memory, Plus(b, n))
    ensures |Shown(memory, Truncate(b, n))| == Min(n, b.size)
  {
  }
}
