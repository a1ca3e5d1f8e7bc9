/** Send flags as a set of two bits, and their agreement with the integer masks the library uses. */
module SendFlags {

  datatype Flags = Flags(dontWait: bool, sndMore: bool) {
    function Or(other: Flags): Flags {
      Flags(dontWait || other.dontWait, sndMore || other.sndMore)
    }

    /** The mask with SNDMORE cleared. */
    function WithoutMore(): Flags { this.(sndMore := false) }

    /** ZMQ_DONTWAIT is 1 and ZMQ_SNDMORE is 2. */
    function Bits(): bv32 {
      if dontWait then if sndMore then 3 else 1
      else if sndMore then 2 else 0
    }
  }

  const NO_FLAGS := Flags(false, false)
  const SNDMORE := Flags(false, true)

  /** ZMQ_SNDMORE is 2; no flags is 0. */
  lemma ConstantsAreMasks()
    ensures NO_FLAGS.Bits() == 0 && SNDMORE.Bits() == 2
  {
  }

  lemma OrIsBitwise(a: Flags, b: Flags)
    ensures a.Or(b).Bits() == a.Bits() | b.Bits()
  {
  }

  lemma MaskIsBitwise(a: Flags)
    ensures a.WithoutMore().Bits() == a.Bits() & !(2 as bv32)
    ensures a.sndMore <==> a.Bits() & 2 != 0
  {
  }
}
