/** `gfsim/core.h`: epochs, the integer widths and the invalid object id. */
module Core {

  const MAX_U32: nat := 0xFFFF_FFFF
  const MAX_U64: nat := 0xFFFF_FFFF_FFFF_FFFF

  /** `kInvalidObjectId`. */
  const INVALID_OBJECT: nat := 0xFFFF_FFFF

  /** `Epoch`: a tick and a causal delta within it, compared lexicographically. */
  datatype Time = Time(tick: nat, delta: nat) {

    predicate Before(that: Time) {
      tick < that.tick || (tick == that.tick && delta < that.delta)
    }

    predicate NotAfter(that: Time) { this == that || Before(that) }
  }
}
