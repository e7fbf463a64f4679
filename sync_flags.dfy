/** The synchronisation result flags of a device list element (KLST_SYNC_FLAG).
    The C enum is a bit set over a 32-bit integer; each flag is one bit and
    SYNC_FLAG_MASK covers all three. */
module SyncFlags {

  const SYNC_FLAG_NONE: bv32 := 0
  const SYNC_FLAG_UNCHANGED: bv32 := 1 << 0
  const SYNC_FLAG_ADDED: bv32 := 1 << 1
  const SYNC_FLAG_REMOVED: bv32 := 1 << 2
  /** The mask is written in terms of the highest flag: every bit below it, plus it. */
  const SYNC_FLAG_MASK: bv32 := (SYNC_FLAG_REMOVED - 1) | SYNC_FLAG_REMOVED

  datatype Option<T> = None | Some(value: T)

  /** The sync state of one element, as a tagged value instead of the union view. */
  datatype SyncFlag = NoneFlag | Unchanged | Added | Removed

  predicate IsSingleBit(b: bv32) {
    b != 0 && b & (b - 1) == 0
  }

  /** The enum value that stands for a sync state. */
  function ToBits(f: SyncFlag): (b: bv32)
    ensures b & SYNC_FLAG_MASK == b
    ensures f != NoneFlag <==> IsSingleBit(b)
    ensures (b & SYNC_FLAG_UNCHANGED != 0) <==> f == Unchanged
    ensures (b & SYNC_FLAG_ADDED != 0) <==> f == Added
    ensures (b & SYNC_FLAG_REMOVED != 0) <==> f == Removed
  {
    match f
    case NoneFlag => SYNC_FLAG_NONE
    case Unchanged => SYNC_FLAG_UNCHANGED
    case Added => SYNC_FLAG_ADDED
    case Removed => SYNC_FLAG_REMOVED
  }

  /** Reads an enum value back as a sync state; a combination of bits (or a
      bit outside the mask) is not one of the four states. */
  function FromBits(b: bv32): (r: Option<SyncFlag>)
    ensures r.Some? <==> (b == 0 || (IsSingleBit(b) && b & SYNC_FLAG_MASK == b))
    ensures r.Some? ==> ToBits(r.value) == b
  {
    if b == SYNC_FLAG_NONE then Some(NoneFlag)
    else if b == SYNC_FLAG_UNCHANGED then Some(Unchanged)
    else if b == SYNC_FLAG_ADDED then Some(Added)
    else if b == SYNC_FLAG_REMOVED then Some(Removed)
    else None
  }

  /** The three flags are distinct single bits 1, 2 and 4, and the mask is
      their union, 7. */
  lemma FlagLayout()
    ensures SYNC_FLAG_UNCHANGED == 1 && SYNC_FLAG_ADDED == 2 && SYNC_FLAG_REMOVED == 4
    ensures IsSingleBit(SYNC_FLAG_UNCHANGED) && IsSingleBit(SYNC_FLAG_ADDED) && IsSingleBit(SYNC_FLAG_REMOVED)
    ensures SYNC_FLAG_UNCHANGED & SYNC_FLAG_ADDED == 0
    ensures SYNC_FLAG_UNCHANGED & SYNC_FLAG_REMOVED == 0
    ensures SYNC_FLAG_ADDED & SYNC_FLAG_REMOVED == 0
    ensures SYNC_FLAG_MASK == SYNC_FLAG_UNCHANGED | SYNC_FLAG_ADDED | SYNC_FLAG_REMOVED
    ensures SYNC_FLAG_MASK == 7
  {
  }

  /** Decoding inverts encoding for every sync state. */
  lemma BitsRoundTrip(f: SyncFlag)
    ensures FromBits(ToBits(f)) == Some(f)
  {
  }
}
