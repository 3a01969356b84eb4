/** Guest address ranges, permissions and mapping intents. */
module GuestRanges {
  import opened Machine

  /** A half-open range of guest addresses. A range may end exactly at 2^64. */
  datatype RawRange = RawRange(base: u64, size: u64)

  type GuestRange = r: RawRange | r.size > 0 ==> r.base + r.size <= TWO64
    witness RawRange(0, 0)

  /** `GuestRange::create`: refuses a range whose last byte is not representable, so base + size may
      be 2^64 but not more. */
  function CreateRange(base: u64, size: u64): (r: Option<GuestRange>)
    ensures r.Some? <==> size == 0 || base + size <= TWO64
    ensures r.Some? ==> r.value.base == base && r.value.size == size
  {
    if size > 0 && base > U64_MAX - (size - 1) then None else Some(RawRange(base, size))
  }

  predicate Contains(r: GuestRange, a: int) {
    r.base <= a < r.base + r.size
  }

  /** `GuestRange::overlaps`, written as the source does: one range contains the other's base. */
  predicate Overlaps(a: GuestRange, b: GuestRange) {
    a.size > 0 && b.size > 0 && (Contains(a, b.base) || Contains(b, a.base))
  }

  /** Two ranges overlap exactly when they share an address. */
  lemma OverlapsIffShared(a: GuestRange, b: GuestRange)
    ensures Overlaps(a, b) <==> exists x :: Contains(a, x) && Contains(b, x)
  {
    if Overlaps(a, b) {
      assert Contains(a, b.base) ==> Contains(b, b.base);
      assert Contains(b, a.base) ==> Contains(a, a.base);
    }
  }

  datatype Permissions = Permissions(read: bool, write: bool, execute: bool)

  function Union(a: Permissions, b: Permissions): (r: Permissions) {
    Permissions(a.read || b.read, a.write || b.write, a.execute || b.execute)
  }

  datatype MappingIntent = MappingIntent(range: GuestRange, permissions: Permissions, sourceIndex: u64)
}
