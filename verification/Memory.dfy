/** Machine words, physical ranges and frame alignment, shared by the kernel's
    memory-management modules.

    Addresses are naturals below `U64`; every place where the kernel relies on
    checked 64-bit arithmetic is written out as a bound test.
 */
module Memory {
  /** One more than the largest machine word. */
  const U64: nat := 0x1_0000_0000_0000_0000

  /** Bytes in one frame and in one Sv39 page. */
  const FRAME_SIZE: nat := 4096

  datatype Option<+T> = None | Some(value: T)

  /** A half-open physical byte range; the kernel only builds non-empty ones. */
  datatype PhysRange = PhysRange(start: nat, end: nat) {
    predicate Valid() {
      start < end < U64
    }

    predicate Holds(address: nat) {
      start <= address < end
    }

    predicate Overlaps(other: PhysRange) {
      start < other.end && other.start < end
    }
  }

  /** `PhysRange::from_start_size`: refuses empty and unrepresentable ranges. */
  function FromStartSize(start: nat, size: nat): (r: Option<PhysRange>)
    ensures r.Some? <==> 0 < size && start + size < U64
    ensures r.Some? ==> r.value.Valid() && r.value.start == start && r.value.end - start == size
  {
    if size == 0 || start + size >= U64 then None else Some(PhysRange(start, start + size))
  }

  /** The byte range of frame number `f`. */
  function FrameRange(f: nat): PhysRange {
    PhysRange(f * FRAME_SIZE, f * FRAME_SIZE + FRAME_SIZE)
  }

  /** Non-empty ranges overlap exactly when they share an address; meeting at an end is not enough. */
  lemma {:induction false} OverlapsExactly(a: PhysRange, b: PhysRange)
    requires a.start < a.end && b.start < b.end
    ensures a.Overlaps(b) <==> exists address: nat :: a.Holds(address) && b.Holds(address)
  {
    if a.Overlaps(b) {
      var shared := if a.start < b.start then b.start else a.start;
      assert a.Holds(shared) && b.Holds(shared);
    }
  }

  /** A frame holds the addresses whose quotient by the frame size is its number. */
  lemma {:induction false} FrameHolds(f: nat, address: nat)
    ensures FrameRange(f).Holds(address) <==> address / 4096 == f
  {
  }

  /** Rounds up to a frame boundary, or fails when that boundary needs 65 bits. */
  function AlignUp(address: nat): (r: Option<nat>)
    requires address < U64
    ensures r.Some? ==> r.value % FRAME_SIZE == 0 && address <= r.value < address + FRAME_SIZE && r.value < U64
    ensures r.None? <==> address > U64 - FRAME_SIZE
  {
    var remainder := address % FRAME_SIZE;
    if remainder == 0 then Some(address)
    else if address + (FRAME_SIZE - remainder) < U64 then Some(address + (FRAME_SIZE - remainder))
    else None
  }

  /** Rounds down to a frame boundary. */
  function AlignDown(address: nat): (r: nat)
    ensures r % FRAME_SIZE == 0 && r <= address < r + FRAME_SIZE
  {
    address - address % FRAME_SIZE
  }

  lemma {:induction false} QuotientIs(n: nat, m: nat, q: nat, r: nat)
    requires m > 0 && n == m * q + r && r < m
    ensures n / m == q
  {
    var i: int := m;
    var d: int := n / m - q;
    assert n == i * (n / m) + n % m;
    assert i * d == r - n % m;
    assert d >= 1 ==> i * d >= i;
    assert d <= -1 ==> i * d <= -i;
  }
}
