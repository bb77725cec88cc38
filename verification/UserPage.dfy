/** Frames as bytes, and the loading of one user page.
 */
module UserPage {
  import opened Memory
  import opened Sv39
  import opened PageTable
  import opened KernelPaging

  // ----- Bytes and words

  predicate IsBytes(bytes: seq<nat>) {
    forall k :: 0 <= k < |bytes| ==> bytes[k] < 256
  }

  /** Little-endian value of a byte sequence. */
  function FromLE(bytes: seq<nat>): nat {
    if bytes == [] then 0 else bytes[0] + 256 * FromLE(bytes[1..])
  }

  /** Little-endian encoding with a fixed number of bytes. */
  function ToLE(n: nat, count: nat): (bytes: seq<nat>)
    ensures |bytes| == count && IsBytes(bytes)
  {
    if count == 0 then [] else [n % 256] + ToLE(n / 256, count - 1)
  }

  /** Byte `i` of a little-endian word. */
  function ByteOf(word: nat, i: nat): (b: nat)
    ensures b < 256
  {
    if i == 0 then word % 256 else ByteOf(word / 256, i - 1)
  }

  function Power256(count: nat): (p: nat)
    ensures p > 0
  {
    if count == 0 then 1 else 256 * Power256(count - 1)
  }

  lemma {:induction false} ByteOfLE(bytes: seq<nat>, i: nat)
    requires IsBytes(bytes) && i < |bytes|
    ensures ByteOf(FromLE(bytes), i) == bytes[i]
  {
    var rest := FromLE(bytes[1..]);
    assert (bytes[0] + 256 * rest) / 256 == rest && (bytes[0] + 256 * rest) % 256 == bytes[0];
    if i > 0 {
      ByteOfLE(bytes[1..], i - 1);
    }
  }

  /** Byte `i` of a word is its digit of weight 256^i. */
  lemma {:induction false} ByteIsDigit(word: nat, i: nat)
    ensures ByteOf(word, i) == word / Power256(i) % 256
  {
    if i > 0 {
      ByteIsDigit(word / 256, i - 1);
      NestedQuotient(word, Power256(i - 1));
    }
  }

  lemma {:induction false} NestedQuotient(n: nat, m: nat)
    requires m > 0
    ensures n / 256 / m == n / (256 * m)
  {
    var q := n / 256 / m;
    var r := n / 256 % m;
    assert n / 256 == m * q + r;
    assert n == 256 * (m * q + r) + n % 256;
    assert n == (256 * m) * q + (256 * r + n % 256);
    QuotientIs(n, 256 * m, q, 256 * r + n % 256);
  }

  lemma {:induction false} LEBytes(n: nat, count: nat, k: nat)
    requires k < count
    ensures ToLE(n, count)[k] == ByteOf(n, k)
  {
    if k > 0 {
      LEBytes(n / 256, count - 1, k - 1);
    }
  }

  lemma {:induction false} LERoundTrip(n: nat, count: nat)
    requires n < Power256(count)
    ensures FromLE(ToLE(n, count)) == n
  {
    if count > 0 {
      LERoundTrip(n / 256, count - 1);
      assert ToLE(n, count)[1..] == ToLE(n / 256, count - 1);
    }
  }

  lemma {:induction false} LEInverse(bytes: seq<nat>)
    requires IsBytes(bytes)
    ensures ToLE(FromLE(bytes), |bytes|) == bytes && FromLE(bytes) < Power256(|bytes|)
  {
    if bytes != [] {
      var rest := FromLE(bytes[1..]);
      LEInverse(bytes[1..]);
      assert (bytes[0] + 256 * rest) / 256 == rest && (bytes[0] + 256 * rest) % 256 == bytes[0];
      assert [bytes[0]] + bytes[1..] == bytes;
    }
  }

  /** Byte `k` of a frame. */
  function ByteAt(words: seq<nat>, k: nat): (b: nat)
    requires |words| == ENTRIES && k < FRAME_SIZE
    ensures b < 256
  {
    ByteOf(words[k / 8], k % 8)
  }

  /** A frame's contents after copying `bytes` to its start. */
  function Overlay(words: seq<nat>, bytes: seq<nat>): (r: seq<nat>)
    requires |words| == ENTRIES && |bytes| <= FRAME_SIZE
    ensures |r| == ENTRIES
  {
    seq(ENTRIES, (j: int) requires 0 <= j < ENTRIES => FromLE(MixedBytes(words, bytes, j)))
  }

  function MixedBytes(words: seq<nat>, bytes: seq<nat>, j: nat): (r: seq<nat>)
    requires |words| == ENTRIES && |bytes| <= FRAME_SIZE && j < ENTRIES
    ensures |r| == 8
    ensures forall i :: 0 <= i < 8 ==> r[i] == MixedByte(words, bytes, 8 * j + i)
  {
    seq<nat>(8, i requires 0 <= i < 8 => MixedByte(words, bytes, 8 * j + i))
  }

  function MixedByte(words: seq<nat>, bytes: seq<nat>, k: nat): nat
    requires |words| == ENTRIES && |bytes| <= FRAME_SIZE && k < FRAME_SIZE
  {
    if k < |bytes| then bytes[k] else ByteAt(words, k)
  }

  /** Copying replaces exactly the copied bytes. */
  lemma {:induction false} OverlayBytes(words: seq<nat>, bytes: seq<nat>, k: nat)
    requires |words| == ENTRIES && |bytes| <= FRAME_SIZE && IsBytes(bytes) && k < FRAME_SIZE
    ensures ByteAt(Overlay(words, bytes), k) == if k < |bytes| then bytes[k] else ByteAt(words, k)
  {
    var j, i := k / 8, k % 8;
    assert 8 * j + i == k;
    ByteOfLE(MixedBytes(words, bytes, j), i);
  }

  lemma {:induction false} ZeroBytes(i: nat)
    ensures ByteOf(0, i) == 0
  {
    if i > 0 {
      ZeroBytes(i - 1);
    }
  }

  // ----- One page

  /** `image::map_page`: a fresh zeroed frame, filled from its start, mapped for user code. */
  function LoadPage(s: State, root: nat, va: nat, bytes: seq<nat>, permissions: Permissions): Step<()>
    requires |bytes| <= FRAME_SIZE
  {
    if s.rest == [] then Step(s, Err(OutOfPhysicalFrames))
    else
      var frame, taken := s.rest[0], s.(rest := s.rest[1..]);
      if frame >= PPN_LIMIT then Step(taken, Err(PhysicalAddressNotRepresentable))
      else MapUserPage(taken.(mem := taken.mem[frame := Contents(bytes)]), root, va, frame, permissions)
  }

  /** What a fresh frame holds after zeroing and copying. */
  function Contents(bytes: seq<nat>): (words: seq<nat>)
    requires |bytes| <= FRAME_SIZE
    ensures |words| == ENTRIES
  {
    if bytes == [] then Zeros() else Overlay(Zeros(), bytes)
  }

  lemma {:induction false} ContentsBytes(bytes: seq<nat>, k: nat)
    requires |bytes| <= FRAME_SIZE && IsBytes(bytes) && k < FRAME_SIZE
    ensures ByteAt(Contents(bytes), k) == if k < |bytes| then bytes[k] else 0
  {
    ZeroBytes(k % 8);
    if bytes != [] {
      OverlayBytes(Zeros(), bytes, k);
    }
  }
}
