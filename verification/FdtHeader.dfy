/** The blob header: its checks, the slices that it declares, and the bytes that a writer of the ten
    header words puts down.
 */
module FdtHeader {
  import opened Memory
  import opened FdtReader

  const FDT_HEADER_SIZE: nat := 40
  const FDT_MAGIC: nat := 0xd00d_feed
  const SUPPORTED_VERSION: nat := 17
  const EXPECTED_LAST_COMPATIBLE_VERSION: nat := 16

  datatype Slice = Slice(start: nat, end: nat) {
    predicate Holds(at: nat) {
      start <= at < end
    }
  }

  datatype Header = Header(totalSize: nat, structure: Slice, strings: Slice, reservations: nat)

  /** `block_range`; 32-bit fields cannot overflow a 64-bit sum. */
  function BlockRange(offset: nat, size: nat, totalSize: nat): (r: Option<Slice>)
    ensures r.Some? ==> r.value.start <= r.value.end <= totalSize
  {
    if offset + size > totalSize then None else Some(Slice(offset, offset + size))
  }

  /** `Header::new`. */
  function HeaderNew(bytes: seq<byte>): Option<Header>
    requires |bytes| == FDT_HEADER_SIZE
  {
    var totalSize := U32At(bytes, 4);
    var structureOffset, stringsOffset, reservations := U32At(bytes, 8), U32At(bytes, 12), U32At(bytes, 16);
    var version, lastCompatible := U32At(bytes, 20), U32At(bytes, 24);
    var stringsSize, structureSize := U32At(bytes, 32), U32At(bytes, 36);
    if U32At(bytes, 0) != FDT_MAGIC || totalSize < FDT_HEADER_SIZE then None
    else if version != SUPPORTED_VERSION || lastCompatible != EXPECTED_LAST_COMPATIBLE_VERSION then None
    else if reservations % 8 != 0 || structureOffset % 4 != 0 then None
    else if reservations < FDT_HEADER_SIZE then None
    else if structureOffset < FDT_HEADER_SIZE || stringsOffset < FDT_HEADER_SIZE then None
    else if reservations > totalSize then None
    else
      var structure := BlockRange(structureOffset, structureSize, totalSize);
      var strings := BlockRange(stringsOffset, stringsSize, totalSize);
      if structure.None? || strings.None? then None
      else if structure.value.start < strings.value.end && strings.value.start < structure.value.end then None
      else if structure.value.Holds(reservations) || strings.value.Holds(reservations) then None
      else Some(Header(totalSize, structure.value, strings.value, reservations))
  }

  /** Where the reservation block must end: at the nearest block after its start, or the blob's end. */
  method ReservationLimit(h: Header) returns (limit: nat)
    requires h.reservations <= h.totalSize && h.structure.end <= h.totalSize && h.strings.end <= h.totalSize
    requires h.structure.start <= h.structure.end && h.strings.start <= h.strings.end
    ensures limit == LimitOf(h)
  {
    limit := h.totalSize;
    var ranges := [h.structure, h.strings];
    for k := 0 to 2
      invariant k == 0 ==> limit == h.totalSize
      invariant k == 1 ==> limit == Nearer(h.totalSize, h.structure.start, h.reservations)
      invariant k == 2 ==> limit == LimitOf(h)
    {
      if ranges[k].start > h.reservations && ranges[k].start < limit {
        limit := ranges[k].start;
      }
    }
  }

  function Nearer(limit: nat, start: nat, from: nat): nat {
    if from < start < limit then start else limit
  }

  function LimitOf(h: Header): nat {
    Nearer(Nearer(h.totalSize, h.structure.start, h.reservations), h.strings.start, h.reservations)
  }

  /** On every accepted header the three slices and the header itself lie in the blob and share no
      byte, and the reservation slice is cut no shorter than that requires. */
  lemma {:induction false} BlocksDisjoint(bytes: seq<byte>)
    requires |bytes| == FDT_HEADER_SIZE && HeaderNew(bytes).Some?
    ensures var h := HeaderNew(bytes).value;
            var reservations := Slice(h.reservations, LimitOf(h));
            && reservations.start <= reservations.end <= h.totalSize
            && h.structure.start <= h.structure.end <= h.totalSize && h.strings.start <= h.strings.end <= h.totalSize
            && (forall at: nat :: !(h.structure.Holds(at) && h.strings.Holds(at)))
            && (forall at: nat :: !(reservations.Holds(at) && (h.structure.Holds(at) || h.strings.Holds(at))))
            && (forall at: nat :: h.structure.Holds(at) || h.strings.Holds(at) || reservations.Holds(at) ==>
                  at >= FDT_HEADER_SIZE)
            && (reservations.end < h.totalSize ==>
                  reservations.end == h.structure.start || reservations.end == h.strings.start)
            && h.structure.start % 4 == 0 && h.reservations % 8 == 0
  {
    hide U32At;
  }

  // ----- The header as written

  /** The header's ten words in the order of section 5.2. */
  datatype HeaderWords = HeaderWords(
    magic: nat, totalSize: nat, structureOffset: nat, stringsOffset: nat, reservationsOffset: nat,
    version: nat, lastCompatible: nat, bootCpu: nat, stringsSize: nat, structureSize: nat)
  {
    function InOrder(): (words: seq<nat>)
      ensures |words| == 10
    {
      [magic, totalSize, structureOffset, stringsOffset, reservationsOffset,
       version, lastCompatible, bootCpu, stringsSize, structureSize]
    }

    predicate Valid() {
      AllWords(InOrder())
    }

    /** Where the blocks lie. */
    function Structure(): Slice {
      Slice(structureOffset, structureOffset + structureSize)
    }

    function Strings(): Slice {
      Slice(stringsOffset, stringsOffset + stringsSize)
    }

    /** What a sound header declares. */
    function Declared(): Header {
      Header(totalSize, Structure(), Strings(), reservationsOffset)
    }

    /** The magic number, the supported version, aligned offsets behind the header, and blocks inside the
        blob that do not run into each other. */
    predicate Sound() {
      && magic == 0xd00dfeed && version == 17 && lastCompatible == 16
      && structureOffset % 4 == 0 && reservationsOffset % 8 == 0
      && 40 <= structureOffset && 40 <= stringsOffset && 40 <= reservationsOffset <= totalSize
      && structureOffset + structureSize <= totalSize && stringsOffset + stringsSize <= totalSize
      && (structureOffset + structureSize <= stringsOffset || stringsOffset + stringsSize <= structureOffset)
      && !(structureOffset <= reservationsOffset < structureOffset + structureSize)
      && !(stringsOffset <= reservationsOffset < stringsOffset + stringsSize)
    }
  }

  predicate AllWords(words: seq<nat>) {
    forall k :: 0 <= k < |words| ==> words[k] < 0x1_0000_0000
  }

  function PrintWords(words: seq<nat>): (bytes: seq<byte>)
    requires AllWords(words)
    ensures |bytes| == 4 * |words|
  {
    if words == [] then [] else Be32(words[0]) + PrintWords(words[1..])
  }

  /** The header's bytes. */
  function Print(w: HeaderWords): (bytes: seq<byte>)
    requires w.Valid()
    ensures |bytes| == 40
  {
    PrintWords(w.InOrder())
  }

  lemma {:induction false} LaterWord(bytes: seq<byte>, head: seq<byte>, tail: seq<byte>, at: nat)
    requires bytes == head + tail && |head| <= at && at + 4 <= |bytes|
    ensures U32At(bytes, at) == U32At(tail, at - |head|)
  {
  }

  lemma {:induction false} WordPrefix(head: seq<byte>, tail: seq<byte>)
    requires |head| == 4
    ensures U32At(head + tail, 0) == U32At(head, 0)
  {
  }

  lemma {:induction false} PrintedWord(words: seq<nat>, k: nat)
    requires AllWords(words) && k < |words|
    ensures U32At(PrintWords(words), 4 * k) == words[k]
  {
    hide U32At, Be32;
    if k == 0 {
      WordPrefix(Be32(words[0]), PrintWords(words[1..]));
    } else {
      LaterWord(PrintWords(words), Be32(words[0]), PrintWords(words[1..]), 4 * k);
      PrintedWord(words[1..], k - 1);
    }
  }

  /** The header's fields read from written words. */
  lemma {:induction false} PrintedFields(w: HeaderWords)
    requires w.Valid()
    ensures var bytes := Print(w);
            && U32At(bytes, 0) == w.magic && U32At(bytes, 4) == w.totalSize
            && U32At(bytes, 8) == w.structureOffset && U32At(bytes, 12) == w.stringsOffset
            && U32At(bytes, 16) == w.reservationsOffset && U32At(bytes, 20) == w.version
            && U32At(bytes, 24) == w.lastCompatible && U32At(bytes, 28) == w.bootCpu
            && U32At(bytes, 32) == w.stringsSize && U32At(bytes, 36) == w.structureSize
  {
    hide U32At, PrintWords;
    var words := w.InOrder();
    PrintedWord(words, 0);
    PrintedWord(words, 1);
    PrintedWord(words, 2);
    PrintedWord(words, 3);
    PrintedWord(words, 4);
    PrintedWord(words, 5);
    PrintedWord(words, 6);
    PrintedWord(words, 7);
    PrintedWord(words, 8);
    PrintedWord(words, 9);
  }

  /** A written header is accepted exactly when it is sound, and gives back its total size, its structure
      and strings slices and its reservation offset. */
  lemma {:induction false} HeaderRead(w: HeaderWords)
    requires w.Valid()
    ensures HeaderNew(Print(w)) ==
            if w.Sound() then Some(Header(w.totalSize, w.Structure(), w.Strings(), w.reservationsOffset)) else None
    ensures w.Declared() == Header(w.totalSize, w.Structure(), w.Strings(), w.reservationsOffset)
  {
    hide U32At, Print;
    PrintedFields(w);
  }

  /** Any forty bytes are a written header. */
  lemma {:induction false} HeaderWritten(bytes: seq<byte>) returns (w: HeaderWords)
    requires |bytes| == FDT_HEADER_SIZE
    ensures w.Valid() && Print(w) == bytes
  {
    hide U32At, Be32;
    var words := WordsWritten(bytes);
    w := HeaderWords(words[0], words[1], words[2], words[3], words[4], words[5], words[6], words[7], words[8],
                     words[9]);
    assert w.InOrder() == words;
  }

  lemma {:induction false} WordsWritten(bytes: seq<byte>) returns (words: seq<nat>)
    requires |bytes| % 4 == 0
    ensures AllWords(words) && PrintWords(words) == bytes
    decreases |bytes|
  {
    hide U32At, Be32;
    if bytes == [] {
      words := [];
    } else {
      var head, tail := bytes[..4], bytes[4..];
      var rest := WordsWritten(tail);
      U32Unique(head);
      words := [U32At(head, 0)] + rest;
      assert words[1..] == rest;
      assert bytes == head + tail;
    }
  }
}
