/** The whole blob: the reservation block, and the slicing that ties the blocks together. */
module FdtBlob {
  import opened Memory
  import opened FdtReader
  import opened FdtItems
  import opened FdtTree
  import opened FdtStructure
  import opened FdtViews
  import opened FdtSemantics
  import opened FdtPrinting
  import opened FdtHeader

  // ----- The reservation block

  type Entry = (nat, nat)

  function EntryOf(bytes: seq<byte>, k: nat): Entry
    requires 16 * k + 16 <= |bytes|
  {
    (BigEndian(bytes[16 * k..16 * k + 8]), BigEndian(bytes[16 * k + 8..16 * k + 16]))
  }

  /** Entry `n` is the first `(0, 0)`. */
  predicate TerminatedAt(bytes: seq<byte>, n: nat) {
    && 16 * n + 16 <= |bytes| && EntryOf(bytes, n) == (0, 0)
    && forall k :: 0 <= k < n ==> EntryOf(bytes, k) != (0, 0)
  }

  function FirstEntries(bytes: seq<byte>, n: nat): (s: seq<Entry>)
    requires 16 * n <= |bytes|
    ensures |s| == n && forall k :: 0 <= k < n ==> s[k] == EntryOf(bytes, k)
  {
    seq(n, k requires 0 <= k < n => EntryOf(bytes, k))
  }

  predicate EntryFits(e: Entry) {
    e.0 + e.1 < U64
  }

  predicate Clash(a: Entry, b: Entry) {
    a.1 > 0 && b.1 > 0 && a.0 < b.0 + b.1 && b.0 < a.0 + a.1
  }

  predicate EntriesFit(entries: seq<Entry>) {
    forall k :: 0 <= k < |entries| ==> EntryFits(entries[k])
  }

  predicate NoClash(entries: seq<Entry>) {
    forall i, j :: 0 <= i < j < |entries| ==> !Clash(entries[i], entries[j])
  }

  lemma {:induction false} EntryShift(bytes: seq<byte>, k: nat)
    requires 16 * (k + 1) + 16 <= |bytes|
    ensures EntryOf(bytes[16..], k) == EntryOf(bytes, k + 1)
  {
    var rest := bytes[16..];
    assert rest[16 * k..16 * k + 8] == bytes[16 * (k + 1)..16 * (k + 1) + 8];
    assert rest[16 * k + 8..16 * k + 16] == bytes[16 * (k + 1) + 8..16 * (k + 1) + 16];
  }

  lemma {:induction false} TerminatedShift(bytes: seq<byte>, n: nat)
    requires TerminatedAt(bytes, n) && n > 0
    ensures TerminatedAt(bytes[16..], n - 1) && FirstEntries(bytes[16..], n - 1) == FirstEntries(bytes, n)[1..]
  {
    hide EntryOf;
    forall k: nat | k < n ensures EntryOf(bytes[16..], k) == EntryOf(bytes, k + 1) {
      EntryShift(bytes, k);
    }
  }

  /** The iterator over a reservation block that ends in its terminator. */
  class MemoryReservations {
    var bytes: seq<byte>
    ghost var left: nat

    ghost predicate Valid()
      reads this
    {
      bytes != [] ==> TerminatedAt(bytes, left)
    }

    ghost function Todo(): seq<Entry>
      requires Valid()
      reads this
    {
      if bytes == [] then [] else FirstEntries(bytes, left)
    }

    constructor (bytes: seq<byte>, ghost left: nat)
      requires bytes != [] ==> TerminatedAt(bytes, left)
      ensures Valid() && this.bytes == bytes && this.left == left
      ensures bytes != [] ==> Todo() == FirstEntries(bytes, left)
    {
      this.bytes := bytes;
      this.left := left;
    }

    method Next() returns (r: Option<Entry>)
      requires Valid()
      modifies this
      ensures Valid()
      ensures r.None? <==> old(Todo()) == []
      ensures r.None? ==> Todo() == []
      ensures r.Some? ==> r.value == old(Todo())[0] && Todo() == old(Todo())[1..]
    {
      hide BigEndian;
      if |bytes| < 16 {
        return None;
      }
      var address, size := BigEndian(bytes[..8]), BigEndian(bytes[8..16]);
      ghost var first := EntryOf(bytes, 0);
      assert bytes[0..8] == bytes[..8];
      if address == 0 && size == 0 {
        bytes := [];
        return None;
      }
      TerminatedShift(bytes, left);
      bytes := bytes[16..];
      left := left - 1;
      return Some((address, size));
    }
  }

  /** `validate_no_overlaps`: each entry against every later one. */
  method ValidateNoOverlaps(bytes: seq<byte>, ghost n: nat) returns (ok: bool)
    requires TerminatedAt(bytes, n) && EntriesFit(FirstEntries(bytes, n))
    ensures ok == NoClash(FirstEntries(bytes, n))
  {
    hide MemoryReservations.Valid, MemoryReservations.Todo, EntryOf, Clash, ClashesBefore, ClashesWith;
    ghost var entries := FirstEntries(bytes, n);
    var remaining := new MemoryReservations(bytes, n);
    hide TerminatedAt, FirstEntries, NoClash;
    NoneBefore(entries);
    ghost var passed: nat := 0;
    while true
      invariant fresh(remaining) && remaining.Valid()
      invariant passed <= |entries| && remaining.Todo() == entries[passed..] && !ClashesBefore(entries, passed)
      decreases |entries| - passed
    {
      EntriesAfter(entries, passed);
      OneMoreClear(entries, passed);
      var first := remaining.Next();
      if first.None? {
        return true;
      }
      if first.value.1 != 0 {
        var clear := ClearOf(first.value, remaining, entries, passed);
        if !clear {
          return false;
        }
      } else {
        EmptyNeverClashes(entries, passed);
      }
      passed := passed + 1;
    }
  }

  /** Entry `k` clashes with a later one among the first `end`. */
  predicate ClashesWith(entries: seq<Entry>, k: nat, end: nat)
    requires k < |entries|
  {
    exists j :: k < j < end <= |entries| && Clash(entries[k], entries[j])
  }

  /** One of the first `passed` entries clashes with a later one. */
  predicate ClashesBefore(entries: seq<Entry>, passed: nat) {
    exists i :: 0 <= i < passed <= |entries| && ClashesWith(entries, i, |entries|)
  }

  lemma {:induction false} NoneBefore(entries: seq<Entry>)
    ensures !ClashesBefore(entries, 0)
    ensures NoClash(entries) == !ClashesBefore(entries, |entries|)
  {
    hide Clash;
    if ClashesBefore(entries, |entries|) {
      var i :| 0 <= i < |entries| && ClashesWith(entries, i, |entries|);
      var j :| i < j < |entries| && Clash(entries[i], entries[j]);
    }
    if !NoClash(entries) {
      var i, j :| 0 <= i < j < |entries| && Clash(entries[i], entries[j]);
      assert ClashesWith(entries, i, |entries|);
    }
  }

  lemma {:induction false} OneMoreClear(entries: seq<Entry>, k: nat)
    requires k <= |entries| && !ClashesBefore(entries, k)
    ensures k < |entries| ==> ClashesBefore(entries, k + 1) == ClashesWith(entries, k, |entries|)
    ensures k < |entries| && ClashesWith(entries, k, |entries|) ==> ClashesBefore(entries, |entries|)
  {
    hide ClashesWith;
  }

  lemma {:induction false} EntriesAfter(entries: seq<Entry>, k: nat)
    requires k <= |entries|
    ensures k < |entries| ==> entries[k..][0] == entries[k] && entries[k..][1..] == entries[k + 1..]
  {
  }

  lemma {:induction false} EmptyNeverClashes(entries: seq<Entry>, k: nat)
    requires k < |entries| && entries[k].1 == 0
    ensures !ClashesWith(entries, k, |entries|)
  {
  }

  /** The inner loop, over a copy of the remaining iterator. */
  method ClearOf(first: Entry, remaining: MemoryReservations, ghost entries: seq<Entry>, ghost k: nat)
    returns (ok: bool)
    requires remaining.Valid() && k < |entries| && remaining.Todo() == entries[k + 1..] && first == entries[k]
    requires first.1 > 0
    ensures ok == !ClashesWith(entries, k, |entries|)
  {
    var copy := new MemoryReservations(remaining.bytes, remaining.left);
    hide MemoryReservations.Valid, MemoryReservations.Todo, ClashesWith, TerminatedAt, FirstEntries, EntryOf;
    ClashesStart(entries, k);
    ghost var passed: nat := k + 1;
    while true
      invariant fresh(copy) && copy.Valid()
      invariant passed <= |entries| && copy.Todo() == entries[passed..] && !ClashesWith(entries, k, passed)
      decreases |entries| - passed
    {
      EntriesAfter(entries, passed);
      ClashesStep(entries, k, passed);
      var second := copy.Next();
      if second.None? {
        return true;
      }
      if second.value.1 != 0 {
        if first.0 < second.value.0 + second.value.1 && second.value.0 < first.0 + first.1 {
          return false;
        }
      }
      passed := passed + 1;
    }
  }

  lemma {:induction false} ClashesStart(entries: seq<Entry>, k: nat)
    requires k < |entries|
    ensures !ClashesWith(entries, k, k + 1)
  {
  }

  lemma {:induction false} ClashesStep(entries: seq<Entry>, k: nat, end: nat)
    requires k < end <= |entries| && !ClashesWith(entries, k, end)
    ensures end < |entries| ==> ClashesWith(entries, k, end + 1) == Clash(entries[k], entries[end])
    ensures end < |entries| && Clash(entries[k], entries[end]) ==> ClashesWith(entries, k, |entries|)
  {
    hide Clash;
  }

  /** A block that is terminated, whose entries fit in 64 bits and do not overlap. */
  predicate ReservationsOk(bytes: seq<byte>, n: nat) {
    TerminatedAt(bytes, n) && EntriesFit(FirstEntries(bytes, n)) && NoClash(FirstEntries(bytes, n))
  }

  // ----- The reservation block as written

  /** An entry: its address, then its size, in eight bytes each. */
  function PrintEntry(e: Entry): (bytes: seq<byte>)
    ensures |bytes| == 16
  {
    Digits(e.0, 8) + Digits(e.1, 8)
  }

  function PrintEntries(entries: seq<Entry>): (bytes: seq<byte>)
    ensures |bytes| == 16 * |entries|
  {
    if entries == [] then [] else PrintEntry(entries[0]) + PrintEntries(entries[1..])
  }

  /** Entries that can be listed: none is the terminator, each ends below 2^64, and no two that are not
      empty share a byte. */
  predicate Listable(entries: seq<Entry>) {
    && (forall k :: 0 <= k < |entries| ==>
          entries[k] != (0, 0) && entries[k].0 + entries[k].1 < 0x1_0000_0000_0000_0000)
    && (forall i, j :: 0 <= i < j < |entries| && entries[i].1 > 0 && entries[j].1 > 0 ==>
          entries[i].0 + entries[i].1 <= entries[j].0 || entries[j].0 + entries[j].1 <= entries[i].0)
  }

  lemma {:induction false} EntryRead(e: Entry, rest: seq<byte>)
    requires e.0 < 0x1_0000_0000_0000_0000 && e.1 < 0x1_0000_0000_0000_0000
    ensures EntryOf(PrintEntry(e) + rest, 0) == e && (PrintEntry(e) + rest)[16..] == rest
  {
    hide BigEndian, Digits, Limit;
    FourBytes();
    DigitsRead(e.0, 8);
    DigitsRead(e.1, 8);
    var bytes := PrintEntry(e) + rest;
    assert bytes[16 * 0..16 * 0 + 8] == Digits(e.0, 8);
    assert bytes[16 * 0 + 8..16 * 0 + 16] == Digits(e.1, 8);
  }

  /** Written entries are read back at their places. */
  lemma {:induction false} EntriesRead(entries: seq<Entry>, rest: seq<byte>, k: nat)
    requires k < |entries|
    requires forall j :: 0 <= j < |entries| ==>
               entries[j].0 < 0x1_0000_0000_0000_0000 && entries[j].1 < 0x1_0000_0000_0000_0000
    ensures EntryOf(PrintEntries(entries) + rest, k) == entries[k]
    decreases k
  {
    hide EntryOf, PrintEntry;
    var bytes, later := PrintEntries(entries) + rest, PrintEntries(entries[1..]) + rest;
    assert bytes == PrintEntry(entries[0]) + later;
    EntryRead(entries[0], later);
    if k > 0 {
      EntriesRead(entries[1..], rest, k - 1);
      EntryShift(bytes, k - 1);
    }
  }

  lemma {:induction false} EntryWritten(bytes: seq<byte>, k: nat)
    requires 16 * k + 16 <= |bytes|
    ensures var e := EntryOf(bytes, k);
            && PrintEntry(e) == bytes[16 * k..16 * k + 16]
            && e.0 < 0x1_0000_0000_0000_0000 && e.1 < 0x1_0000_0000_0000_0000
  {
    hide BigEndian, Digits, Limit;
    FourBytes();
    ReadDigits(bytes[16 * k..16 * k + 8]);
    ReadDigits(bytes[16 * k + 8..16 * k + 16]);
    assert bytes[16 * k..16 * k + 16] == bytes[16 * k..16 * k + 8] + bytes[16 * k + 8..16 * k + 16];
  }

  lemma {:induction false} ReadEntries(bytes: seq<byte>, n: nat)
    requires 16 * n <= |bytes|
    ensures PrintEntries(FirstEntries(bytes, n)) == bytes[..16 * n]
    decreases n
  {
    hide EntryOf, PrintEntry;
    if n > 0 {
      EntryWritten(bytes, 0);
      ReadEntries(bytes[16..], n - 1);
      var first, later := FirstEntries(bytes, n), FirstEntries(bytes[16..], n - 1);
      forall k: nat | k < n - 1 ensures first[1..][k] == later[k] {
        EntryShift(bytes, k);
      }
      assert first[1..] == later;
      assert bytes[..16 * n] == bytes[..16] + bytes[16..][..16 * (n - 1)];
    }
  }

  /** A reservation block is sound exactly when it starts with the writing of listable entries and a zero
      entry after them, and those are the entries that are read. */
  lemma {:induction false} ReservationsWritten(bytes: seq<byte>, n: nat)
    ensures ReservationsOk(bytes, n) <==>
            exists entries: seq<Entry> ::
              |entries| == n && Listable(entries) && PrintEntries(entries) + PrintEntry((0, 0)) <= bytes
    ensures forall entries: seq<Entry> ::
              |entries| == n && Listable(entries) && PrintEntries(entries) + PrintEntry((0, 0)) <= bytes ==>
                FirstEntries(bytes, n) == entries
  {
    hide EntryOf, PrintEntry, PrintEntries, FirstEntries;
    if ReservationsOk(bytes, n) {
      var entries := FirstEntries(bytes, n);
      SoundIsListable(bytes, n);
      ReadEntries(bytes, n);
      EntryWritten(bytes, n);
      assert bytes[..16 * n + 16] == bytes[..16 * n] + bytes[16 * n..16 * n + 16];
      assert PrintEntries(entries) + PrintEntry((0, 0)) <= bytes;
    }
    forall entries: seq<Entry> | |entries| == n && Listable(entries)
                                 && PrintEntries(entries) + PrintEntry((0, 0)) <= bytes
      ensures ReservationsOk(bytes, n) && FirstEntries(bytes, n) == entries
    {
      ListedIsSound(bytes, entries);
    }
  }

  lemma {:induction false} SoundIsListable(bytes: seq<byte>, n: nat)
    requires ReservationsOk(bytes, n)
    ensures Listable(FirstEntries(bytes, n))
  {
    hide EntryOf;
    var entries := FirstEntries(bytes, n);
    forall i, j | 0 <= i < j < |entries| && entries[i].1 > 0 && entries[j].1 > 0
      ensures entries[i].0 + entries[i].1 <= entries[j].0 || entries[j].0 + entries[j].1 <= entries[i].0
    {
      assert !Clash(entries[i], entries[j]);
    }
    forall k | 0 <= k < |entries| ensures entries[k] != (0, 0) && EntryFits(entries[k]) {
      assert entries[k] == EntryOf(bytes, k);
    }
  }

  lemma {:induction false} ListedIsSound(bytes: seq<byte>, entries: seq<Entry>)
    requires Listable(entries) && PrintEntries(entries) + PrintEntry((0, 0)) <= bytes
    ensures ReservationsOk(bytes, |entries|) && FirstEntries(bytes, |entries|) == entries
  {
    hide EntryOf, PrintEntry, PrintEntries;
    var n := |entries|;
    var listed := entries + [(0, 0)];
    var rest := bytes[16 * n + 16..];
    PrintEntriesSnoc(entries, (0, 0));
    assert bytes == PrintEntries(listed) + rest;
    forall k: nat | k <= n ensures EntryOf(bytes, k) == listed[k] {
      EntriesRead(listed, rest, k);
    }
    assert FirstEntries(bytes, n) == entries;
  }

  lemma {:induction false} PrintEntriesSnoc(entries: seq<Entry>, e: Entry)
    ensures PrintEntries(entries + [e]) == PrintEntries(entries) + PrintEntry(e)
  {
    hide PrintEntry;
    if entries == [] {
      assert entries + [e] == [e] && [e][1..] == [];
    } else {
      PrintEntriesSnoc(entries[1..], e);
      assert (entries + [e])[1..] == entries[1..] + [e];
    }
  }

  lemma {:induction false} TerminatedOnce(bytes: seq<byte>, m: nat, n: nat)
    requires TerminatedAt(bytes, m) && TerminatedAt(bytes, n)
    ensures m == n
  {
    hide EntryOf;
  }

  /** Cutting the block after its terminator changes no entry. */
  lemma {:induction false} TerminatedCut(bytes: seq<byte>, n: nat)
    requires TerminatedAt(bytes, n)
    ensures TerminatedAt(bytes[..16 * n + 16], n) && FirstEntries(bytes[..16 * n + 16], n) == FirstEntries(bytes, n)
  {
    var cut := bytes[..16 * n + 16];
    forall k: nat | k <= n ensures EntryOf(cut, k) == EntryOf(bytes, k) {
      assert cut[16 * k..16 * k + 8] == bytes[16 * k..16 * k + 8];
      assert cut[16 * k + 8..16 * k + 16] == bytes[16 * k + 8..16 * k + 16];
    }
    hide EntryOf;
  }

  /** `Reservations::new`: the scan for the terminator, then the overlap check. */
  method ReservationsNew(bytes: seq<byte>) returns (r: Option<seq<byte>>, ghost n: nat)
    ensures r.Some? <==> exists m: nat :: ReservationsOk(bytes, m)
    ensures r.Some? ==> ReservationsOk(bytes, n) && r.value == bytes[..16 * n + 16]
  {
    hide BigEndian;
    var reader := new Reader(bytes);
    n := 0;
    while true
      invariant reader.Valid() && reader.bytes == bytes && reader.offset == 16 * n
      invariant forall k :: 0 <= k < n ==> EntryOf(bytes, k) != (0, 0) && EntryFits(EntryOf(bytes, k))
      decreases |bytes| - reader.offset
    {
      var address := reader.ReadBytes(8);
      if address.None? {
        NeverTerminated(bytes, n);
        return None, n;
      }
      var size := reader.ReadBytes(8);
      if size.None? {
        NeverTerminated(bytes, n);
        return None, n;
      }
      var entry := (BigEndian(address.value), BigEndian(size.value));
      assert entry == EntryOf(bytes, n);
      if entry == (0, 0) {
        break;
      }
      if !EntryFits(entry) {
        NeverFits(bytes, n);
        return None, n;
      }
      n := n + 1;
    }
    var kept := bytes[..reader.offset];
    TerminatedCut(bytes, n);
    var clear := ValidateNoOverlaps(kept, n);
    assert clear == NoClash(FirstEntries(bytes, n));
    assert TerminatedAt(bytes, n) && EntriesFit(FirstEntries(bytes, n));
    assert clear == ReservationsOk(bytes, n);
    forall m: nat | ReservationsOk(bytes, m) ensures m == n {
      TerminatedOnce(bytes, m, n);
    }
    r := if clear then Some(kept) else None;
  }

  lemma {:induction false} NeverTerminated(bytes: seq<byte>, n: nat)
    requires |bytes| < 16 * n + 16 && 16 * n <= |bytes|
    requires forall k :: 0 <= k < n ==> EntryOf(bytes, k) != (0, 0)
    ensures forall m: nat :: !ReservationsOk(bytes, m)
  {
    hide EntryOf;
    forall m: nat ensures !ReservationsOk(bytes, m) {
      assert TerminatedAt(bytes, m) ==> m < n;
    }
  }

  lemma {:induction false} NeverFits(bytes: seq<byte>, n: nat)
    requires 16 * n + 16 <= |bytes| && EntryOf(bytes, n) != (0, 0) && !EntryFits(EntryOf(bytes, n))
    requires forall k :: 0 <= k < n ==> EntryOf(bytes, k) != (0, 0)
    ensures forall m: nat :: !ReservationsOk(bytes, m)
  {
    hide EntryOf, EntryFits;
    forall m: nat ensures !ReservationsOk(bytes, m) {
      if TerminatedAt(bytes, m) {
        assert m > n;
        assert FirstEntries(bytes, m)[n] == EntryOf(bytes, n);
      }
    }
  }

  // ----- The blob

  datatype Fdt = Fdt(totalSize: nat, structure: seq<byte>, strings: seq<byte>, reservations: seq<byte>)

  /** The blob starts with these header words, which are sound. Its structure block encodes the tree with
      names from its strings block, the tree means something, and the reservation block, which ends at the
      next block or at the end of the blob, lists its entries soundly. */
  ghost predicate Describing(blob: seq<byte>, w: HeaderWords, t: Node, n: nat) {
    && w.Valid() && w.Sound() && w.totalSize <= |blob| && Print(w) == blob[..40]
    && w.reservationsOffset <= LimitOf(w.Declared()) <= w.totalSize
    && var strings := blob[w.stringsOffset..w.stringsOffset + w.stringsSize];
    && Encodes(blob[w.structureOffset..w.structureOffset + w.structureSize], t)
    && WellFormedRoot(t, strings) && SemanticsOk(t, strings)
    && ReservationsOk(blob[w.reservationsOffset..LimitOf(w.Declared())], n)
  }

  /** What a parsed blob gives access to. */
  ghost predicate Parsed(fdt: Fdt, t: Node, n: nat) {
    && Encodes(fdt.structure, t) && WellFormedRoot(t, fdt.strings) && SemanticsOk(t, fdt.strings)
    && TerminatedAt(fdt.reservations, n)
    && EntriesFit(FirstEntries(fdt.reservations, n)) && NoClash(FirstEntries(fdt.reservations, n))
  }

  /** `Fdt::from_ptr` over the bytes at the address. Any forty bytes are a written header, `w`; the
      caller's duty is that the bytes a sound header declares are there. What is kept are the blob's
      own blocks. */
  method FromBytes(address: nat, blob: seq<byte>, ghost w: HeaderWords)
    returns (r: Option<Fdt>, ghost t: Node, ghost n: nat)
    requires |blob| >= 40 && w.Valid() && Print(w) == blob[..40]
    requires w.Sound() ==> w.totalSize <= |blob|
    ensures r.Some? <==> address != 0 && address % 8 == 0 && w.Sound() && address + w.totalSize < U64
                         && exists u: Node, m: nat :: Describing(blob, w, u, m)
    ensures r.Some? ==> Describing(blob, w, t, n) && Parsed(r.value, t, n)
    ensures r.Some? ==>
              && r.value.totalSize == w.totalSize
              && r.value.structure == blob[w.structureOffset..w.structureOffset + w.structureSize]
              && r.value.strings == blob[w.stringsOffset..w.stringsOffset + w.stringsSize]
              && w.reservationsOffset + 16 * n + 16 <= LimitOf(w.Declared())
              && r.value.reservations == blob[w.reservationsOffset..w.reservationsOffset + 16 * n + 16]
  {
    hide HeaderNew, Encodes, WellFormedRoot, SemanticsOk, LimitOf, TerminatedAt, FirstEntries, EntriesFit, NoClash;
    hide Print, Describing, HeaderWords.Sound;
    t, n := Node([], [], []), 0;
    HeaderRead(w);
    if address == 0 || address % 8 != 0 {
      return None, t, n;
    }
    var header := HeaderNew(blob[..FDT_HEADER_SIZE]);
    if header.None? {
      return None, t, n;
    }
    var h := header.value;
    BlocksDisjoint(blob[..FDT_HEADER_SIZE]);
    if address + h.totalSize >= U64 {
      return None, t, n;
    }
    forall u: Node, m: nat ensures Describing(blob, w, u, m) <==> DescribedBy(blob, h, u, m) {
      DescribingIs(blob, w, h, u, m);
    }
    var strings := blob[h.strings.start..h.strings.end];
    var structure := blob[h.structure.start..h.structure.end];
    var accepted, tree := StructureNew(structure, strings);
    if accepted.Wrong? {
      return None, t, n;
    }
    t := tree;
    var root := Root(structure, strings, t);
    var meaningful := ValidateSemantics(root, t);
    forall u | Encodes(structure, u) && WellFormedRoot(u, strings) ensures u == t {
      EncodedTreeUnique(structure, t, u, strings);
    }
    assert meaningful == SemanticsOk(t, strings);
    if !meaningful {
      return None, t, n;
    }
    var limit := ReservationLimit(h);
    var kept, m := ReservationsNew(blob[h.reservations..limit]);
    if kept.None? {
      return None, t, n;
    }
    n := m;
    TerminatedCut(blob[h.reservations..limit], n);
    assert DescribedBy(blob, h, t, n);
    KeptBlock(blob, h.reservations, limit, n);
    r := Some(Fdt(h.totalSize, structure, strings, kept.value));
  }

  /** `Describing` in terms of a decoded header. */
  ghost predicate DescribedBy(blob: seq<byte>, h: Header, t: Node, n: nat) {
    && h.totalSize <= |blob| && h.reservations <= LimitOf(h) <= |blob|
    && h.structure.start <= h.structure.end <= |blob| && h.strings.start <= h.strings.end <= |blob|
    && var strings := blob[h.strings.start..h.strings.end];
    && Encodes(blob[h.structure.start..h.structure.end], t)
    && WellFormedRoot(t, strings) && SemanticsOk(t, strings)
    && ReservationsOk(blob[h.reservations..LimitOf(h)], n)
  }

  lemma {:induction false} DescribingIs(blob: seq<byte>, w: HeaderWords, h: Header, t: Node, n: nat)
    requires |blob| >= 40 && w.Valid() && Print(w) == blob[..40] && w.Sound() && w.totalSize <= |blob|
    requires h == w.Declared() && h.reservations <= LimitOf(h) <= h.totalSize
    ensures Describing(blob, w, t, n) <==> DescribedBy(blob, h, t, n)
  {
    hide Encodes, WellFormedRoot, SemanticsOk, LimitOf, ReservationsOk, Print;
  }

  lemma {:induction false} KeptBlock(blob: seq<byte>, start: nat, limit: nat, n: nat)
    requires start <= limit <= |blob| && TerminatedAt(blob[start..limit], n)
    ensures start + 16 * n + 16 <= limit
    ensures blob[start..limit][..16 * n + 16] == blob[start..start + 16 * n + 16]
  {
    hide EntryOf;
  }
}
