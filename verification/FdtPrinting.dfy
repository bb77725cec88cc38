/** Numbers, `reg` entries and names as the bytes of the devicetree format: what a writer puts down, and
    that reading gives it back.
 */
module FdtPrinting {
  import opened Memory
  import opened FdtReader
  import opened FdtSemantics

  // ----- Numbers

  /** One more than the largest number of so many bytes. */
  function Limit(count: nat): nat {
    if count == 0 then 1 else 256 * Limit(count - 1)
  }

  /** The digits of a number in base 256, most significant first. */
  function Digits(v: nat, count: nat): (bytes: seq<byte>)
    ensures |bytes| == count
  {
    if count == 0 then [] else Digits(v / 256, count - 1) + [v % 256]
  }

  lemma {:induction false} DigitsRead(v: nat, count: nat)
    requires v < Limit(count)
    ensures BigEndian(Digits(v, count)) == v
  {
    if count > 0 {
      DigitsRead(v / 256, count - 1);
      var bytes := Digits(v, count);
      assert bytes[..|bytes| - 1] == Digits(v / 256, count - 1);
    }
  }

  lemma {:induction false} ReadDigits(bytes: seq<byte>)
    ensures BigEndian(bytes) < Limit(|bytes|) && Digits(BigEndian(bytes), |bytes|) == bytes
  {
    if bytes != [] {
      var high, low := bytes[..|bytes| - 1], bytes[|bytes| - 1];
      ReadDigits(high);
      LastDigit(BigEndian(high), low);
      assert bytes == high + [low];
    }
  }

  lemma {:induction false} FourBytes()
    ensures Limit(4) == 0x1_0000_0000 && Limit(8) == 0x1_0000_0000_0000_0000
  {
    assert Limit(4) == 256 * (256 * (256 * (256 * Limit(0))));
    assert Limit(8) == 256 * (256 * (256 * (256 * Limit(4))));
  }

  /** A 32-bit word of the format is the number of its four bytes. */
  lemma {:induction false} WordIsNumber(bytes: seq<byte>)
    requires |bytes| == 4
    ensures U32At(bytes, 0) == BigEndian(bytes)
  {
    BigEndianCell(bytes);
    DenotesNothing(bytes[..0]);
  }

  // ----- `reg` entries

  /** An entry: the address in `a` cells, then the size in `s` cells. */
  function Pair(r: Range, a: nat, s: nat): (bytes: seq<byte>)
    ensures |bytes| == 4 * a + 4 * s
  {
    Digits(r.address, 4 * a) + Digits(r.size, 4 * s)
  }

  function Pairs(rs: seq<Range>, a: nat, s: nat): seq<byte> {
    if rs == [] then [] else Pair(rs[0], a, s) + Pairs(rs[1..], a, s)
  }

  /** The numbers fit into their cells. */
  predicate PairFits(r: Range, a: nat, s: nat) {
    r.address < Limit(4 * a) && r.size < Limit(4 * s)
  }

  predicate PairsFit(rs: seq<Range>, a: nat, s: nat) {
    forall k :: 0 <= k < |rs| ==> PairFits(rs[k], a, s)
  }

  lemma {:induction false} PairRead(r: Range, a: nat, s: nat, rest: seq<byte>)
    requires PairFits(r, a, s)
    ensures var bytes := Pair(r, a, s) + rest;
            EntryAt(bytes, Layout(4 * a, 4 * s)) == r && bytes[4 * a + 4 * s..] == rest
  {
    hide BigEndian, Digits, Limit;
    var bytes := Pair(r, a, s) + rest;
    DigitsRead(r.address, 4 * a);
    DigitsRead(r.size, 4 * s);
    assert bytes[..4 * a] == Digits(r.address, 4 * a);
    assert bytes[4 * a..4 * a + 4 * s] == Digits(r.size, 4 * s);
  }

  /** Written entries are read back, in order. */
  lemma {:induction false} PairsRead(rs: seq<Range>, a: nat, s: nat)
    requires a + s > 0 && PairsFit(rs, a, s)
    ensures Entries(Pairs(rs, a, s), Layout(4 * a, 4 * s)) == rs
  {
    hide EntryAt, Pair, PairFits;
    if rs != [] {
      PairRead(rs[0], a, s, Pairs(rs[1..], a, s));
      PairsRead(rs[1..], a, s);
      assert rs == [rs[0]] + rs[1..];
    }
  }

  /** Whole entries are the writing of what is read. */
  lemma {:induction false} ReadPairs(bytes: seq<byte>, a: nat, s: nat)
    requires Whole(bytes, Layout(4 * a, 4 * s))
    ensures var rs := Entries(bytes, Layout(4 * a, 4 * s)); PairsFit(rs, a, s) && Pairs(rs, a, s) == bytes
    decreases |bytes|
  {
    hide EntryAt, Pair, PairFits, Whole;
    var layout := Layout(4 * a, 4 * s);
    if bytes == [] {
      NoEntries(bytes, layout);
    } else {
      WholeParts(bytes, layout);
      WholeStep(bytes, layout);
      ReadPair(bytes, a, s);
      var rest := bytes[layout.EntrySize()..];
      ReadPairs(rest, a, s);
      var rs := Entries(bytes, layout);
      assert rs == [EntryAt(bytes, layout)] + Entries(rest, layout);
      assert rs[1..] == Entries(rest, layout);
      assert bytes == bytes[..layout.EntrySize()] + rest;
    }
  }

  lemma {:induction false} ReadPair(bytes: seq<byte>, a: nat, s: nat)
    requires 4 * a + 4 * s <= |bytes|
    ensures var r := EntryAt(bytes, Layout(4 * a, 4 * s));
            PairFits(r, a, s) && Pair(r, a, s) == bytes[..4 * a + 4 * s]
  {
    hide BigEndian, Digits, Limit;
    ReadDigits(bytes[..4 * a]);
    ReadDigits(bytes[4 * a..4 * a + 4 * s]);
    assert bytes[..4 * a + 4 * s] == bytes[..4 * a] + bytes[4 * a..4 * a + 4 * s];
  }

  // ----- Names

  function Ascii(s: string): (bytes: seq<byte>)
    ensures |bytes| == |s| && forall k :: 0 <= k < |s| && s[k] as int < 128 ==> bytes[k] == s[k] as int
  {
    seq<byte>(|s|, k requires 0 <= k < |s| => if s[k] as int < 128 then s[k] as int else 0)
  }

  lemma {:induction false} Names()
    ensures REG == Ascii("reg") && RANGES == Ascii("ranges") && DEVICE_TYPE == Ascii("device_type")
    ensures ADDRESS_CELLS == Ascii("#address-cells") && SIZE_CELLS == Ascii("#size-cells")
    ensures MEMORY == Ascii("memory") && CPUS == Ascii("cpus") && RESERVED_MEMORY == Ascii("reserved-memory")
  {
    hide Ascii;
    PropertyNames();
    CountNames();
    NodeNames();
  }

  lemma {:induction false} PropertyNames()
    ensures REG == Ascii("reg") && RANGES == Ascii("ranges") && DEVICE_TYPE == Ascii("device_type")
  {
  }

  lemma {:induction false} CountNames()
    ensures ADDRESS_CELLS == Ascii("#address-cells") && SIZE_CELLS == Ascii("#size-cells")
  {
  }

  lemma {:induction false} NodeNames()
    ensures MEMORY == Ascii("memory") && CPUS == Ascii("cpus") && RESERVED_MEMORY == Ascii("reserved-memory")
  {
  }
}
