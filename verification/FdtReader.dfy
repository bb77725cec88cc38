/** Bounded sequential reading, and the names of the devicetree format. */
module FdtReader {
  import opened Memory

  type byte = b: int | 0 <= b < 256

  // ----- Positions and values

  /** The big-endian 32-bit value at a position. */
  function U32At(bytes: seq<byte>, at: nat): (v: nat)
    requires at + 4 <= |bytes|
    ensures v < 0x1_0000_0000
  {
    var b0: int, b1: int, b2: int, b3: int := bytes[at], bytes[at + 1], bytes[at + 2], bytes[at + 3];
    ((b0 * 256 + b1) * 256 + b2) * 256 + b3
  }

  /** The big-endian bytes of a 32-bit value. */
  function Be32(v: nat): (bytes: seq<byte>)
    requires v < 0x1_0000_0000
    ensures |bytes| == 4 && U32At(bytes, 0) == v
  {
    [v / 256 / 256 / 256, v / 256 / 256 % 256, v / 256 % 256, v % 256]
  }

  lemma {:induction false} U32Unique(bytes: seq<byte>)
    requires |bytes| == 4
    ensures Be32(U32At(bytes, 0)) == bytes
  {
    var b0: int, b1: int, b2: int, b3: int := bytes[0], bytes[1], bytes[2], bytes[3];
    var v := U32At(bytes, 0);
    LastDigit((b0 * 256 + b1) * 256 + b2, b3);
    LastDigit(b0 * 256 + b1, b2);
    LastDigit(b0, b1);
    hide U32At;
    assert v / 256 == (b0 * 256 + b1) * 256 + b2;
    assert v / 256 / 256 == b0 * 256 + b1;
    assert v / 256 / 256 / 256 == b0;
  }

  lemma {:induction false} LastDigit(high: nat, low: nat)
    requires low < 256
    ensures (high * 256 + low) / 256 == high && (high * 256 + low) % 256 == low
  {
  }

  /** Bytes that reach the next multiple of four. */
  function Padding(at: nat): (n: nat)
    ensures n < 4 && (at + n) % 4 == 0
  {
    (4 - at % 4) % 4
  }

  /** Index of the first NUL at or after a position. */
  function FindNul(bytes: seq<byte>, at: nat): (r: Option<nat>)
    requires at <= |bytes|
    ensures r.Some? ==> at <= r.value < |bytes| && bytes[r.value] == 0 && 0 !in bytes[at..r.value]
    ensures r.None? ==> 0 !in bytes[at..]
    decreases |bytes| - at
  {
    if at == |bytes| then None
    else if bytes[at] == 0 then Some(at)
    else
      var rest := FindNul(bytes, at + 1);
      assert bytes[at..] == [bytes[at]] + bytes[at + 1..];
      assert rest.Some? ==> bytes[at..rest.value] == [bytes[at]] + bytes[at + 1..rest.value];
      rest
  }

  /** The cursor never leaves the slice; failed reads do not move it. */
  class Reader {
    const bytes: seq<byte>
    var offset: nat

    predicate Valid()
      reads this
    {
      offset <= |bytes|
    }

    constructor (bytes: seq<byte>)
      ensures Valid() && this.bytes == bytes && offset == 0
    {
      this.bytes := bytes;
      this.offset := 0;
    }

    method ReadBytes(length: nat) returns (r: Option<seq<byte>>)
      requires Valid()
      modifies this
      ensures Valid()
      ensures r.Some? <==> old(offset) + length <= |bytes|
      ensures r.Some? ==> r.value == bytes[old(offset)..old(offset) + length] && offset == old(offset) + length
      ensures r.None? ==> offset == old(offset)
    {
      if offset + length > |bytes| {
        return None;
      }
      r := Some(bytes[offset..offset + length]);
      offset := offset + length;
    }

    method ReadU8() returns (r: Option<byte>)
      requires Valid()
      modifies this
      ensures Valid()
      ensures r.Some? <==> old(offset) < |bytes|
      ensures r.Some? ==> r.value == bytes[old(offset)] && offset == old(offset) + 1
      ensures r.None? ==> offset == old(offset)
    {
      var one := ReadBytes(1);
      r := if one.Some? then Some(one.value[0]) else None;
    }

    method ReadU32() returns (r: Option<nat>)
      requires Valid()
      modifies this
      ensures Valid()
      ensures r.Some? <==> old(offset) + 4 <= |bytes|
      ensures r.Some? ==> r.value == U32At(bytes, old(offset)) && offset == old(offset) + 4
      ensures r.None? ==> offset == old(offset)
    {
      var four := ReadBytes(4);
      r := if four.Some? then Some(U32At(four.value, 0)) else None;
    }

    method AlignTo4() returns (ok: bool)
      requires Valid()
      modifies this
      ensures Valid()
      ensures ok <==> old(offset) + Padding(old(offset)) <= |bytes|
      ensures offset == if ok then old(offset) + Padding(old(offset)) else old(offset)
    {
      var skipped := ReadBytes(Padding(offset));
      ok := skipped.Some?;
    }

    method ReadNulTerminated() returns (r: Option<seq<byte>>)
      requires Valid()
      modifies this
      ensures Valid()
      ensures r.Some? <==> FindNul(bytes, old(offset)).Some?
      ensures r.Some? ==> var end := FindNul(bytes, old(offset)).value;
                          r.value == bytes[old(offset)..end] && offset == end + 1
      ensures r.None? ==> offset == old(offset)
    {
      var at := offset;
      while at < |bytes| && bytes[at] != 0
        invariant offset <= at <= |bytes|
        invariant FindNul(bytes, at) == FindNul(bytes, offset)
      {
        at := at + 1;
      }
      if at == |bytes| {
        return None;
      }
      var consumed := ReadBytes(at + 1 - offset);
      r := Some(consumed.value[..|consumed.value| - 1]);
    }
  }

  // ----- Names

  predicate IsLetter(b: byte) {
    0x41 <= b <= 0x5A || 0x61 <= b <= 0x7A
  }

  predicate IsDigit(b: byte) {
    0x30 <= b <= 0x39
  }

  /** Letters, digits and `,` `.` `_` `+` `-`. */
  predicate IsNodeChar(b: byte) {
    IsLetter(b) || IsDigit(b) || b == 0x2C || b == 0x2E || b == 0x5F || b == 0x2B || b == 0x2D
  }

  /** Additionally `?` and `#`. */
  predicate IsPropertyChar(b: byte) {
    IsNodeChar(b) || b == 0x3F || b == 0x23
  }

  const AT: byte := 0x40

  /** The part of a node name before the first `@`. */
  function Component(name: seq<byte>): (c: seq<byte>)
    ensures |c| <= |name| && c == name[..|c|] && AT !in c
    ensures |c| < |name| ==> name[|c|] == AT
  {
    if name == [] || name[0] == AT then [] else [name[0]] + Component(name[1..])
  }

  /** The part after the first `@`, if there is one. */
  function UnitAddress(name: seq<byte>): Option<seq<byte>> {
    var n := |Component(name)|;
    if n == |name| then None else Some(name[n + 1..])
  }

  /** `name::validate`. */
  predicate ValidNodeName(name: seq<byte>) {
    var component, address := Component(name), UnitAddress(name);
    && 1 <= |component| <= 31 && IsLetter(component[0])
    && (forall k :: 0 <= k < |component| ==> IsNodeChar(component[k]))
    && (address.Some? ==> address.value != [] && forall k :: 0 <= k < |address.value| ==> IsNodeChar(address.value[k]))
  }

  /** `validate_property_name`: the name at an offset of the strings block. */
  function PropertyName(strings: seq<byte>, at: nat): Option<seq<byte>> {
    if at >= |strings| then None
    else
      var end := FindNul(strings, at);
      if end.None? then None
      else
        var name := strings[at..end.value];
        if 1 <= |name| <= 31 && forall k :: 0 <= k < |name| ==> IsPropertyChar(name[k]) then Some(name) else None
  }
}
