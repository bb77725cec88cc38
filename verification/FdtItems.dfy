/** The structure block as a sequence of items.

    `LexAt` reads one item; `Encoding` says, without reading anything, which bytes stand for
    which items. The two are shown to agree.
 */
module FdtItems {
  import opened Memory
  import opened FdtReader

  datatype Item =
    | Begin(name: seq<byte>)
    | End
    | Prop(nameOffset: nat, value: seq<byte>)
    | Nop
    | Fin

  datatype Lexed = Bad | Tok(item: Item, next: nat)

  const BEGIN_NODE: nat := 1
  const END_NODE: nat := 2
  const PROPERTY: nat := 3
  const NOP: nat := 4
  const END: nat := 9

  /** A node token's name and padding, after the token. */
  function LexName(bytes: seq<byte>, at: nat): Lexed
    requires at <= |bytes|
  {
    var end := FindNul(bytes, at);
    if end.None? || end.value + 1 + Padding(end.value + 1) > |bytes| then Bad
    else Tok(Begin(bytes[at..end.value]), end.value + 1 + Padding(end.value + 1))
  }

  /** A property token's length, name offset, value and padding, after the token. */
  function LexProperty(bytes: seq<byte>, at: nat): Lexed
    requires at <= |bytes|
  {
    if at + 8 > |bytes| then Bad
    else
      var end := at + 8 + U32At(bytes, at);
      if end + Padding(end) > |bytes| then Bad
      else Tok(Prop(U32At(bytes, at + 4), bytes[at + 8..end]), end + Padding(end))
  }

  /** The item at a position, or `Bad` when none can be read there. */
  function LexAt(bytes: seq<byte>, at: nat): (r: Lexed)
    ensures r.Tok? ==> at + 4 <= r.next <= |bytes|
  {
    if at + 4 > |bytes| then Bad
    else
      var token := U32At(bytes, at);
      if token == BEGIN_NODE then LexName(bytes, at + 4)
      else if token == END_NODE then Tok(End, at + 4)
      else if token == PROPERTY then LexProperty(bytes, at + 4)
      else if token == NOP then Tok(Nop, at + 4)
      else if token == END then Tok(Fin, at + 4)
      else Bad
  }

  /** Items read one after the other from `from` end exactly at `to`. */
  predicate Seg(bytes: seq<byte>, from: nat, to: nat, items: seq<Item>)
    decreases |items|
  {
    if items == [] then from == to
    else
      var first := LexAt(bytes, from);
      first.Tok? && first.item == items[0] && Seg(bytes, first.next, to, items[1..])
  }

  // ----- Encodings

  /** An item together with the padding that follows it. */
  datatype Piece = Piece(item: Item, pad: seq<byte>)

  /** The bytes of a piece. */
  function PieceBytes(p: Piece): seq<byte>
    requires PieceOk(p)
  {
    match p.item
    case Begin(name) => Be32(BEGIN_NODE) + name + [0] + p.pad
    case End => Be32(END_NODE)
    case Prop(nameOffset, value) => Be32(PROPERTY) + Be32(|value|) + Be32(nameOffset) + value + p.pad
    case Nop => Be32(NOP)
    case Fin => Be32(END)
  }

  /** Names hold no NUL, numbers fit in 32 bits, and the padding (of any contents) reaches the
      next multiple of four. */
  predicate PieceOk(p: Piece) {
    match p.item
    case Begin(name) => 0 !in name && |p.pad| == Padding(|name| + 1)
    case Prop(nameOffset, value) =>
      |value| < 0x1_0000_0000 && nameOffset < 0x1_0000_0000 && |p.pad| == Padding(|value|)
    case _ => p.pad == []
  }

  predicate PiecesOk(pieces: seq<Piece>) {
    forall k :: 0 <= k < |pieces| ==> PieceOk(pieces[k])
  }

  function Concat(pieces: seq<Piece>): seq<byte>
    requires PiecesOk(pieces)
  {
    if pieces == [] then [] else PieceBytes(pieces[0]) + Concat(pieces[1..])
  }

  function ItemsOf(pieces: seq<Piece>): (items: seq<Item>)
    ensures |items| == |pieces|
  {
    if pieces == [] then [] else [pieces[0].item] + ItemsOf(pieces[1..])
  }

  /** The bytes stand for these items, with some padding contents. */
  ghost predicate Encoding(bytes: seq<byte>, items: seq<Item>) {
    exists pieces: seq<Piece> :: PiecesOk(pieces) && Concat(pieces) == bytes && ItemsOf(pieces) == items
  }

  // ----- Reading a piece back

  lemma {:induction false} WordAt(bytes: seq<byte>, at: nat, v: nat)
    requires v < 0x1_0000_0000 && at + 4 <= |bytes| && bytes[at..at + 4] == Be32(v)
    ensures U32At(bytes, at) == v
  {
    assert bytes[at] == bytes[at..at + 4][0] && bytes[at + 1] == bytes[at..at + 4][1];
    assert bytes[at + 2] == bytes[at..at + 4][2] && bytes[at + 3] == bytes[at..at + 4][3];
  }

  lemma {:induction false} WordBytes(bytes: seq<byte>, at: nat)
    requires at + 4 <= |bytes|
    ensures bytes[at..at + 4] == Be32(U32At(bytes, at))
  {
    var four := bytes[at..at + 4];
    assert U32At(four, 0) == U32At(bytes, at);
    U32Unique(four);
  }

  /** The first NUL after a NUL-free stretch that ends in one. */
  lemma {:induction false} NulAfter(bytes: seq<byte>, at: nat, end: nat)
    requires at <= end < |bytes| && bytes[end] == 0 && forall k :: at <= k < end ==> bytes[k] != 0
    ensures FindNul(bytes, at) == Some(end)
    decreases end - at
  {
    if at < end {
      NulAfter(bytes, at + 1, end);
    }
  }

  /** At an aligned position, a piece's bytes read back as its item, whatever follows. */
  lemma {:induction false} PieceLexes(bytes: seq<byte>, at: nat, p: Piece)
    requires PieceOk(p) && at % 4 == 0 && at + |PieceBytes(p)| <= |bytes|
    requires bytes[at..at + |PieceBytes(p)|] == PieceBytes(p)
    ensures LexAt(bytes, at) == Tok(p.item, at + |PieceBytes(p)|)
    ensures |PieceBytes(p)| % 4 == 0
  {
    hide U32At, Be32, LexName, LexProperty;
    var piece := PieceBytes(p);
    Subslice(bytes, at, piece, 0, 4);
    match p.item
    case Begin(name) =>
      assert piece[0..4] == Be32(BEGIN_NODE);
      WordAt(bytes, at, BEGIN_NODE);
      BeginLexes(bytes, at, p);
    case Prop(nameOffset, value) =>
      assert piece[0..4] == Be32(PROPERTY);
      WordAt(bytes, at, PROPERTY);
      PropertyLexes(bytes, at, p);
    case End => WordAt(bytes, at, END_NODE);
    case Nop => WordAt(bytes, at, NOP);
    case Fin => WordAt(bytes, at, END);
  }

  lemma {:induction false} PaddingShift(base: nat, n: nat)
    requires base % 4 == 0
    ensures Padding(base + n) == Padding(n)
  {
  }

  /** A slice of a slice. */
  lemma {:induction false} Subslice(bytes: seq<byte>, at: nat, piece: seq<byte>, lo: nat, hi: nat)
    requires at + |piece| <= |bytes| && bytes[at..at + |piece|] == piece && lo <= hi <= |piece|
    ensures bytes[at + lo..at + hi] == piece[lo..hi]
  {
    forall k | lo <= k < hi ensures bytes[at + k] == piece[k] {
      assert bytes[at..at + |piece|][k] == bytes[at + k];
    }
  }

  /** The name and its NUL inside a node piece. */
  lemma {:induction false} BeginParts(p: Piece)
    requires PieceOk(p) && p.item.Begin?
    ensures var name, piece := p.item.name, PieceBytes(p);
            && |piece| == 5 + |name| + Padding(|name| + 1)
            && piece[4..4 + |name|] == name && piece[4 + |name|..5 + |name|] == [0]
  {
    hide U32At, Be32, Padding;
    var name := p.item.name;
    var head := Be32(BEGIN_NODE) + name;
    assert PieceBytes(p) == head + ([0] + p.pad);
    assert head[4..] == name;
  }

  lemma {:induction false} BeginLexes(bytes: seq<byte>, at: nat, p: Piece)
    requires PieceOk(p) && p.item.Begin? && at % 4 == 0 && at + |PieceBytes(p)| <= |bytes|
    requires bytes[at..at + |PieceBytes(p)|] == PieceBytes(p)
    ensures LexName(bytes, at + 4) == Tok(p.item, at + |PieceBytes(p)|)
    ensures |PieceBytes(p)| % 4 == 0
  {
    hide U32At, Be32, Padding, PieceBytes, PieceOk, FindNul;
    var end := at + 4 + |p.item.name|;
    BeginPlace(bytes, at, p);
    NameHasNoNul(bytes, at + 4, end, p);
    NulAfter(bytes, at + 4, end);
  }

  /** Where name, NUL and padding of a node piece lie in the block. */
  lemma {:induction false} BeginPlace(bytes: seq<byte>, at: nat, p: Piece)
    requires PieceOk(p) && p.item.Begin? && at % 4 == 0 && at + |PieceBytes(p)| <= |bytes|
    requires bytes[at..at + |PieceBytes(p)|] == PieceBytes(p)
    ensures var name, end := p.item.name, at + 4 + |p.item.name|;
            && end < |bytes| && bytes[at + 4..end] == name && bytes[end] == 0
            && at + |PieceBytes(p)| == end + 1 + Padding(end + 1) && |PieceBytes(p)| % 4 == 0
  {
    hide U32At, Be32, Padding, PieceBytes, PieceOk;
    var name := p.item.name;
    var piece := PieceBytes(p);
    PaddingShift(at + 4, |name| + 1);
    BeginParts(p);
    Subslice(bytes, at, piece, 4, 4 + |name|);
    Subslice(bytes, at, piece, 4 + |name|, 5 + |name|);
    OneByte(bytes, at + 4 + |name|);
  }

  lemma {:induction false} OneByte(bytes: seq<byte>, at: nat)
    requires at < |bytes|
    ensures bytes[at..at + 1] == [bytes[at]]
  {
  }

  lemma {:induction false} NameHasNoNul(bytes: seq<byte>, from: nat, to: nat, p: Piece)
    requires PieceOk(p) && p.item.Begin? && from <= to <= |bytes| && bytes[from..to] == p.item.name
    ensures forall k :: from <= k < to ==> bytes[k] != 0
  {
    forall k | from <= k < to ensures bytes[k] != 0 {
      assert bytes[k] == bytes[from..to][k - from];
    }
  }

  lemma {:induction false} PropertyLexes(bytes: seq<byte>, at: nat, p: Piece)
    requires PieceOk(p) && p.item.Prop? && at % 4 == 0 && at + |PieceBytes(p)| <= |bytes|
    requires bytes[at..at + |PieceBytes(p)|] == PieceBytes(p)
    ensures LexProperty(bytes, at + 4) == Tok(p.item, at + |PieceBytes(p)|)
    ensures |PieceBytes(p)| % 4 == 0
  {
    hide U32At;
    var value := p.item.value;
    var piece := PieceBytes(p);
    PaddingShift(at + 12, |value|);
    PaddingShift(12, |value|);
    hide Be32, Padding;
    Subslice(bytes, at, piece, 4, 8);
    assert piece[4..8] == Be32(|value|);
    WordAt(bytes, at + 4, |value|);
    Subslice(bytes, at, piece, 8, 12);
    assert piece[8..12] == Be32(p.item.nameOffset);
    WordAt(bytes, at + 8, p.item.nameOffset);
    Subslice(bytes, at, piece, 12, 12 + |value|);
    assert piece[12..12 + |value|] == value;
  }

  /** Whatever reads back as an item is a piece. */
  lemma {:induction false} LexedIsPiece(bytes: seq<byte>, at: nat) returns (p: Piece)
    requires at % 4 == 0 && LexAt(bytes, at).Tok?
    ensures PieceOk(p) && p.item == LexAt(bytes, at).item
    ensures bytes[at..LexAt(bytes, at).next] == PieceBytes(p)
    ensures LexAt(bytes, at).next % 4 == 0
  {
    hide U32At, Be32;
    var lexed := LexAt(bytes, at);
    WordBytes(bytes, at);
    match lexed.item
    case Begin(_) => p := BeginIsPiece(bytes, at);
    case Prop(_, _) => p := PropertyIsPiece(bytes, at);
    case _ => p := Piece(lexed.item, []);
  }

  lemma {:induction false} NamePiece(bytes: seq<byte>, end: nat, next: nat)
    requires end < next <= |bytes|
    ensures bytes[end..end + 1] == [bytes[end]] && bytes[end + 1..end + 1] == []
  {
  }

  /** Where the parts of a readable node token lie. */
  lemma {:induction false} BeginShape(bytes: seq<byte>, at: nat)
    requires at % 4 == 0 && LexAt(bytes, at).Tok? && LexAt(bytes, at).item.Begin?
    ensures at + 4 <= |bytes| && U32At(bytes, at) == BEGIN_NODE
    ensures var lexed := LexAt(bytes, at);
            var name, end := lexed.item.name, at + 4 + |lexed.item.name|;
            && 0 !in name && end < lexed.next <= |bytes| && bytes[at + 4..end] == name && bytes[end] == 0
            && lexed.next == end + 1 + Padding(|name| + 1) && lexed.next % 4 == 0
  {
    hide U32At, Padding, FindNul;
    PaddingShift(at + 4, |LexAt(bytes, at).item.name| + 1);
  }

  lemma {:induction false} BeginIsPiece(bytes: seq<byte>, at: nat) returns (p: Piece)
    requires at % 4 == 0 && LexAt(bytes, at).Tok? && LexAt(bytes, at).item.Begin?
    ensures PieceOk(p) && p.item == LexAt(bytes, at).item
    ensures bytes[at..LexAt(bytes, at).next] == PieceBytes(p)
    ensures LexAt(bytes, at).next % 4 == 0
  {
    hide U32At, Be32, LexAt, FindNul, Padding;
    BeginShape(bytes, at);
    var lexed := LexAt(bytes, at);
    WordBytes(bytes, at);
    var name := lexed.item.name;
    var end := at + 4 + |name|;
    p := Piece(lexed.item, bytes[end + 1..lexed.next]);
    FiveSlices(bytes, at, at + 4, end, end + 1, end + 1, lexed.next);
    NamePiece(bytes, end, lexed.next);
  }

  lemma {:induction false} FiveSlices(bytes: seq<byte>, a: nat, b: nat, c: nat, d: nat, e: nat, f: nat)
    requires a <= b <= c <= d <= e <= f <= |bytes|
    ensures bytes[a..f] == bytes[a..b] + bytes[b..c] + bytes[c..d] + bytes[d..e] + bytes[e..f]
  {
    assert bytes[a..c] == bytes[a..b] + bytes[b..c];
    assert bytes[a..d] == bytes[a..c] + bytes[c..d];
    assert bytes[a..e] == bytes[a..d] + bytes[d..e];
    assert bytes[a..f] == bytes[a..e] + bytes[e..f];
  }

  lemma {:induction false} PropertyIsPiece(bytes: seq<byte>, at: nat) returns (p: Piece)
    requires at % 4 == 0 && LexAt(bytes, at).Tok? && LexAt(bytes, at).item.Prop?
    ensures PieceOk(p) && p.item == LexAt(bytes, at).item
    ensures bytes[at..LexAt(bytes, at).next] == PieceBytes(p)
    ensures LexAt(bytes, at).next % 4 == 0
  {
    hide U32At, Be32;
    var lexed := LexAt(bytes, at);
    WordBytes(bytes, at);
    WordBytes(bytes, at + 4);
    WordBytes(bytes, at + 8);
    var value := lexed.item.value;
    var end := at + 12 + |value|;
    PaddingShift(at + 12, |value|);
    p := Piece(lexed.item, bytes[end..lexed.next]);
    FiveSlices(bytes, at, at + 4, at + 8, at + 12, end, lexed.next);
  }

  // ----- Sequences of items

  lemma {:induction false} SegBounds(bytes: seq<byte>, from: nat, to: nat, items: seq<Item>)
    requires Seg(bytes, from, to, items) && from <= |bytes|
    ensures from <= to <= |bytes| && (items != [] ==> from < to)
    ensures from % 4 == 0 ==> to % 4 == 0
    decreases |items|
  {
    hide LexAt;
    if items != [] {
      var next := LexAt(bytes, from).next;
      SegBounds(bytes, next, to, items[1..]);
      if from % 4 == 0 {
        var piece := LexedIsPiece(bytes, from);
      }
    }
  }

  lemma {:induction false} SegAppend(bytes: seq<byte>, from: nat, mid: nat, to: nat, first: seq<Item>, rest: seq<Item>)
    requires Seg(bytes, from, mid, first) && Seg(bytes, mid, to, rest)
    ensures Seg(bytes, from, to, first + rest)
    decreases |first|
  {
    hide LexAt;
    if first == [] {
      assert first + rest == rest;
    } else {
      SegAppend(bytes, LexAt(bytes, from).next, mid, to, first[1..], rest);
      assert (first + rest)[1..] == first[1..] + rest;
    }
  }

  /** One more item read at the end. */
  lemma {:induction false} SegSnoc(bytes: seq<byte>, from: nat, mid: nat, items: seq<Item>)
    requires Seg(bytes, from, mid, items) && LexAt(bytes, mid).Tok?
    ensures Seg(bytes, from, LexAt(bytes, mid).next, items + [LexAt(bytes, mid).item])
  {
    hide LexAt;
    var lexed := LexAt(bytes, mid);
    assert [lexed.item][1..] == [];
    assert Seg(bytes, lexed.next, lexed.next, []);
    assert Seg(bytes, mid, lexed.next, [lexed.item]);
    SegAppend(bytes, from, mid, lexed.next, items, [lexed.item]);
  }

  lemma {:induction false} SegSplit(bytes: seq<byte>, from: nat, to: nat, first: seq<Item>, rest: seq<Item>)
    returns (mid: nat)
    requires Seg(bytes, from, to, first + rest)
    ensures Seg(bytes, from, mid, first) && Seg(bytes, mid, to, rest)
    decreases |first|
  {
    hide LexAt;
    if first == [] {
      mid := from;
      assert first + rest == rest;
    } else {
      assert (first + rest)[1..] == first[1..] + rest;
      mid := SegSplit(bytes, LexAt(bytes, from).next, to, first[1..], rest);
    }
  }

  /** Reading to the end of the block is deterministic. */
  lemma {:induction false} SegUnique(bytes: seq<byte>, from: nat, xs: seq<Item>, ys: seq<Item>)
    requires Seg(bytes, from, |bytes|, xs) && Seg(bytes, from, |bytes|, ys)
    ensures xs == ys
    decreases |xs|
  {
    if xs != [] && ys != [] {
      hide LexAt;
      SegUnique(bytes, LexAt(bytes, from).next, xs[1..], ys[1..]);
      assert xs == [xs[0]] + xs[1..] && ys == [ys[0]] + ys[1..];
    }
  }

  /** Whatever is read to the end of the block starts with what was read so far. */
  lemma {:induction false} SegPrefix(bytes: seq<byte>, from: nat, to: nat, xs: seq<Item>, ys: seq<Item>)
    requires Seg(bytes, from, to, xs) && Seg(bytes, from, |bytes|, ys)
    ensures |xs| <= |ys| && ys[..|xs|] == xs && Seg(bytes, to, |bytes|, ys[|xs|..])
    decreases |xs|
  {
    if xs == [] {
      assert ys[0..] == ys;
    } else {
      assert ys != [];
      hide LexAt;
      SegPrefix(bytes, LexAt(bytes, from).next, to, xs[1..], ys[1..]);
      assert ys[1..][..|xs| - 1] == ys[1..|xs|];
      assert xs == [xs[0]] + xs[1..];
      assert ys[1..][|xs| - 1..] == ys[|xs|..];
    }
  }

  lemma {:induction false} PiecesLex(bytes: seq<byte>, at: nat, pieces: seq<Piece>)
    requires PiecesOk(pieces) && at % 4 == 0 && at <= |bytes| && bytes[at..] == Concat(pieces)
    ensures Seg(bytes, at, |bytes|, ItemsOf(pieces))
    decreases |pieces|
  {
    hide LexAt, PieceBytes;
    if pieces != [] {
      var head := PieceBytes(pieces[0]);
      assert bytes[at..at + |head|] == bytes[at..][..|head|] == head;
      PieceLexes(bytes, at, pieces[0]);
      assert bytes[at + |head|..] == bytes[at..][|head|..] == Concat(pieces[1..]);
      PiecesLex(bytes, at + |head|, pieces[1..]);
    }
  }

  lemma {:induction false} LexesAsPieces(bytes: seq<byte>, at: nat, items: seq<Item>) returns (pieces: seq<Piece>)
    requires at % 4 == 0 && at <= |bytes| && Seg(bytes, at, |bytes|, items)
    ensures PiecesOk(pieces) && ItemsOf(pieces) == items && Concat(pieces) == bytes[at..]
    decreases |items|
  {
    hide LexAt, PieceBytes;
    if items == [] {
      pieces := [];
    } else {
      var next := LexAt(bytes, at).next;
      var head := LexedIsPiece(bytes, at);
      var tail := LexesAsPieces(bytes, next, items[1..]);
      pieces := [head] + tail;
      assert pieces[1..] == tail && bytes[at..] == bytes[at..next] + bytes[next..];
    }
  }

  /** Reading the whole block and the declarative encoding are the same thing. */
  lemma {:induction false} EncodingIsReading(bytes: seq<byte>, items: seq<Item>)
    ensures Encoding(bytes, items) <==> Seg(bytes, 0, |bytes|, items)
  {
    assert bytes[0..] == bytes;
    if Encoding(bytes, items) {
      var pieces: seq<Piece> :| PiecesOk(pieces) && Concat(pieces) == bytes && ItemsOf(pieces) == items;
      PiecesLex(bytes, 0, pieces);
    }
    if Seg(bytes, 0, |bytes|, items) {
      var pieces := LexesAsPieces(bytes, 0, items);
    }
  }

  // ----- Reading from a suffix

  lemma {:induction false} NulShift(bytes: seq<byte>, base: nat, at: nat)
    requires base + at <= |bytes|
    ensures FindNul(bytes[base..], at) ==
            match FindNul(bytes, base + at) case None => None case Some(end) => Some(end - base)
    decreases |bytes| - base - at
  {
    if base + at < |bytes| && bytes[base + at] != 0 {
      NulShift(bytes, base, at + 1);
    }
  }

  function Shifted(lexed: Lexed, base: nat): Lexed
    requires lexed.Tok? ==> base <= lexed.next
  {
    if lexed.Bad? then Bad else Tok(lexed.item, lexed.next - base)
  }

  lemma {:induction false} SuffixSlice(bytes: seq<byte>, base: nat, lo: nat, hi: nat)
    requires lo <= hi && base + hi <= |bytes|
    ensures bytes[base..][lo..hi] == bytes[base + lo..base + hi]
  {
  }

  lemma {:induction false} NameShift(bytes: seq<byte>, base: nat, at: nat)
    requires base % 4 == 0 && base + at <= |bytes|
    ensures LexName(bytes[base..], at) == Shifted(LexName(bytes, base + at), base)
  {
    NulShift(bytes, base, at);
    var end := FindNul(bytes, base + at);
    if end.Some? {
      PaddingShift(base, end.value - base + 1);
      hide FindNul, Padding;
      SuffixSlice(bytes, base, at, end.value - base);
    }
  }

  lemma {:induction false} PropertyShift(bytes: seq<byte>, base: nat, at: nat)
    requires base % 4 == 0 && base + at <= |bytes|
    ensures LexProperty(bytes[base..], at) == Shifted(LexProperty(bytes, base + at), base)
  {
    if base + at + 8 <= |bytes| {
      WordShift(bytes, base, at);
      WordShift(bytes, base, at + 4);
      var end := base + at + 8 + U32At(bytes, base + at);
      PaddingShift(base, end - base);
      hide U32At, Padding;
      if end <= |bytes| {
        SuffixSlice(bytes, base, at + 8, end - base);
      }
    }
  }

  /** An item read from a suffix that starts at a multiple of four is the item of the whole
      block: alignment counted from the suffix agrees with alignment of the block. */
  lemma {:induction false} LexShift(bytes: seq<byte>, base: nat, at: nat)
    requires base % 4 == 0 && base + at <= |bytes|
    ensures LexAt(bytes[base..], at) == Shifted(LexAt(bytes, base + at), base)
  {
    hide U32At, LexName, LexProperty;
    if base + at + 4 <= |bytes| {
      WordShift(bytes, base, at);
      NameShift(bytes, base, at + 4);
      PropertyShift(bytes, base, at + 4);
    }
  }

  lemma {:induction false} WordShift(bytes: seq<byte>, base: nat, at: nat)
    requires base + at + 4 <= |bytes|
    ensures U32At(bytes[base..], at) == U32At(bytes, base + at)
  {
  }

  lemma {:induction false} SegShift(bytes: seq<byte>, base: nat, from: nat, to: nat, items: seq<Item>)
    requires base % 4 == 0 && base + from <= |bytes| && Seg(bytes, base + from, base + to, items)
    ensures Seg(bytes[base..], from, to, items)
    decreases |items|
  {
    hide LexAt;
    if items != [] {
      LexShift(bytes, base, from);
      SegShift(bytes, base, LexAt(bytes, base + from).next - base, to, items[1..]);
    }
  }
}
