/** Parsing, loading and mapping the embedded user image and the user stack.
 */
module Loader {
  import opened Memory
  import opened Sv39
  import opened Hart
  import opened PageTable
  import opened Fixmap
  import opened FrameAccess
  import opened KernelPaging
  import opened BootAllocator
  import opened UserPage
  import opened Heap
  import opened System
  import opened LowerHalf
  import opened HeapSupply
  import opened FrameUse
  import Trap

  // ----- The image format

  datatype LoadError =
    | MissingImage | InvalidImage | AlreadyClaimed | KernelStackAllocation | Paging(error: PagingError)

  datatype LoadResult<+T> = Loaded(value: T) | NotLoaded(error: LoadError)

  datatype Image = Image(base: nat, entry: nat, payload: seq<nat>)

  const HEADER_SIZE: nat := 32
  const MAGIC: seq<nat> := [0x42, 0x42, 0x55, 0x53, 0x45, 0x52, 0x30, 0x31]

  /** `Image::parse`. */
  function Parse(bytes: seq<nat>, limit: nat): LoadResult<Image>
    requires IsBytes(bytes)
  {
    if bytes == [] then NotLoaded(MissingImage)
    else if |bytes| < HEADER_SIZE then NotLoaded(InvalidImage)
    else if bytes[..8] != MAGIC then NotLoaded(InvalidImage)
    else
      var base, entry, size := FromLE(bytes[8..16]), FromLE(bytes[16..24]), FromLE(bytes[24..32]);
      var payload := bytes[HEADER_SIZE..];
      if Acceptable(base, entry, size, |payload|, limit) then Loaded(Image(base, entry, payload))
      else NotLoaded(InvalidImage)
  }

  /** The checks on the header fields, with 64-bit overflow written out. */
  predicate Acceptable(base: nat, entry: nat, size: nat, length: nat, limit: nat) {
    var end := base + size;
    && end < U64 && end + (FRAME_SIZE - 1) < U64
    && !(|| size == 0
         || size != length
         || base < FRAME_SIZE
         || base % FRAME_SIZE != 0
         || !(base <= entry < end)
         || entry % 2 != 0
         || AlignDown(end + (FRAME_SIZE - 1)) > limit)
  }

  lemma {:induction false} AcceptableMeans(base: nat, entry: nat, size: nat, payload: seq<nat>, limit: nat)
    requires IsBytes(payload) && limit < U64
    ensures Acceptable(base, entry, size, |payload|, limit) <==>
            size == |payload| && Loadable(Image(base, entry, payload), limit)
  {
    assert AlignDown(base + size + (FRAME_SIZE - 1)) == FirstFrame(base + size) * FRAME_SIZE;
  }

  /** A loadable image: page-aligned above the null page, an even entry inside the payload, and
      all of its pages below `limit`. */
  predicate Loadable(image: Image, limit: nat) {
    && IsBytes(image.payload) && image.payload != []
    && FRAME_SIZE <= image.base && image.base % FRAME_SIZE == 0
    && image.base <= image.entry < image.base + |image.payload| && image.entry % 2 == 0
    && FirstFrame(image.base + |image.payload|) * FRAME_SIZE <= limit
  }

  /** The file that holds an image. */
  function Encode(image: Image): seq<nat> {
    MAGIC + ToLE(image.base, 8) + ToLE(image.entry, 8) + ToLE(|image.payload|, 8) + image.payload
  }

  /** The bytes of an image file: the magic text, then load address, entry and length, least significant
      byte first, then the payload. */
  lemma {:induction false} FileBytes(image: Image, k: nat)
    requires k < |Encode(image)|
    ensures |Encode(image)| == 32 + |image.payload|
    ensures Encode(image)[k] ==
            if k < 8 then "BBUSER01"[k] as int
            else if k < 16 then image.base / Power256(k - 8) % 256
            else if k < 24 then image.entry / Power256(k - 16) % 256
            else if k < 32 then |image.payload| / Power256(k - 24) % 256
            else image.payload[k - 32]
  {
    hide ToLE, ByteOf, Power256;
    if 8 <= k < 16 {
      LEBytes(image.base, 8, k - 8);
      ByteIsDigit(image.base, k - 8);
    } else if 16 <= k < 24 {
      LEBytes(image.entry, 8, k - 16);
      ByteIsDigit(image.entry, k - 16);
    } else if 24 <= k < 32 {
      LEBytes(|image.payload|, 8, k - 24);
      ByteIsDigit(|image.payload|, k - 24);
    }
  }

  lemma {:induction false} EightBytes()
    ensures Power256(8) == U64
  {
    assert Power256(4) == 0x1_0000_0000;
    assert Power256(8) == 256 * (256 * (256 * (256 * Power256(4))));
  }

  lemma {:induction false} LoadableFits(image: Image, limit: nat)
    requires Loadable(image, limit) && limit < U64
    ensures IsBytes(image.payload) && image.base < U64 && image.entry < U64 && |image.payload| < U64
  {
  }

  /** Every loadable image is recovered from its file. */
  lemma {:induction false} ParseEncoded(image: Image, limit: nat)
    requires Loadable(image, limit) && limit < U64
    ensures IsBytes(Encode(image)) && Parse(Encode(image), limit) == Loaded(image)
  {
    EightBytes();
    AcceptableMeans(image.base, image.entry, |image.payload|, image.payload, limit);
    LoadableFits(image, limit);
    hide Acceptable, Loadable, FromLE, ToLE, Power256;
    var file := Encode(image);
    var size := |image.payload|;
    LERoundTrip(image.base, 8);
    LERoundTrip(image.entry, 8);
    LERoundTrip(size, 8);
    assert file[..8] == MAGIC;
    assert file[8..16] == ToLE(image.base, 8);
    assert file[16..24] == ToLE(image.entry, 8);
    assert file[24..32] == ToLE(size, 8);
    assert file[32..] == image.payload;
    assert IsBytes(MAGIC);
    assert IsBytes(file);
  }

  /** Nothing else is accepted: an accepted file is the file of a loadable image. */
  lemma {:induction false} ParseAccepts(bytes: seq<nat>, limit: nat)
    requires IsBytes(bytes) && Parse(bytes, limit).Loaded? && limit < U64
    ensures var image := Parse(bytes, limit).value;
            Loadable(image, limit) && bytes == Encode(image)
  {
    hide Acceptable, Loadable, FromLE, ToLE;
    var image := Parse(bytes, limit).value;
    AcceptableMeans(image.base, image.entry, FromLE(bytes[24..32]), image.payload, limit);
    LEInverse(bytes[8..16]);
    LEInverse(bytes[16..24]);
    LEInverse(bytes[24..32]);
    assert bytes == bytes[..8] + bytes[8..16] + bytes[16..24] + bytes[24..32] + bytes[32..];
  }

  /** `Image::parse` on every file: the image that the file holds, if it is loadable; a missing file and
      any other file are told apart. */
  lemma {:induction false} ParseExactly(file: seq<nat>, limit: nat)
    requires IsBytes(file) && limit < U64
    ensures file == [] ==> Parse(file, limit) == NotLoaded(MissingImage)
    ensures file != [] && (forall image :: Loadable(image, limit) ==> Encode(image) != file) ==>
              Parse(file, limit) == NotLoaded(InvalidImage)
    ensures forall image :: Loadable(image, limit) && Encode(image) == file ==> Parse(file, limit) == Loaded(image)
  {
    hide Loadable, Encode;
    forall image | Loadable(image, limit) && Encode(image) == file ensures Parse(file, limit) == Loaded(image) {
      ParseEncoded(image, limit);
    }
    if Parse(file, limit).Loaded? {
      ParseAccepts(file, limit);
    } else {
      ParseErrors(file, limit);
    }
  }

  lemma {:induction false} ParseErrors(file: seq<nat>, limit: nat)
    requires IsBytes(file) && Parse(file, limit).NotLoaded?
    ensures Parse(file, limit).error == if file == [] then MissingImage else InvalidImage
  {
    hide Acceptable, FromLE;
  }

  // ----- Loading pages

  /** The part of the payload that goes to page `k`. */
  function Chunk(payload: seq<nat>, k: nat): (c: seq<nat>)
    requires k * FRAME_SIZE <= |payload|
    ensures |c| <= FRAME_SIZE
  {
    if (k + 1) * FRAME_SIZE <= |payload| then payload[k * FRAME_SIZE..(k + 1) * FRAME_SIZE]
    else payload[k * FRAME_SIZE..]
  }

  /** A page to load. */
  datatype Request = Request(va: nat, bytes: seq<nat>, permissions: Permissions) {
    predicate Valid() {
      |bytes| <= FRAME_SIZE && IsBytes(bytes) && FRAME_SIZE <= va < LOW_HALF_END && va % FRAME_SIZE == 0
    }
  }

  const USER_STACK_TOP: nat := 0x4000_0000
  const STACK_SIZE: nat := 16 * 1024
  const USER_STACK_BOTTOM: nat := USER_STACK_TOP - STACK_SIZE
  const IMAGE_LIMIT: nat := USER_STACK_BOTTOM - FRAME_SIZE
  const STACK_PAGES: nat := STACK_SIZE / FRAME_SIZE

  /** The pages of `Image::load`. */
  function ImageRequests(image: Image): (r: seq<Request>)
    ensures |r| == FirstFrame(|image.payload|)
  {
    seq(FirstFrame(|image.payload|), k requires 0 <= k < FirstFrame(|image.payload|) =>
      Request(image.base + k * FRAME_SIZE, Chunk(image.payload, k), ReadExecute))
  }

  /** The stack pages of `load_init`. */
  function StackRequests(): (r: seq<Request>)
    ensures |r| == STACK_PAGES
  {
    seq(STACK_PAGES, k requires 0 <= k < STACK_PAGES => Request(USER_STACK_BOTTOM + k * FRAME_SIZE, [], ReadWrite))
  }

  predicate AllRequests(requests: seq<Request>) {
    forall k :: 0 <= k < |requests| ==> requests[k].Valid()
  }

  /** Loads requests from number `k` on, stopping at the first failure. */
  function LoadAll(s: State, root: nat, requests: seq<Request>, k: nat): Step<()>
    requires AllRequests(requests) && k <= |requests|
    decreases |requests| - k
  {
    if k == |requests| then Step(s, Ok(()))
    else
      var step := LoadPage(s, root, requests[k].va, requests[k].bytes, requests[k].permissions);
      if step.result.Err? then step else LoadAll(step.state, root, requests, k + 1)
  }

  // ----- What a page holds

  /** Page `p` translates for user code with these permissions to a frame with these words. */
  ghost predicate Holds(mem: Mem, root: nat, pool: set<nat>, p: nat, words: seq<nat>, permissions: Permissions) {
    && UsesPool(mem, root, pool, p)
    && Walk(mem, root, p).flags == LeafFlags(permissions, true)
    && Walk(mem, root, p).frame in mem && mem[Walk(mem, root, p).frame] == words
  }

  lemma {:induction false} HoldsKept(mem: Mem, mem': Mem, root: nat, pool: set<nat>, p: nat, q: nat, words: seq<nat>,
                                     permissions: Permissions)
    requires OthersKept(mem, mem', root, pool, p) && q != p && Holds(mem, root, pool, q, words, permissions)
    ensures Holds(mem', root, pool, q, words, permissions)
  {
  }

  /** One loaded page: on success it holds exactly the given bytes and zeros, mapped for user
      code; nothing else changes for any other page. On failure no translation changes. */
  lemma {:induction false} LoadPageCorrect(s: State, root: nat, fixmap: nat, tokens: set<nat>, t: Tables,
                                           pool: set<nat>,
                        va: nat, bytes: seq<nat>, permissions: Permissions) returns (t': Tables)
    requires SoundTables(s, root, fixmap, tokens, t, pool) && |bytes| <= FRAME_SIZE
    requires FRAME_SIZE <= va < LOW_HALF_END && va % FRAME_SIZE == 0
    ensures var step := LoadPage(s, root, va, bytes, permissions);
            && SoundTables(step.state, root, fixmap, tokens, t', pool)
            && (step.result.Err? ==> SameWalks(s.mem, step.state.mem, root))
            && (step.result.Ok? ==>
                  && Walk(s.mem, root, PageOf(va)) == Fault
                  && Holds(step.state.mem, root, pool, PageOf(va), Contents(bytes), permissions)
                  && OthersKept(s.mem, step.state.mem, root, pool, PageOf(va)))
  {
    hide SoundTables, MapPage, SameWalks, OnlyMapped, Contents, Holds, OthersKept, UsesPool;
    t' := t;
    if s.rest != [] {
      var frame := s.rest[0];
      var taken := s.(rest := s.rest[1..]);
      TakeKeepsTables(s, root, fixmap, tokens, t, pool);
      OwedIsNoToken(s, root, fixmap, tokens, t, pool);
      assert tokens + {frame} - {frame} == tokens;
      if frame < PPN_LIMIT {
        var filled := taken.(mem := taken.mem[frame := Contents(bytes)]);
        WriteKeepsTables(taken, root, fixmap, tokens + {frame}, t, pool, frame, Contents(bytes));
        UserIsNotHeap(va);
        t' := MapKeepsTables(filled, root, fixmap, tokens + {frame}, t, pool, va, frame, permissions, true);
        LoadedPage(s, root, fixmap, tokens, t, pool, va, bytes, permissions);
      } else {
        LessTokens(taken, root, fixmap, tokens + {frame}, t, pool, frame);
        SameWalksSelf(s.mem, root);
      }
    } else {
      SameWalksSelf(s.mem, root);
    }
  }

  lemma {:induction false} LoadedPage(s: State, root: nat, fixmap: nat, tokens: set<nat>, t: Tables, pool: set<nat>,
                   va: nat, bytes: seq<nat>, permissions: Permissions)
    requires SoundTables(s, root, fixmap, tokens, t, pool) && |bytes| <= FRAME_SIZE
    requires s.rest != [] && s.rest[0] < PPN_LIMIT
    requires SoundTables(State(s.mem[s.rest[0] := Contents(bytes)], s.rest[1..]),
                         root, fixmap, tokens + {s.rest[0]}, t, pool)
    requires SameWalks(s.mem, s.mem[s.rest[0] := Contents(bytes)], root)
    ensures var filled := State(s.mem[s.rest[0] := Contents(bytes)], s.rest[1..]);
            var step := MapPage(filled, root, va, s.rest[0], permissions, true);
            && (step.result.Err? ==> SameWalks(s.mem, step.state.mem, root))
            && (step.result.Ok? ==>
                  && Walk(s.mem, root, PageOf(va)) == Fault
                  && Holds(step.state.mem, root, pool, PageOf(va), Contents(bytes), permissions)
                  && OthersKept(s.mem, step.state.mem, root, pool, PageOf(va)))
  {
    OwedIsNoToken(s, root, fixmap, tokens, t, pool);
    hide Walk, Tree, MapPage, Holds, OthersKept, Exclusive, Grown, Ready, CONTROL_PAGE, Contents;
    var filled := State(s.mem[s.rest[0] := Contents(bytes)], s.rest[1..]);
    var step := MapPage(filled, root, va, s.rest[0], permissions, true);
    var t' := MapPageCorrect(filled, t, va, s.rest[0], permissions, true);
    if step.result.Ok? {
      ControlIsMapped(s.mem, root, fixmap);
      OnlyMappedAfter(s.mem, filled.mem, step.state.mem, root, PageOf(va),
                      Mapped(s.rest[0], LeafFlags(permissions, true)));
      FilledFrame(s, t, pool, tokens, filled, step.state, t', PageOf(va), Contents(bytes),
                  LeafFlags(permissions, true));
      FilledHolds(step.state.mem, root, pool, PageOf(va), s.rest[0], Contents(bytes), permissions);
    }
  }

  lemma {:induction false} FilledHolds(mem: Mem, root: nat, pool: set<nat>, p: nat, frame: nat, words: seq<nat>,
                                       permissions: Permissions)
    requires p < PAGE_LIMIT && p != CONTROL_PAGE && frame in pool
    requires Walk(mem, root, p) == Mapped(frame, LeafFlags(permissions, true)) && Contains(mem, root, p, words)
    ensures Holds(mem, root, pool, p, words, permissions)
  {
  }

  // ----- Loading everything

  ghost predicate DistinctPages(requests: seq<Request>) {
    forall i, j :: 0 <= i < j < |requests| ==> PageOf(requests[i].va) != PageOf(requests[j].va)
  }

  /** The first `k` requested pages hold what was asked for, and no other page changed. */
  ghost predicate Installed(mem0: Mem, mem: Mem, root: nat, pool: set<nat>, requests: seq<Request>, k: nat)
    requires AllRequests(requests) && k <= |requests|
  {
    && (forall j :: 0 <= j < k ==>
          Holds(mem, root, pool, PageOf(requests[j].va), Contents(requests[j].bytes), requests[j].permissions))
    && (forall q :: 0 <= q < PAGE_LIMIT && (forall j :: 0 <= j < k ==> q != PageOf(requests[j].va)) ==>
          Walk(mem, root, q) == Walk(mem0, root, q))
  }

  lemma {:induction false} InstalledNext(mem0: Mem, mem: Mem, mem': Mem, root: nat, pool: set<nat>,
                                         requests: seq<Request>, k: nat)
    requires AllRequests(requests) && DistinctPages(requests) && k < |requests|
    requires Installed(mem0, mem, root, pool, requests, k)
    requires Holds(mem', root, pool, PageOf(requests[k].va), Contents(requests[k].bytes), requests[k].permissions)
    requires OthersKept(mem, mem', root, pool, PageOf(requests[k].va))
    ensures Installed(mem0, mem', root, pool, requests, k + 1)
  {
    hide Walk, Contents, Holds, PageOf;
    forall j | 0 <= j < k
      ensures Holds(mem', root, pool, PageOf(requests[j].va), Contents(requests[j].bytes), requests[j].permissions)
    {
      HoldsKept(mem, mem', root, pool, PageOf(requests[k].va), PageOf(requests[j].va),
                Contents(requests[j].bytes), requests[j].permissions);
    }
    forall q | 0 <= q < PAGE_LIMIT && (forall j :: 0 <= j < k + 1 ==> q != PageOf(requests[j].va))
      ensures Walk(mem', root, q) == Walk(mem0, root, q)
    {
      assert q != PageOf(requests[k].va);
    }
  }

  lemma {:induction false} LoadAllCorrect(mem0: Mem, s: State, root: nat, fixmap: nat, tokens: set<nat>, t: Tables,
                                          pool: set<nat>, requests: seq<Request>, k: nat) returns (t': Tables)
    requires AllRequests(requests) && DistinctPages(requests) && k <= |requests|
    requires SoundTables(s, root, fixmap, tokens, t, pool) && Installed(mem0, s.mem, root, pool, requests, k)
    ensures var step := LoadAll(s, root, requests, k);
            && SoundTables(step.state, root, fixmap, tokens, t', pool)
            && (step.result.Ok? ==> Installed(mem0, step.state.mem, root, pool, requests, |requests|))
    decreases |requests| - k
  {
    hide SoundTables, LoadPage, Installed, Holds, OthersKept, SameWalks, Contents, DistinctPages;
    t' := t;
    if k < |requests| {
      var r := requests[k];
      var step := LoadPage(s, root, r.va, r.bytes, r.permissions);
      t' := LoadPageCorrect(s, root, fixmap, tokens, t, pool, r.va, r.bytes, r.permissions);
      if step.result.Ok? {
        InstalledNext(mem0, s.mem, step.state.mem, root, pool, requests, k);
        t' := LoadAllCorrect(mem0, step.state, root, fixmap, tokens, t', pool, requests, k + 1);
      }
    }
  }

  /** Everything `load_init` maps, in its order. */
  function Requests(image: Image): seq<Request> {
    ImageRequests(image) + StackRequests()
  }

  /** First page and number of pages of an image. */
  function FirstPage(image: Image): nat { image.base / FRAME_SIZE }

  const STACK_PAGE: nat := USER_STACK_BOTTOM / FRAME_SIZE

  lemma {:induction false} UserPageNumber(va: nat)
    requires va < LOW_HALF_END
    ensures PageOf(va) == va / FRAME_SIZE && PageOf(va) < HIGH_PAGE
  {
  }

  lemma {:induction false} ImageRequestPages(image: Image, k: nat)
    requires Loadable(image, IMAGE_LIMIT) && k < FirstFrame(|image.payload|)
    ensures var r := ImageRequests(image)[k];
            && r.Valid() && PageOf(r.va) == FirstPage(image) + k
            && 0 < FirstPage(image) && FirstPage(image) + k < STACK_PAGE - 1
  {
    var r := ImageRequests(image)[k];
    assert image.base == FirstPage(image) * FRAME_SIZE;
    assert r.va == (FirstPage(image) + k) * FRAME_SIZE;
    assert FirstFrame(image.base + |image.payload|) == FirstPage(image) + FirstFrame(|image.payload|);
    UserPageNumber(r.va);
  }

  lemma {:induction false} StackRequestPages(k: nat)
    requires k < STACK_PAGES
    ensures var r := StackRequests()[k]; r.Valid() && PageOf(r.va) == STACK_PAGE + k
    ensures STACK_PAGE == 0x3FFFC && STACK_PAGES == 4
  {
    var r := StackRequests()[k];
    assert r.va == (STACK_PAGE + k) * FRAME_SIZE;
    UserPageNumber(r.va);
  }

  lemma {:induction false} RequestsDistinct(image: Image)
    requires Loadable(image, IMAGE_LIMIT)
    ensures AllRequests(Requests(image)) && DistinctPages(Requests(image))
  {
    var n := FirstFrame(|image.payload|);
    var all := Requests(image);
    forall k | 0 <= k < |all|
      ensures all[k].Valid() && PageOf(all[k].va) == if k < n then FirstPage(image) + k else STACK_PAGE + (k - n)
      ensures k < n ==> PageOf(all[k].va) < STACK_PAGE - 1
    {
      if k < n {
        ImageRequestPages(image, k);
      } else {
        StackRequestPages(k - n);
      }
    }
  }

  /** A user load of one byte: nothing when it would fault. */
  ghost function UserByte(mem: Mem, root: nat, va: nat): Option<nat> {
    var to := WalkAddress(mem, root, va);
    if MayRead(to, true) && IsTable(mem, to.frame) then Some(ByteAt(mem[to.frame], va % FRAME_SIZE)) else None
  }

  /** Byte `i` of the image's pages: payload, then zeros; readable and executable, never writable. */
  ghost predicate ImageByteOk(mem: Mem, root: nat, image: Image, i: nat) {
    var to := WalkAddress(mem, root, image.base + i);
    && UserByte(mem, root, image.base + i) == Some(if i < |image.payload| then image.payload[i] else 0)
    && MayExecute(to, true) && !MayWrite(to, true)
  }

  /** A stack byte: zero, readable and writable, never executable. */
  ghost predicate StackByteOk(mem: Mem, root: nat, va: nat) {
    var to := WalkAddress(mem, root, va);
    UserByte(mem, root, va) == Some(0) && MayWrite(to, true) && !MayExecute(to, true)
  }

  /** `load_init`'s memory contents: the image's bytes and zero fill, a zeroed stack, and nothing
      else in the lower half. */
  ghost predicate ProcessImage(mem: Mem, root: nat, image: Image) {
    var first, n := FirstPage(image), FirstFrame(|image.payload|);
    && (forall i :: 0 <= i < n * FRAME_SIZE ==> ImageByteOk(mem, root, image, i))
    && (forall va :: USER_STACK_BOTTOM <= va < USER_STACK_TOP ==> StackByteOk(mem, root, va))
    && (forall p :: 0 <= p < HIGH_PAGE && !(first <= p < first + n) && !(STACK_PAGE <= p < STACK_PAGE + STACK_PAGES) ==>
          Walk(mem, root, p) == Fault)
  }

  /** A user access to a page that holds `bytes` reads those bytes and zeros after them. */
  lemma {:induction false} HeldByte(mem: Mem, root: nat, pool: set<nat>, va: nat, bytes: seq<nat>,
                                    permissions: Permissions)
    requires va < LOW_HALF_END && |bytes| <= FRAME_SIZE && IsBytes(bytes)
    requires Holds(mem, root, pool, PageOf(va), Contents(bytes), permissions)
    ensures var offset := va % FRAME_SIZE;
            UserByte(mem, root, va) == Some(if offset < |bytes| then bytes[offset] else 0)
    ensures MayWrite(WalkAddress(mem, root, va), true) <==> permissions == ReadWrite
    ensures MayExecute(WalkAddress(mem, root, va), true) <==> permissions == ReadExecute
  {
    hide Walk, LeafFlags, Has, Contents;
    LeafGrants(permissions, true);
    ContentsBytes(bytes, va % FRAME_SIZE);
  }

  lemma {:induction false} ImageByte(mem0: Mem, mem: Mem, root: nat, pool: set<nat>, image: Image, i: nat)
    requires Loadable(image, IMAGE_LIMIT) && AllRequests(Requests(image))
    requires Installed(mem0, mem, root, pool, Requests(image), |Requests(image)|)
    requires i < FirstFrame(|image.payload|) * FRAME_SIZE
    ensures ImageByteOk(mem, root, image, i)
  {
    hide Walk, PageOf, Contents, Holds, UserByte, MayExecute, MayWrite, WalkAddress, Chunk, Loadable, FirstFrame;
    var k := i / FRAME_SIZE;
    ImageAddress(image, i);
    var r := Requests(image)[k];
    assert r == ImageRequests(image)[k];
    assert Holds(mem, root, pool, PageOf(r.va), Contents(r.bytes), r.permissions);
    HeldByte(mem, root, pool, image.base + i, r.bytes, r.permissions);
    ChunkByte(image.payload, i);
  }

  lemma {:induction false} ImageAddress(image: Image, i: nat)
    requires Loadable(image, IMAGE_LIMIT) && i < FirstFrame(|image.payload|) * FRAME_SIZE
    ensures var k := i / FRAME_SIZE;
            && k < FirstFrame(|image.payload|)
            && PageOf(ImageRequests(image)[k].va) == PageOf(image.base + i)
            && image.base + i < LOW_HALF_END && (image.base + i) % FRAME_SIZE == i % FRAME_SIZE
  {
    var k := i / FRAME_SIZE;
    ImageRequestPages(image, k);
    assert image.base == FirstPage(image) * FRAME_SIZE;
    assert (image.base + i) / FRAME_SIZE == FirstPage(image) + k;
    assert image.base + i < STACK_PAGE * FRAME_SIZE;
    UserPageNumber(image.base + i);
  }

  lemma {:induction false} ChunkByte(payload: seq<nat>, i: nat)
    requires i < FirstFrame(|payload|) * FRAME_SIZE
    ensures var k, offset := i / FRAME_SIZE, i % FRAME_SIZE;
            && k * FRAME_SIZE <= |payload|
            && (offset < |Chunk(payload, k)| <==> i < |payload|)
            && (i < |payload| ==> Chunk(payload, k)[offset] == payload[i])
  {
    var k, offset := i / FRAME_SIZE, i % FRAME_SIZE;
    assert i == k * FRAME_SIZE + offset;
  }

  lemma {:induction false} StackByte(mem0: Mem, mem: Mem, root: nat, pool: set<nat>, image: Image, va: nat)
    requires AllRequests(Requests(image))
    requires Installed(mem0, mem, root, pool, Requests(image), |Requests(image)|)
    requires USER_STACK_BOTTOM <= va < USER_STACK_TOP
    ensures StackByteOk(mem, root, va)
  {
    hide Walk, PageOf, Contents, Holds, UserByte, MayExecute, MayWrite, WalkAddress, Requests;
    var j := StackRequest(image, va);
    var r := Requests(image)[j];
    assert Holds(mem, root, pool, PageOf(r.va), Contents(r.bytes), r.permissions);
    HeldByte(mem, root, pool, va, r.bytes, r.permissions);
  }

  /** The request for the page of a stack address. */
  lemma {:induction false} StackRequest(image: Image, va: nat) returns (j: nat)
    requires USER_STACK_BOTTOM <= va < USER_STACK_TOP
    ensures va < LOW_HALF_END && j < |Requests(image)| && PageOf(Requests(image)[j].va) == PageOf(va)
    ensures Requests(image)[j].bytes == [] && Requests(image)[j].permissions == ReadWrite
  {
    hide PageOf, ImageRequests, StackRequests;
    var k := StackIndex(va);
    j := |ImageRequests(image)| + k;
    StackRequestShape(k);
  }

  lemma {:induction false} StackIndex(va: nat) returns (k: nat)
    requires USER_STACK_BOTTOM <= va < USER_STACK_TOP
    ensures va < LOW_HALF_END && k < STACK_PAGES && PageOf(va) == STACK_PAGE + k
  {
    k := (va - USER_STACK_BOTTOM) / FRAME_SIZE;
    UserPageNumber(va);
  }

  lemma {:induction false} StackRequestShape(k: nat)
    requires k < STACK_PAGES
    ensures var r := StackRequests()[k]; r.bytes == [] && r.permissions == ReadWrite && PageOf(r.va) == STACK_PAGE + k
  {
    StackRequestPages(k);
  }

  lemma {:induction false} OtherPage(mem0: Mem, mem: Mem, root: nat, pool: set<nat>, image: Image, p: nat)
    requires Loadable(image, IMAGE_LIMIT) && AllRequests(Requests(image))
    requires Installed(mem0, mem, root, pool, Requests(image), |Requests(image)|)
    requires p < HIGH_PAGE
    requires !(FirstPage(image) <= p < FirstPage(image) + FirstFrame(|image.payload|))
    requires !(STACK_PAGE <= p < STACK_PAGE + STACK_PAGES)
    ensures Walk(mem, root, p) == Walk(mem0, root, p)
  {
    hide Walk, PageOf, Contents, Holds;
    var n := FirstFrame(|image.payload|);
    forall j | 0 <= j < |Requests(image)| ensures p != PageOf(Requests(image)[j].va) {
      if j < n {
        ImageRequestPages(image, j);
        assert Requests(image)[j] == ImageRequests(image)[j];
      } else {
        StackRequestPages(j - n);
        assert Requests(image)[j] == StackRequests()[j - n];
      }
    }
  }

  /** After a successful load into an empty lower half, user code sees exactly the image and a
      zeroed stack; the page below the stack and every other user page stay unmapped. */
  lemma {:induction false} LoadProcessCorrect(s: State, root: nat, fixmap: nat, tokens: set<nat>, t: Tables,
                                              pool: set<nat>, image: Image)
    returns (t': Tables)
    requires SoundTables(s, root, fixmap, tokens, t, pool) && Loadable(image, IMAGE_LIMIT)
    requires forall p :: 0 <= p < HIGH_PAGE ==> Walk(s.mem, root, p) == Fault
    ensures AllRequests(Requests(image))
    ensures var step := LoadAll(s, root, Requests(image), 0);
            && SoundTables(step.state, root, fixmap, tokens, t', pool)
            && (step.result.Ok? ==> ProcessImage(step.state.mem, root, image))
  {
    RequestsDistinct(image);
    hide Walk, PageOf, Contents, Holds, UserByte, MayExecute, MayWrite, WalkAddress, LoadPage, SoundTables, Requests;
    hide FirstFrame;
    assert Installed(s.mem, s.mem, root, pool, Requests(image), 0);
    t' := LoadAllCorrect(s.mem, s, root, fixmap, tokens, t, pool, Requests(image), 0);
    var step := LoadAll(s, root, Requests(image), 0);
    if step.result.Ok? {
      LoadedImage(s.mem, step.state.mem, root, pool, image);
    }
  }

  lemma {:induction false} LoadedImage(mem0: Mem, mem: Mem, root: nat, pool: set<nat>, image: Image)
    requires Loadable(image, IMAGE_LIMIT) && AllRequests(Requests(image))
    requires Installed(mem0, mem, root, pool, Requests(image), |Requests(image)|)
    requires forall p :: 0 <= p < HIGH_PAGE ==> Walk(mem0, root, p) == Fault
    ensures ProcessImage(mem, root, image)
  {
    hide Walk, PageOf, Contents, Holds, UserByte, MayExecute, MayWrite, WalkAddress, Requests, FirstFrame, Installed;
    hide Loadable;
    hide ImageByteOk, StackByteOk;
    forall i | 0 <= i < FirstFrame(|image.payload|) * FRAME_SIZE ensures ImageByteOk(mem, root, image, i) {
      ImageByte(mem0, mem, root, pool, image, i);
    }
    forall va | USER_STACK_BOTTOM <= va < USER_STACK_TOP ensures StackByteOk(mem, root, va) {
      StackByte(mem0, mem, root, pool, image, va);
    }
    forall p | 0 <= p < HIGH_PAGE && !(FirstPage(image) <= p < FirstPage(image) + FirstFrame(|image.payload|))
               && !(STACK_PAGE <= p < STACK_PAGE + STACK_PAGES)
      ensures Walk(mem, root, p) == Fault
    {
      OtherPage(mem0, mem, root, pool, image, p);
    }
  }

  // ----- Loading as a run

  /** Loading is a run of page loads that stops at the first failure. */
  lemma {:induction false} LoadAllIsRun(sys: System, requests: seq<Request>, k: nat) returns (ops: seq<Op>)
    requires AllRequests(requests) && k <= |requests|
    ensures Runnable(sys, ops) && Run(sys, ops) == sys.(s := LoadAll(sys.s, sys.root, requests, k).state)
    decreases |requests| - k
  {
    hide LoadPage, Request.Valid;
    if k == |requests| {
      ops := [];
    } else {
      var r := requests[k];
      RequestFits(r);
      var op := LoadUserPage(r.va, r.bytes, r.permissions);
      var next := Apply(sys, op);
      if LoadPage(sys.s, sys.root, r.va, r.bytes, r.permissions).result.Err? {
        ops := [op];
        assert [op][1..] == [];
        assert Run(next, []) == next;
      } else {
        var later := LoadAllIsRun(next, requests, k + 1);
        ops := [op] + later;
        assert ops[1..] == later;
      }
    }
  }

  lemma {:induction false} RequestFits(r: Request)
    requires r.Valid()
    ensures |r.bytes| <= FRAME_SIZE
  {
  }

  /** Loading, complete or cut short by an error, keeps the invariant of the whole system. */
  lemma {:induction false} LoadAllSound(sys: System, requests: seq<Request>, pool: set<nat>)
    requires Sound(sys, pool) && AllRequests(requests)
    ensures Sound(sys.(s := LoadAll(sys.s, sys.root, requests, 0).state), pool)
  {
    hide Sound, LoadAll, Run, Runnable, AllRequests;
    var ops := LoadAllIsRun(sys, requests, 0);
    RunSound(sys, ops, pool);
  }

  /** Loading a process in a sound system with an empty lower half: the system stays sound, heap and
      issued blocks included, and after a success user code sees exactly the image and its stack. */
  lemma {:induction false} ProcessLoads(sys: System, pool: set<nat>, image: Image)
    requires Sound(sys, pool) && Loadable(image, IMAGE_LIMIT) && NoUserPage(sys.s.mem, sys.root)
    ensures AllRequests(Requests(image))
    ensures var step := LoadAll(sys.s, sys.root, Requests(image), 0);
            && Sound(sys.(s := step.state), pool)
            && (step.result.Ok? ==> ProcessImage(step.state.mem, sys.root, image))
  {
    hide SoundTables, LoadAll, Requests, ProcessImage, Loadable, GoodHeap, Walk;
    var t :| SoundWith(sys, t, pool);
    var t' := LoadProcessCorrect(sys.s, sys.root, sys.fixmap, sys.tokens, t, pool, image);
    hide SoundWith;
    LoadAllSound(sys, Requests(image), pool);
  }

  // ----- When loading succeeds

  lemma {:induction false} LoadPageSucceeds(s: State, root: nat, fixmap: nat, tokens: set<nat>, t: Tables,
                                            pool: set<nat>, r: Request)
    requires SoundTables(s, root, fixmap, tokens, t, pool) && r.Valid()
    requires Walk(s.mem, root, PageOf(r.va)) == Fault && Available(s.rest, 3)
    ensures var step := LoadPage(s, root, r.va, r.bytes, r.permissions);
            step.result.Ok? && UsedAtMost(s.rest, step.state.rest, 3)
  {
    hide SoundTables, Walk, MapPage, Contents, UsedAtMost, PageOf;
    RequestShape(r);
    FreshPageMaps(s, root, fixmap, tokens, t, pool, Contents(r.bytes), r.va, r.permissions, true);
  }

  lemma {:induction false} RequestShape(r: Request)
    requires r.Valid()
    ensures FRAME_SIZE <= r.va < LOW_HALF_END && r.va % FRAME_SIZE == 0 && Canonical(r.va) && |r.bytes| <= FRAME_SIZE
  {
  }

  /** Free and distinct pages are all loaded when there are three frames for each. */
  lemma {:induction false} LoadAllSucceeds(s: State, root: nat, fixmap: nat, tokens: set<nat>, t: Tables,
                                           pool: set<nat>,
                                           requests: seq<Request>, k: nat)
    requires SoundTables(s, root, fixmap, tokens, t, pool) && AllRequests(requests) && DistinctPages(requests)
    requires k <= |requests|
    requires forall j :: k <= j < |requests| ==> Walk(s.mem, root, PageOf(requests[j].va)) == Fault
    requires Available(s.rest, 3 * (|requests| - k))
    ensures LoadAll(s, root, requests, k).result.Ok?
    decreases |requests| - k
  {
    hide SoundTables, Walk, LoadPage, PageOf, Available, UsedAtMost, Contents, Holds;
    if k < |requests| {
      var r := requests[k];
      var m := 3 * (|requests| - k - 1);
      assert 3 * (|requests| - k) == 3 + m;
      Enough(s.rest, 3, m);
      LoadPageSucceeds(s, root, fixmap, tokens, t, pool, r);
      var t' := LoadPageCorrect(s, root, fixmap, tokens, t, pool, r.va, r.bytes, r.permissions);
      var step := LoadPage(s, root, r.va, r.bytes, r.permissions);
      StillAvailable(s.rest, step.state.rest, 3, m);
      forall j | k + 1 <= j < |requests| ensures Walk(step.state.mem, root, PageOf(requests[j].va)) == Fault {
        assert PageOf(requests[j].va) != PageOf(r.va);
      }
      LoadAllSucceeds(step.state, root, fixmap, tokens, t', pool, requests, k + 1);
    }
  }

  /** A loadable image is loaded into an empty lower half whenever there are three frames for each
      of its pages and of the stack's. */
  lemma {:induction false} ProcessSucceeds(sys: System, pool: set<nat>, image: Image)
    requires Sound(sys, pool) && Loadable(image, IMAGE_LIMIT) && NoUserPage(sys.s.mem, sys.root)
    requires Available(sys.s.rest, 3 * (FirstFrame(|image.payload|) + STACK_PAGES))
    ensures AllRequests(Requests(image)) && LoadAll(sys.s, sys.root, Requests(image), 0).result.Ok?
  {
    RequestsDistinct(image);
    var requests := Requests(image);
    assert |requests| == FirstFrame(|image.payload|) + STACK_PAGES;
    hide SoundTables, LoadAll, Requests, Loadable, GoodHeap, Walk, PageOf, Available, FirstFrame;
    var t :| SoundWith(sys, t, pool);
    forall j | 0 <= j < |requests| ensures Walk(sys.s.mem, sys.root, PageOf(requests[j].va)) == Fault {
      assert requests[j].Valid();
      UserPageNumber(requests[j].va);
    }
    LoadAllSucceeds(sys.s, sys.root, sys.fixmap, sys.tokens, t, pool, requests, 0);
  }

  // ----- The loader on the running kernel

  /** `image::map_page`. */
  method MapLoadedPage(paging: KernelPaging, frames: BootFrameAllocator, r: Request) returns (result: Result<()>)
    requires paging.Valid(frames) && r.Valid()
    modifies paging.access, paging.access.hart, frames
    ensures paging.Valid(frames)
    ensures Step(paging.View(frames), result)
            == LoadPage(old(paging.View(frames)), paging.Root(), r.va, r.bytes, r.permissions)
  {
    hide Overlay, MapUserPage, KernelPaging.Valid;
    var frame := paging.TakeFrame(frames);
    if frame.None? {
      return Err(OutOfPhysicalFrames);
    }
    var zeroed := paging.WriteFrame(frame.value, Zeros(), frames);
    if zeroed.Err? {
      return Err(zeroed.error);
    }
    if r.bytes != [] {
      var copied := paging.WriteFrame(frame.value, Overlay(Zeros(), r.bytes), frames);
    }
    assert paging.access.hart.mem == old(paging.access.hart.mem)[frame.value := Contents(r.bytes)];
    result := paging.MapUser(r.va, frame.value, r.permissions, frames);
  }

  /** Maps a list of pages one after the other, as the loops of `Image::load` and `load_init` do. */
  method MapRequests(paging: KernelPaging, frames: BootFrameAllocator, requests: seq<Request>)
    returns (result: Result<()>)
    requires paging.Valid(frames) && AllRequests(requests)
    modifies paging.access, paging.access.hart, frames
    ensures paging.Valid(frames)
    ensures Step(paging.View(frames), result) == LoadAll(old(paging.View(frames)), paging.Root(), requests, 0)
  {
    hide LoadPage, KernelPaging.Valid;
    ghost var s0 := paging.View(frames);
    var k := 0;
    while k < |requests|
      invariant 0 <= k <= |requests| && paging.Valid(frames)
      invariant LoadAll(paging.View(frames), paging.Root(), requests, k) == LoadAll(s0, paging.Root(), requests, 0)
    {
      result := MapLoadedPage(paging, frames, requests[k]);
      if result.Err? {
        return;
      }
      k := k + 1;
    }
    return Ok(());
  }

  // ----- The initial process

  /** A loaded image, the context it starts with, and the lower end of its kernel stack. */
  datatype Process = Process(image: Image, context: Trap.Frame, stack: nat)

  /** Memory and heap after `load_init`. */
  datatype InitStep = InitStep(state: State, heap: Heap, result: LoadResult<Process>)

  /** Width of the kernel stack's elements. */
  const STACK_ALIGN: nat := 16

  /** `load_init` after the slot is claimed: the kernel stack from the heap, then the pages. */
  function InitLoad(s: State, root: nat, backing: bool, heap: Heap, image: Image): InitStep
    requires AllRequests(Requests(image))
  {
    var stack := AllocateBlock(s, root, backing, heap, STACK_SIZE, STACK_ALIGN);
    if stack.result.Failed? then InitStep(stack.state, stack.heap, NotLoaded(KernelStackAllocation))
    else
      var step := LoadAll(stack.state, root, Requests(image), 0);
      InitStep(step.state, stack.heap,
               if step.result.Ok? then
                 Loaded(Process(image, Trap.UserContext(image.entry, USER_STACK_TOP), stack.result.value))
               else NotLoaded(Paging(step.result.error)))
  }

  /** The system with other memory and another heap; a lower cursor means that the kernel stack was
      issued. */
  function Moved(sys: System, s: State, heap: Heap): System {
    var issued := sys.heap.Some? && heap.cursor != sys.heap.value.cursor;
    sys.(s := s, heap := Some(heap),
         blocks := if issued then sys.blocks + [Block(heap.cursor, STACK_SIZE, STACK_ALIGN)] else sys.blocks)
  }

  /** The system runs on this memory, root, claim flag and heap. */
  predicate RunsOn(sys: System, s: State, root: nat, backing: bool, heap: Heap) {
    sys.s == s && sys.root == root && sys.claimed == backing && sys.heap == Some(heap)
  }

  /** The memory and the heap belong to a sound system. */
  ghost predicate Sane(s: State, root: nat, backing: bool, heap: Heap) {
    exists sys: System, pool: set<nat> :: Sound(sys, pool) && RunsOn(sys, s, root, backing, heap)
  }

  /** Every sound system stays sound when memory and heap move on. */
  ghost predicate SoundStays(s: State, root: nat, backing: bool, heap: Heap, s': State, heap': Heap) {
    forall sys: System, pool: set<nat> :: Sound(sys, pool) && RunsOn(sys, s, root, backing, heap) ==>
      Sound(Moved(sys, s', heap'), pool)
  }

  /** The kernel stack: aligned, inside the heap, writable for the kernel alone. */
  ghost predicate KernelStackOk(mem: Mem, root: nat, stack: nat) {
    && stack % STACK_ALIGN == 0 && HEAP_START <= stack && stack + STACK_SIZE <= HEAP_END
    && forall a :: stack <= a < stack + STACK_SIZE ==>
         var to := WalkAddress(mem, root, a); MayRead(to, false) && MayWrite(to, false) && !MayExecute(to, false)
  }

  /** A process that can be entered: user code may execute at the entry that the image names, and starts
      there on the top of its stack, with all other registers zero. */
  ghost predicate Enterable(mem: Mem, root: nat, process: Process) {
    && process.context.epc == process.image.entry && MayExecute(WalkAddress(mem, root, process.image.entry), true)
    && |process.context.regs| == 32 && process.context.regs[2] == 0x4000_0000
    && MayWrite(WalkAddress(mem, root, process.context.regs[2] - 1), true)
    && (forall r :: 0 <= r < 32 && r != 2 ==> process.context.regs[r] == 0)
    && process.context.status / 256 % 2 == 0 && process.context.status / 32 % 2 == 1
  }

  lemma {:induction false} EntryIsCode(mem: Mem, root: nat, image: Image, stack: nat)
    requires ProcessImage(mem, root, image) && Loadable(image, IMAGE_LIMIT)
    ensures Enterable(mem, root, Process(image, Trap.UserContext(image.entry, USER_STACK_TOP), stack))
  {
    hide Walk, UserByte, WalkAddress, MayExecute, MayWrite, Has;
    var i := image.entry - image.base;
    EntryInside(image);
    assert ImageByteOk(mem, root, image, i);
    assert StackByteOk(mem, root, USER_STACK_TOP - 1);
  }

  lemma {:induction false} EntryInside(image: Image)
    requires Loadable(image, IMAGE_LIMIT)
    ensures 0 <= image.entry - image.base < FirstFrame(|image.payload|) * FRAME_SIZE
  {
  }

  /** The kernel stack fits into the heap and there are three frames for each of its pages, for each
      page of the image and for each of the user stack. */
  predicate Supplied(rest: seq<nat>, heap: Heap, image: Image) {
    && PlaceBlock(heap.start, heap.cursor, STACK_SIZE, STACK_ALIGN).Some?
    && Available(rest, 3 * (5 + FirstFrame(|image.payload|) + STACK_PAGES))
  }

  /** Issuing the kernel stack is one heap step of the system. */
  lemma {:induction false} StackIsStep(sys: System, pool: set<nat>)
    requires Sound(sys, pool) && sys.heap.Some?
    ensures var step := AllocateBlock(sys.s, sys.root, sys.claimed, sys.heap.value, STACK_SIZE, STACK_ALIGN);
            && Sound(Moved(sys, step.state, step.heap), pool)
            && (step.result.Done? ==> step.heap.cursor == step.result.value
                                      && KernelStackOk(step.state.mem, sys.root, step.result.value))
  {
    hide SoundTables, HeapBacked, AllocateBlock, GoodBlocks, KernelStackOk;
    var heap := sys.heap.value;
    var step := AllocateBlock(sys.s, sys.root, sys.claimed, heap, STACK_SIZE, STACK_ALIGN);
    var op := HeapAllocate(STACK_SIZE, STACK_ALIGN);
    var t :| SoundWith(sys, t, pool);
    AllocateBlockCorrect(sys.s, sys.root, sys.claimed, heap, STACK_SIZE, STACK_ALIGN);
    HeapAllocateSound(sys, t, pool, STACK_SIZE, STACK_ALIGN);
    assert Moved(sys, step.state, step.heap) == Apply(sys, op);
    if step.result.Done? {
      StackIsBacked(Apply(sys, op), pool, step.result.value);
    }
  }

  /** Everything between the backed bottom and the end of the heap is writable for the kernel alone. */
  lemma {:induction false} StackIsBacked(sys: System, pool: set<nat>, stack: nat)
    requires Sound(sys, pool) && sys.heap.Some? && sys.heap.value.mapped <= stack && HEAP_START <= stack
    requires stack % STACK_ALIGN == 0 && stack + STACK_SIZE <= HEAP_END
    ensures KernelStackOk(sys.s.mem, sys.root, stack)
  {
    hide SoundTables, GoodBlocks, Walk, PageOf, AddressOf, HeapBacked, MayRead, MayWrite, MayExecute;
    var t :| SoundWith(sys, t, pool);
    var bottom := Bottom(sys);
    forall a | stack <= a < stack + STACK_SIZE
      ensures var to := WalkAddress(sys.s.mem, sys.root, a);
              MayRead(to, false) && MayWrite(to, false) && !MayExecute(to, false)
    {
      HeapAddressBacked(sys.s.mem, sys.root, bottom, pool, a);
    }
  }

  lemma {:induction false} HeapAddressBacked(mem: Mem, root: nat, bottom: nat, pool: set<nat>, a: nat)
    requires HeapBacked(mem, root, bottom, pool) && HEAP_START <= a < HEAP_END && bottom <= a
    requires bottom % FRAME_SIZE == 0
    ensures var to := WalkAddress(mem, root, a); MayRead(to, false) && MayWrite(to, false) && !MayExecute(to, false)
  {
    hide Walk, PageOf, AddressOf, Canonical, LeafFlags, Has;
    HeapStart();
    HeapPageInside(a);
    assert AddressOf(PageOf(a)) >= bottom;
    LeafGrants(ReadWrite, false);
  }

  lemma {:induction false} HeapPageInside(a: nat)
    requires HEAP_START <= a < HEAP_END
    ensures HEAP_FIRST <= PageOf(a) < HEAP_LIMIT && AddressOf(PageOf(a)) == a - a % FRAME_SIZE
  {
    var va := a - a % FRAME_SIZE;
    hide Canonical, HEAP_FIRST, HEAP_LIMIT, AddressOf;
    HeapStart();
    HeapBounds();
    HeapPageOf(va);
  }

  /** The kernel stack touches at most five pages below the backed suffix. */
  lemma {:induction false} StackPages(heap: Heap)
    requires heap.Valid() && PlaceBlock(heap.start, heap.cursor, STACK_SIZE, STACK_ALIGN).Some?
    ensures var place := PlaceBlock(heap.start, heap.cursor, STACK_SIZE, STACK_ALIGN).value;
            heap.mapped <= AlignDown(place) + 5 * FRAME_SIZE
  {
    hide AlignDown;
    var place := PlaceBlock(heap.start, heap.cursor, STACK_SIZE, STACK_ALIGN).value;
    PagesBetween(heap.mapped, AlignDown(place));
  }

  lemma {:induction false} PagesBetween(high: nat, low: nat)
    requires high % FRAME_SIZE == 0 && low % FRAME_SIZE == 0 && high < low + 6 * FRAME_SIZE
    ensures high <= low + 5 * FRAME_SIZE
  {
  }

  lemma {:induction false} StackSucceeds(sys: System, pool: set<nat>, m: nat)
    requires Sound(sys, pool) && sys.heap.Some? && Available(sys.s.rest, 15 + m)
    requires PlaceBlock(sys.heap.value.start, sys.heap.value.cursor, STACK_SIZE, STACK_ALIGN).Some?
    ensures var step := AllocateBlock(sys.s, sys.root, sys.claimed, sys.heap.value, STACK_SIZE, STACK_ALIGN);
            step.result.Done? && Available(step.state.rest, m)
  {
    hide SoundTables, HeapBacked, AllocateBlock, GoodBlocks, PlaceBlock, Available, UsedAtMost, AlignDown;
    var t :| SoundWith(sys, t, pool);
    StackPages(sys.heap.value);
    Enough(sys.s.rest, 15, m);
    AllocateSucceeds(sys, t, pool, STACK_SIZE, STACK_ALIGN, 5);
    StillAvailable(sys.s.rest,
                   AllocateBlock(sys.s, sys.root, sys.claimed, sys.heap.value, STACK_SIZE, STACK_ALIGN).state.rest,
                   15, m);
  }

  lemma {:induction false} StackKeepsLower(sys: System, pool: set<nat>)
    requires Sound(sys, pool) && sys.heap.Some? && NoUserPage(sys.s.mem, sys.root)
    ensures var step := AllocateBlock(sys.s, sys.root, sys.claimed, sys.heap.value, STACK_SIZE, STACK_ALIGN);
            NoUserPage(step.state.mem, sys.root)
  {
    hide SoundWith, NoUserPage, AllocateBlock;
    var t :| SoundWith(sys, t, pool);
    HeapKeepsLower(sys, t, pool, HeapAllocate(STACK_SIZE, STACK_ALIGN));
  }

  /** Starting the initial process, successful or not, keeps the whole system sound. */
  lemma {:induction false} InitSound(sys: System, pool: set<nat>, image: Image)
    requires Sound(sys, pool) && sys.heap.Some? && AllRequests(Requests(image))
    ensures var step := InitLoad(sys.s, sys.root, sys.claimed, sys.heap.value, image);
            && Sound(Moved(sys, step.state, step.heap), pool)
            && (step.result.Loaded? ==> KernelStackOk(step.state.mem, sys.root, step.result.value.stack))
  {
    hide Sound, LoadAll, Requests, AllocateBlock, KernelStackOk, AllRequests;
    var stack := AllocateBlock(sys.s, sys.root, sys.claimed, sys.heap.value, STACK_SIZE, STACK_ALIGN);
    StackIsStep(sys, pool);
    if stack.result.Done? {
      var between := Moved(sys, stack.state, stack.heap);
      LoadAllSound(between, Requests(image), pool);
      var load := LoadAll(stack.state, sys.root, Requests(image), 0);
      StackInHeap(sys, pool);
      StackIsBacked(between.(s := load.state), pool, stack.result.value);
    }
  }

  /** Where an issued kernel stack lies. */
  lemma {:induction false} StackInHeap(sys: System, pool: set<nat>)
    requires Sound(sys, pool) && sys.heap.Some?
    ensures var step := AllocateBlock(sys.s, sys.root, sys.claimed, sys.heap.value, STACK_SIZE, STACK_ALIGN);
            step.result.Done? ==>
              && step.heap.mapped <= step.result.value && HEAP_START <= step.result.value
              && step.result.value % STACK_ALIGN == 0 && step.result.value + STACK_SIZE <= HEAP_END
  {
    hide SoundTables, HeapBacked, AllocateBlock, GoodBlocks;
    var t :| SoundWith(sys, t, pool);
    AllocateBlockCorrect(sys.s, sys.root, sys.claimed, sys.heap.value, STACK_SIZE, STACK_ALIGN);
  }

  /** Starting the initial process with an empty lower half. A success shows user code exactly the
      image and its stack; a kernel stack that fits and three frames a page are enough for it. */
  lemma {:induction false} InitCorrect(sys: System, pool: set<nat>, image: Image)
    requires Sound(sys, pool) && sys.heap.Some? && Loadable(image, IMAGE_LIMIT) && NoUserPage(sys.s.mem, sys.root)
    ensures AllRequests(Requests(image))
    ensures var step := InitLoad(sys.s, sys.root, sys.claimed, sys.heap.value, image);
            && (step.result.Loaded? ==>
                  && step.result.value.image == image && ProcessImage(step.state.mem, sys.root, image)
                  && Enterable(step.state.mem, sys.root, step.result.value))
            && (Supplied(sys.s.rest, sys.heap.value, image) ==> step.result.Loaded?)
  {
    hide Sound, LoadAll, Requests, AllocateBlock, AllRequests, ProcessImage, Loadable, NoUserPage, Supplied;
    hide KernelStackOk, Enterable;
    var stack := AllocateBlock(sys.s, sys.root, sys.claimed, sys.heap.value, STACK_SIZE, STACK_ALIGN);
    RequestsDistinct(image);
    StackIsStep(sys, pool);
    StackKeepsLower(sys, pool);
    ProcessLoads(Moved(sys, stack.state, stack.heap), pool, image);
    var step := InitLoad(sys.s, sys.root, sys.claimed, sys.heap.value, image);
    if step.result.Loaded? {
      EntryIsCode(step.state.mem, sys.root, image, step.result.value.stack);
    }
    if Supplied(sys.s.rest, sys.heap.value, image) {
      InitSupplied(sys, pool, image);
    }
  }

  lemma {:induction false} InitSupplied(sys: System, pool: set<nat>, image: Image)
    requires Sound(sys, pool) && sys.heap.Some? && Loadable(image, IMAGE_LIMIT) && NoUserPage(sys.s.mem, sys.root)
    requires Supplied(sys.s.rest, sys.heap.value, image) && AllRequests(Requests(image))
    ensures InitLoad(sys.s, sys.root, sys.claimed, sys.heap.value, image).result.Loaded?
  {
    hide Sound, LoadAll, Requests, AllocateBlock, AllRequests, Loadable, NoUserPage, Available, FirstFrame, PlaceBlock;
    hide KernelStackOk;
    var stack := AllocateBlock(sys.s, sys.root, sys.claimed, sys.heap.value, STACK_SIZE, STACK_ALIGN);
    StackIsStep(sys, pool);
    StackKeepsLower(sys, pool);
    var m := 3 * (FirstFrame(|image.payload|) + STACK_PAGES);
    assert 3 * (5 + FirstFrame(|image.payload|) + STACK_PAGES) == 15 + m;
    StackSucceeds(sys, pool, m);
    ProcessSucceeds(Moved(sys, stack.state, stack.heap), pool, image);
  }

  /** `load_init` after the claim, judged on the memory and heap it is given. */
  lemma {:induction false} InitLoads(s: State, root: nat, backing: bool, heap: Heap, image: Image)
    requires Loadable(image, IMAGE_LIMIT) && AllRequests(Requests(image))
    ensures var step := InitLoad(s, root, backing, heap, image);
            && SoundStays(s, root, backing, heap, step.state, step.heap)
            && (Sane(s, root, backing, heap) && NoUserPage(s.mem, root) ==>
                  && (step.result.Loaded? ==>
                        && step.result.value.image == image && ProcessImage(step.state.mem, root, image)
                        && Enterable(step.state.mem, root, step.result.value)
                        && KernelStackOk(step.state.mem, root, step.result.value.stack))
                  && (Supplied(s.rest, heap, image) ==> step.result.Loaded?))
  {
    hide Sound, InitLoad, Requests, AllRequests, ProcessImage, Loadable, NoUserPage, Supplied, KernelStackOk, Moved;
    hide Enterable;
    var step := InitLoad(s, root, backing, heap, image);
    forall sys: System, pool: set<nat> | Sound(sys, pool) && RunsOn(sys, s, root, backing, heap)
      ensures Sound(Moved(sys, step.state, step.heap), pool)
    {
      InitSound(sys, pool, image);
    }
    if Sane(s, root, backing, heap) && NoUserPage(s.mem, root) {
      var sys: System, pool: set<nat> :| Sound(sys, pool) && RunsOn(sys, s, root, backing, heap);
      InitSound(sys, pool, image);
      InitCorrect(sys, pool, image);
    }
  }

  lemma {:induction false} SoundStaysPut(s: State, root: nat, backing: bool, heap: Heap)
    ensures SoundStays(s, root, backing, heap, s, heap)
  {
    hide Sound;
  }

  /** The one-shot process slot. */
  class ProcessSlot {
    var claimed: bool

    /** The file is an image, nothing was loaded before, and there is supply enough. */
    predicate Startable(file: seq<nat>, rest: seq<nat>, heap: Heap)
      requires IsBytes(file)
      reads this
    {
      var parsed := Parse(file, IMAGE_LIMIT);
      parsed.Loaded? && !claimed && Supplied(rest, heap, parsed.value)
    }

    /** `load_init`: the image, the claim, the kernel stack from the heap, then the pages. The heap
        backs the stack through the same tables and takes its frames from the same allocator. */
    method LoadInit(file: seq<nat>, heap: KernelHeap, paging: KernelPaging, frames: BootFrameAllocator)
      returns (r: LoadResult<Process>)
      requires paging.Valid(frames) && heap.View().Valid() && IsBytes(file)
      modifies this, heap`cursor, heap`mappedStart, paging.access, paging.access.hart, frames
      ensures paging.Valid(frames) && heap.View().Valid()
      ensures var parsed := Parse(file, IMAGE_LIMIT);
              if parsed.NotLoaded? || old(claimed) then
                && claimed == old(claimed) && paging.View(frames) == old(paging.View(frames))
                && heap.View() == old(heap.View())
                && r == NotLoaded(if parsed.NotLoaded? then parsed.error else LoadError.AlreadyClaimed)
              else
                && claimed && AllRequests(Requests(parsed.value))
                && InitStep(paging.View(frames), heap.View(), r)
                   == InitLoad(old(paging.View(frames)), paging.Root(), paging.heapClaimed, old(heap.View()),
                               parsed.value)
      ensures Parse(file, IMAGE_LIMIT).Loaded? && !old(claimed) ==>
                var stack := AllocateBlock(old(paging.View(frames)), paging.Root(), paging.heapClaimed,
                                           old(heap.View()), 0x4000, 16);
                && heap.View() == stack.heap
                && (stack.result.Failed? ==> r == NotLoaded(KernelStackAllocation))
                && (stack.result.Done? ==>
                      if r.Loaded? then r.value.stack == stack.result.value
                      else r.error.Paging? && AllRequests(Requests(Parse(file, IMAGE_LIMIT).value))
                           && Err(r.error.error) == LoadAll(stack.state, paging.Root(),
                                                            Requests(Parse(file, IMAGE_LIMIT).value), 0).result)
      ensures r.Loaded? ==> Encode(r.value.image) == file && Loadable(r.value.image, IMAGE_LIMIT)
      ensures SoundStays(old(paging.View(frames)), paging.Root(), paging.heapClaimed, old(heap.View()),
                         paging.View(frames), heap.View())
      ensures var s := old(paging.View(frames));
              Sane(s, paging.Root(), paging.heapClaimed, old(heap.View())) && NoUserPage(s.mem, paging.Root()) ==>
                && (r.Loaded? ==> ProcessImage(paging.View(frames).mem, paging.Root(), r.value.image)
                                  && Enterable(paging.View(frames).mem, paging.Root(), r.value)
                                  && KernelStackOk(paging.View(frames).mem, paging.Root(), r.value.stack))
                && (old(Startable(file, s.rest, heap.View())) ==> r.Loaded?)
    {
      hide LoadAll, AllocateBlock, KernelPaging.Valid, KernelPaging.View, Requests, AllRequests, Acceptable;
      hide Sane, SoundStays, NoUserPage, ProcessImage, KernelStackOk, Supplied, Parse, Loadable, Enterable, Encode;
      SoundStaysPut(paging.View(frames), paging.Root(), paging.heapClaimed, heap.View());
      var parsed := Parse(file, IMAGE_LIMIT);
      if parsed.NotLoaded? {
        return NotLoaded(parsed.error);
      }
      var image := parsed.value;
      if claimed {
        return NotLoaded(LoadError.AlreadyClaimed);
      }
      ParseAccepts(file, IMAGE_LIMIT);
      RequestsDistinct(image);
      InitLoads(paging.View(frames), paging.Root(), paging.heapClaimed, heap.View(), image);
      claimed := true;
      var stack := heap.Allocate(STACK_SIZE, STACK_ALIGN, paging, frames);
      if stack.Failed? {
        return NotLoaded(KernelStackAllocation);
      }
      var result := MapRequests(paging, frames, Requests(image));
      if result.Err? {
        return NotLoaded(Paging(result.error));
      }
      return Loaded(Process(image, Trap.UserContext(image.entry, USER_STACK_TOP), stack.value));
    }
  }
}
