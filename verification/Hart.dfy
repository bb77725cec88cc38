/** A hart with its translation cache. Every access goes through a virtual address, and the cache
    may take in any present or absent translation at any moment and drop it again.
 */
module Hart {
  import opened Memory
  import opened Sv39

  /** A cached translation of one page, with the level of the entry it was read from: a superpage
      may be cached piece by piece. */
  datatype Cached = Cached(to: Translation, level: Level)

  type Page = p: nat | p < PAGE_LIMIT

  type Tlb = map<Page, Cached>

  /** What the hart caches for a page. */
  function Lookup(mem: Mem, root: nat, p: nat): Cached {
    Cached(Walk(mem, root, p), DecidedAt(mem, root, 2, p))
  }

  /** Two pages below one entry of that level. */
  predicate Together(p: nat, q: nat, level: Level) {
    p / LevelSpan(level) == q / LevelSpan(level)
  }

  /** A cached translation that disagrees with the tables. */
  predicate Stale(mem: Mem, root: nat, tlb: Tlb, p: nat) {
    p < PAGE_LIMIT && p in tlb && tlb[p].to != Walk(mem, root, p)
  }

  /** No cached translation disagrees with the tables. */
  ghost predicate Coherent(mem: Mem, root: nat, tlb: Tlb) {
    forall q :: 0 <= q < PAGE_LIMIT ==> !Stale(mem, root, tlb, q)
  }

  /** Everything cached is what the tables say, read from the entry that says it. */
  ghost predicate Exact(mem: Mem, root: nat, tlb: Tlb) {
    forall q: Page :: q in tlb ==> tlb[q] == Lookup(mem, root, q)
  }

  /** Between two moments, only translations that changed in memory can have become stale. */
  ghost predicate NoNewStale(root: nat, mem: Mem, tlb: Tlb, mem': Mem, tlb': Tlb) {
    forall q :: 0 <= q < PAGE_LIMIT && !Stale(mem, root, tlb, q) && Walk(mem', root, q) == Walk(mem, root, q) ==>
      !Stale(mem', root, tlb', q)
  }

  /** Whatever is cached was cached before, or was read from memory before or after a store. */
  ghost predicate Derived(root: nat, mem: Mem, tlb: Tlb, mem': Mem, tlb': Tlb) {
    forall q: Page :: q in tlb' ==>
      || (q in tlb && tlb'[q] == tlb[q]) || tlb'[q] == Lookup(mem, root, q) || tlb'[q] == Lookup(mem', root, q)
  }

  /** Whatever is cached after a fence was read since, or belongs to a mapping that does not
      contain the page. */
  ghost predicate Fenced(root: nat, mem: Mem, tlb: Tlb, p: nat, tlb': Tlb) {
    forall q: Page :: q in tlb' ==>
      || tlb'[q] == Lookup(mem, root, q)
      || (q in tlb && tlb'[q] == tlb[q] && !Together(q, p, tlb[q].level))
  }

  lemma {:induction false} ExactIsCoherent(mem: Mem, root: nat, tlb: Tlb)
    requires Exact(mem, root, tlb)
    ensures Coherent(mem, root, tlb)
  {
    hide Walk, DecidedAt;
  }

  class Hart {
    /** Physical memory, cached translations, and the frame of the active root. */
    var mem: Mem
    var tlb: Tlb
    const root: nat

    /** After the switch to a root and the full fence that follows it. */
    constructor (mem: Mem, root: nat)
      ensures this.mem == mem && this.root == root && Exact(mem, root, tlb)
    {
      this.mem := mem;
      this.root := root;
      this.tlb := map[];
      new;
      Speculate();
    }

    /** The hart drops and refills cached translations whenever it likes. */
    method Speculate()
      modifies this`tlb
      ensures Derived(root, mem, old(tlb), mem, tlb) && NoNewStale(root, mem, old(tlb), mem, tlb)
    {
      var dropped: set<Page>, filled: set<Page> := *, *;
      tlb := (tlb - dropped) + map p: Page | p in filled :: Lookup(mem, root, p);
    }

    /** Translates through a cached translation if there is one, else by a walk. */
    method Translate(p: nat) returns (t: Translation)
      requires p < PAGE_LIMIT
      modifies this`tlb
      ensures Derived(root, mem, old(tlb), mem, tlb) && NoNewStale(root, mem, old(tlb), mem, tlb)
      ensures old(!Stale(mem, root, tlb, p)) ==> t == Walk(mem, root, p)
    {
      Speculate();
      t := if p in tlb then tlb[p].to else Walk(mem, root, p);
    }

    /** A supervisor load; the caller shows that it can neither fault nor be stale. */
    method LoadWord(va: nat) returns (word: nat)
      requires Canonical(va) && va % 8 == 0 && !Stale(mem, root, tlb, PageOf(va))
      requires var t := Walk(mem, root, PageOf(va)); MayRead(t, false) && IsTable(mem, t.frame)
      modifies this`tlb
      ensures word == mem[Walk(mem, root, PageOf(va)).frame][WordIndex(va)]
      ensures Derived(root, mem, old(tlb), mem, tlb) && NoNewStale(root, mem, old(tlb), mem, tlb)
    {
      var t := Translate(PageOf(va));
      word := mem[t.frame][WordIndex(va)];
    }

    /** A supervisor store. Only translations that the store itself changes can go stale. */
    method StoreWord(va: nat, word: nat)
      requires Canonical(va) && va % 8 == 0 && !Stale(mem, root, tlb, PageOf(va))
      requires var t := Walk(mem, root, PageOf(va)); MayWrite(t, false) && IsTable(mem, t.frame)
      modifies this`mem, this`tlb
      ensures mem == SetEntry(old(mem), Walk(old(mem), root, PageOf(va)).frame, WordIndex(va), word)
      ensures Derived(root, old(mem), old(tlb), mem, tlb) && NoNewStale(root, old(mem), old(tlb), mem, tlb)
    {
      var t := Translate(PageOf(va));
      mem := SetEntry(mem, t.frame, WordIndex(va), word);
      hide Walk, DecidedAt, SetEntry;
      Speculate();
    }

    /** Bulk stores through one page, covering its whole frame. */
    method StorePage(va: nat, words: seq<nat>)
      requires Canonical(va) && va % FRAME_SIZE == 0 && |words| == ENTRIES && !Stale(mem, root, tlb, PageOf(va))
      requires var t := Walk(mem, root, PageOf(va)); MayWrite(t, false)
      modifies this`mem, this`tlb
      ensures mem == old(mem)[Walk(old(mem), root, PageOf(va)).frame := words]
      ensures Derived(root, old(mem), old(tlb), mem, tlb) && NoNewStale(root, old(mem), old(tlb), mem, tlb)
    {
      var t := Translate(PageOf(va));
      mem := mem[t.frame := words];
      hide Walk, DecidedAt;
      Speculate();
    }

    /** `sfence.vma` for one address: drops everything cached from the entry that maps the address,
        the other pages of a superpage included. */
    method FlushAddress(va: nat)
      modifies this`tlb
      ensures !Stale(mem, root, tlb, PageOf(va))
      ensures Fenced(root, mem, old(tlb), PageOf(va), tlb) && NoNewStale(root, mem, old(tlb), mem, tlb)
    {
      hide Walk, DecidedAt, PageOf;
      var p := PageOf(va);
      tlb := map q: Page | q in tlb && !Together(q, p, tlb[q].level) :: tlb[q];
      Speculate();
    }

    /** `sfence.vma` for the whole address space. */
    method FlushAll()
      modifies this`tlb
      ensures Exact(mem, root, tlb) && Coherent(mem, root, tlb)
    {
      hide Walk, DecidedAt;
      tlb := map[];
      Speculate();
    }
  }
}
