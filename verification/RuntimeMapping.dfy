/** The mappings that the running kernel makes, for user code and for itself: exactly when one is made,
    and what every byte of its page then is.
 */
module RuntimeMapping {
  import opened Memory
  import opened Sv39
  import opened PageTable
  import opened Fixmap
  import FA = FrameAccess
  import opened KernelPaging

  /** A byte of the frame with these permissions, for user code or the kernel and not for the other. */
  predicate Granted(to: Translation, frame: nat, permissions: Permissions, user: bool) {
    && to.Mapped? && to.frame == frame && MayRead(to, user)
    && MayWrite(to, user) == (permissions == ReadWrite) && MayExecute(to, user) == (permissions == ReadExecute)
    && !MayRead(to, !user) && !MayWrite(to, !user) && !MayExecute(to, !user)
  }

  /** Every byte of the page is granted, and every other page translates as before. */
  ghost predicate PageGranted(mem: Mem, mem': Mem, root: nat, va: nat, frame: nat, permissions: Permissions,
                              user: bool) {
    && (forall a :: va <= a < va + 0x1000 ==> Granted(WalkAddress(mem', root, a), frame, permissions, user))
    && (forall p :: 0 <= p < PAGE_LIMIT && p != PageOf(va) ==> Walk(mem', root, p) == Walk(mem, root, p))
  }

  /** The page is free, and the tables that it lacks can be allocated. */
  ghost predicate FreePage(s: State, root: nat, va: nat, frame: nat) {
    && va % 0x1000 == 0 && frame < 0x1000_0000_0000
    && Walk(s.mem, root, PageOf(va)) == Fault && Available(s.rest, TablesNeeded(s.mem, root, PageOf(va)))
  }

  lemma {:induction false} SamePage(va: nat, o: nat)
    requires Canonical(va) && va % 0x1000 == 0 && o < 0x1000
    ensures Canonical(va + o) && PageOf(va + o) == PageOf(va)
  {
    assert (va + o) / FRAME_SIZE == va / FRAME_SIZE;
  }

  lemma {:induction false} LeafGranted(frame: nat, permissions: Permissions, user: bool)
    ensures Granted(Mapped(frame, LeafFlags(permissions, user)), frame, permissions, user)
  {
    LeafGrants(permissions, user);
    hide LeafFlags, Has;
  }

  lemma {:induction false} MappedIsGranted(mem: Mem, mem': Mem, root: nat, va: nat, frame: nat,
                                           permissions: Permissions, user: bool)
    requires Canonical(va) && va % 0x1000 == 0
    requires OnlyMapped(mem, mem', root, PageOf(va), Mapped(frame, LeafFlags(permissions, user)))
    ensures PageGranted(mem, mem', root, va, frame, permissions, user)
  {
    hide Walk, PageOf, LeafFlags, Canonical, Granted;
    LeafGranted(frame, permissions, user);
    forall a | va <= a < va + 0x1000 ensures Granted(WalkAddress(mem', root, a), frame, permissions, user) {
      SamePage(va, a - va);
    }
  }

  /** `map_user_page`: a mapping is made exactly for a free page of the lower half above the null page,
      whose bytes are then user code's with the permissions asked for; else no translation changes. */
  lemma {:induction false} UserMapping(s: State, t: Tables, va: nat, frame: nat, permissions: Permissions)
    requires Ready(s, t) && Clean(s.mem, t)
    ensures var step := MapUserPage(s, t.root, va, frame, permissions);
            && (step.result.Ok? <==> 0x1000 <= va < 0x40_0000_0000 && FreePage(s, t.root, va, frame))
            && (step.result.Ok? ==> PageGranted(s.mem, step.state.mem, t.root, va, frame, permissions, true))
            && (step.result.Err? ==> SameWalks(s.mem, step.state.mem, t.root))
            && (!(0x1000 <= va < 0x40_0000_0000) ==> step == Step(s, Err(VirtualAddressNotUser)))
  {
    hide MapPage, Ready, Clean, Walk, PageOf, OnlyMapped, PageGranted, SameWalks, Available, TablesNeeded, LeafFlags;
    hide Tree;
    FA.SameWalksSelf(s.mem, t.root);
    if 0x1000 <= va < 0x40_0000_0000 {
      MapPageSucceedsExactly(s, t, va, frame, permissions, true);
      var t' := MapPageCorrect(s, t, va, frame, permissions, true);
      var step := MapPage(s, t.root, va, frame, permissions, true);
      if step.result.Ok? {
        MappedIsGranted(s.mem, step.state.mem, t.root, va, frame, permissions, true);
      }
    }
  }

  /** The window's page and, once it is claimed, the heap's range are the kernel's own business. */
  predicate KernelPage(va: nat, claimed: bool) {
    && 0xFFFF_FFC0_0000_0000 <= va < 0x1_0000_0000_0000_0000 && va != 0xFFFF_FFFF_7FE0_1000
    && !(claimed && 0xFFFF_FFE0_0000_0000 <= va < 0xFFFF_FFE0_4000_0000)
  }

  /** `KernelPaging::map_page`: a mapping is made exactly for a free page of the upper half that is not the
      window's and not in the claimed heap, whose bytes are then the kernel's with the permissions asked
      for; else no translation changes. */
  lemma {:induction false} KernelMapping(s: State, t: Tables, claimed: bool, va: nat, frame: nat,
                                         permissions: Permissions)
    requires Ready(s, t) && Clean(s.mem, t)
    ensures var step := MapKernelPage(s, t.root, claimed, va, frame, permissions);
            && (step.result.Ok? <==> KernelPage(va, claimed) && FreePage(s, t.root, va, frame))
            && (step.result.Ok? ==> PageGranted(s.mem, step.state.mem, t.root, va, frame, permissions, false))
            && (step.result.Err? ==> SameWalks(s.mem, step.state.mem, t.root))
            && (va < 0xFFFF_FFC0_0000_0000 ==> step == Step(s, Err(VirtualAddressNotKernel)))
            && (va == 0xFFFF_FFFF_7FE0_1000 ==> step == Step(s, Err(ReservedVirtualPage)))
            && (claimed && 0xFFFF_FFE0_0000_0000 <= va < 0xFFFF_FFE0_4000_0000 ==>
                  step == Step(s, Err(ReservedVirtualPage)))
  {
    hide MapPage, Ready, Clean, Walk, PageOf, OnlyMapped, PageGranted, SameWalks, Available, TablesNeeded, LeafFlags;
    hide Tree;
    KernelAddresses();
    FA.SameWalksSelf(s.mem, t.root);
    hide HEAP_START, HEAP_END, FIXMAP_FRAME_BASE;
    if va >= 0xFFFF_FFC0_0000_0000 {
      MapPageSucceedsExactly(s, t, va, frame, permissions, false);
      var t' := MapPageCorrect(s, t, va, frame, permissions, false);
      var step := MapPage(s, t.root, va, frame, permissions, false);
      if step.result.Ok? {
        MappedIsGranted(s.mem, step.state.mem, t.root, va, frame, permissions, false);
      }
    }
  }

  lemma {:induction false} KernelAddresses()
    ensures HEAP_START == 0xFFFF_FFE0_0000_0000 && HEAP_END == 0xFFFF_FFE0_4000_0000
    ensures FIXMAP_FRAME_BASE == 0xFFFF_FFFF_7FE0_1000
  {
  }
}
