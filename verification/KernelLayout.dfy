/** The kernel's new root in terms of the linker's sections: which bytes can be read, written and
    executed, where they lie, and that nothing else translates.
 */
module KernelLayout {
  import opened Memory
  import opened Sv39
  import opened PageTable
  import opened Fixmap
  import opened KernelSpace

  predicate In(range: Option<VirtRange>, a: nat) {
    range.Some? && range.value.start <= a < range.value.end
  }

  /** The address of a byte of the kernel image or of its boot stack. */
  predicate InKernel(k: Sections, a: nat) {
    In(k.text, a) || In(k.rodata, a) || In(k.data, a) || In(k.bss, a) || In(k.stack, a)
  }

  /** The kernel can read the byte at this frame, and can write or execute it as said. User code can
      do none of it. */
  predicate Shown(to: Translation, frame: int, write: bool, execute: bool) {
    && to.Mapped? && to.frame == frame
    && MayRead(to, false) && MayWrite(to, false) == write && MayExecute(to, false) == execute
    && !MayRead(to, true) && !MayWrite(to, true) && !MayExecute(to, true)
  }

  predicate Lists(range: Option<VirtRange>, permissions: Permissions, section: Section) {
    range.Some? && section == Section(range.value, permissions)
  }

  lemma {:induction false} PresentIs(range: Option<VirtRange>, permissions: Permissions, section: Section)
    ensures section in Present(range, permissions) <==> Lists(range, permissions, section)
  {
  }

  /** What is mapped as a section, and with which permissions. */
  lemma {:induction false} Listed(k: Sections, section: Section)
    ensures section in AllSections(k) <==>
            || Lists(k.text, ReadExecute, section) || Lists(k.rodata, ReadOnly, section)
            || Lists(k.data, ReadWrite, section) || Lists(k.bss, ReadWrite, section)
            || Lists(k.stack, ReadWrite, section)
  {
    hide Present, Lists;
    PresentIs(k.text, ReadExecute, section);
    PresentIs(k.rodata, ReadOnly, section);
    PresentIs(k.data, ReadWrite, section);
    PresentIs(k.bss, ReadWrite, section);
    PresentIs(k.stack, ReadWrite, section);
  }

  lemma {:induction false} ListedByte(s: State, physicalStart: nat, k: Sections, va: nat, dtb: PhysRange,
                                      section: Section, a: nat)
    requires Distinct(s.rest) && SectionsValid(AllSections(k)) && dtb.Valid()
    requires IntoKernel(s, physicalStart, k, va, dtb).result.Ok?
    requires section in AllSections(k) && section.range.start <= a < section.range.end
    ensures var step := IntoKernel(s, physicalStart, k, va, dtb);
            && k.virtualStart <= a
            && Shown(WalkAddress(step.state.mem, step.result.value.root, a),
                     (physicalStart + (a - k.virtualStart)) / FRAME_SIZE,
                     section.permissions == ReadWrite, section.permissions == ReadExecute)
  {
    hide IntoKernel, AllSections, WalkAddress, LeafFlags, Has, SectionsValid;
    var i :| 0 <= i < |AllSections(k)| && AllSections(k)[i] == section;
    SectionByte(s, physicalStart, k, va, dtb, i, a);
    LeafGrants(section.permissions, false);
  }

  /** After a successful `into_kernel` the kernel can execute its text and write its data, its zeroed
      data and its stack, and nothing is both; read-only data is only read. Every byte lies at the load
      address plus its offset from the virtual start. */
  lemma {:induction false} KernelByte(s: State, physicalStart: nat, k: Sections, va: nat, dtb: PhysRange, a: nat)
    requires Distinct(s.rest) && SectionsValid(AllSections(k)) && dtb.Valid()
    requires IntoKernel(s, physicalStart, k, va, dtb).result.Ok?
    ensures InKernel(k, a) ==> k.virtualStart <= a
    ensures var step := IntoKernel(s, physicalStart, k, va, dtb);
            var to := WalkAddress(step.state.mem, step.result.value.root, a);
            var frame := (physicalStart + a - k.virtualStart) / FRAME_SIZE;
            && (In(k.text, a) ==> Shown(to, frame, false, true))
            && (In(k.rodata, a) ==> Shown(to, frame, false, false))
            && (In(k.data, a) || In(k.bss, a) || In(k.stack, a) ==> Shown(to, frame, true, false))
  {
    hide IntoKernel, AllSections, WalkAddress, Shown, SectionsValid;
    if In(k.text, a) {
      Listed(k, Section(k.text.value, ReadExecute));
      ListedByte(s, physicalStart, k, va, dtb, Section(k.text.value, ReadExecute), a);
    }
    if In(k.rodata, a) {
      Listed(k, Section(k.rodata.value, ReadOnly));
      ListedByte(s, physicalStart, k, va, dtb, Section(k.rodata.value, ReadOnly), a);
    }
    if In(k.data, a) {
      Listed(k, Section(k.data.value, ReadWrite));
      ListedByte(s, physicalStart, k, va, dtb, Section(k.data.value, ReadWrite), a);
    }
    if In(k.bss, a) {
      Listed(k, Section(k.bss.value, ReadWrite));
      ListedByte(s, physicalStart, k, va, dtb, Section(k.bss.value, ReadWrite), a);
    }
    if In(k.stack, a) {
      Listed(k, Section(k.stack.value, ReadWrite));
      ListedByte(s, physicalStart, k, va, dtb, Section(k.stack.value, ReadWrite), a);
    }
  }

  // ----- Nothing else

  /** A page of a mapped range starts at an address of that page, inside the range. */
  lemma {:induction false} RangePage(range: VirtRange, frame: nat, permissions: Permissions, p: nat) returns (j: nat)
    requires range.Valid() && InOneHalf(range.start, range.Pages()) && RangeSpan(range, frame, permissions).Covers(p)
    ensures j < range.Pages() && PageOf(range.start + j * FRAME_SIZE) == p && Canonical(range.start + j * FRAME_SIZE)
  {
    hide PageOf, InOneHalf, Canonical;
    j := p - PageOf(range.start);
    assert j * FRAME_SIZE < range.Pages() * FRAME_SIZE;
    LinearByte(range.start, 0, j * FRAME_SIZE, range.Pages());
    WholePage(j);
  }

  lemma {:induction false} WholePage(j: nat)
    ensures j * FRAME_SIZE / FRAME_SIZE == j
  {
  }

  /** The last page that a range needs still holds one of its bytes. */
  lemma {:induction false} NeededPage(range: VirtRange, j: nat)
    requires range.Valid() && j < range.Pages()
    ensures range.start + j * FRAME_SIZE < range.end
  {
    RoundedUp(range.end - range.start);
  }

  /** Every page that the new root translates is the fixmap control page or holds a byte of a section
      or of the device tree's alias. */
  lemma {:induction false} NothingElse(s: State, physicalStart: nat, k: Sections, va: nat, dtb: PhysRange, p: nat)
    returns (a: nat)
    requires Distinct(s.rest) && SectionsValid(AllSections(k)) && dtb.Valid() && p < PAGE_LIMIT
    requires IntoKernel(s, physicalStart, k, va, dtb).result.Ok?
    ensures var step := IntoKernel(s, physicalStart, k, va, dtb);
            Walk(step.state.mem, step.result.value.root, p).Mapped? && p != CONTROL_PAGE ==>
              Canonical(a) && PageOf(a) == p && (InKernel(k, a) || va <= a < va + (dtb.end - dtb.start))
  {
    hide Ready, Clean, Maps, Standing, AllSections, IntoKernel, DtbMapping, MapSections, MapRange, AllocateTable;
    hide RangeSpan, SectionSpans, CONTROL_PAGE, Walk, PageOf, Canonical, InOneHalf;
    a := 0;
    var step, cover := IntoKernel(s, physicalStart, k, va, dtb), DtbMapping(va, dtb);
    var t := IntoKernelCorrect(s, physicalStart, k, va, dtb);
    BuiltSteps(s, physicalStart, k, va, dtb);
    var root, range, list := step.result.value.root, cover.value.0, AllSections(k);
    var spans := Mappings(physicalStart, k, range, cover.value.1, step.result.value.fixmap);
    if Walk(step.state.mem, root, p).Mapped? && p != CONTROL_PAGE {
      var i := CoveringSpan(step.state.mem, root, spans, p);
      SectionSpansLength(list, k.virtualStart, physicalStart);
      if i < |list| {
        SectionSpanAt(list, k.virtualStart, physicalStart, i);
        SectionsMapped(AllocateTable(s).state, root, list, k.virtualStart, physicalStart, i);
        a := SectionPage(k, spans[i], i, physicalStart, p);
      } else if i == |list| {
        RangeMapped(MapSections(AllocateTable(s).state, root, list, k.virtualStart, physicalStart).state, root, range,
                    cover.value.1, ReadOnly);
        a := DtbPage(va, dtb, p);
      }
    }
  }

  lemma {:induction false} CoveringSpan(mem: Mem, root: nat, spans: seq<Span>, p: nat) returns (i: nat)
    requires Maps(mem, root, spans) && p < PAGE_LIMIT && Walk(mem, root, p).Mapped?
    ensures i < |spans| && spans[i].Covers(p)
  {
    hide Walk;
    i :| 0 <= i < |spans| && spans[i].Covers(p);
  }

  lemma {:induction false} SectionPage(k: Sections, span: Span, i: nat, physicalStart: nat, p: nat) returns (a: nat)
    requires i < |AllSections(k)| && AllSections(k)[i].range.Valid()
    requires var section := AllSections(k)[i];
             var frame := SectionFrame(section.range, k.virtualStart, physicalStart);
             && InOneHalf(section.range.start, section.range.Pages())
             && span == RangeSpan(section.range, if frame.Some? then frame.value else 0, section.permissions)
             && span.Covers(p)
    ensures Canonical(a) && PageOf(a) == p && InKernel(k, a)
  {
    hide AllSections, RangeSpan, InOneHalf, PageOf, Canonical;
    var section := AllSections(k)[i];
    Listed(k, section);
    assert section in AllSections(k);
    var frame := SectionFrame(section.range, k.virtualStart, physicalStart);
    var j := RangePage(section.range, if frame.Some? then frame.value else 0, section.permissions, p);
    NeededPage(section.range, j);
    a := section.range.start + j * FRAME_SIZE;
    hide FRAME_SIZE;
    assert In(Some(section.range), a);
  }

  lemma {:induction false} DtbPage(va: nat, dtb: PhysRange, p: nat) returns (a: nat)
    requires dtb.Valid() && DtbMapping(va, dtb).Ok? && DtbMapping(va, dtb).value.0.Valid()
    requires var range := DtbMapping(va, dtb).value.0;
             && InOneHalf(range.start, range.Pages())
             && RangeSpan(range, DtbMapping(va, dtb).value.1, ReadOnly).Covers(p)
    ensures Canonical(a) && PageOf(a) == p && va <= a < va + (dtb.end - dtb.start)
  {
    hide DtbMapping, RangeSpan, PageOf, Canonical;
    DtbPages(va, dtb);
    var range, offset := DtbMapping(va, dtb).value.0, dtb.start % FRAME_SIZE;
    var j := RangePage(range, DtbMapping(va, dtb).value.1, ReadOnly, p);
    if j == 0 {
      a := va;
      LinearByte(range.start, 0, offset, range.Pages());
    } else {
      a := range.start + j * FRAME_SIZE;
      LaterPage(j, range.Pages(), offset, dtb.end - dtb.start);
    }
  }

  lemma {:induction false} LaterPage(j: nat, n: nat, offset: nat, size: nat)
    requires 0 < j < n && offset < FRAME_SIZE && n * FRAME_SIZE < offset + size + FRAME_SIZE
    ensures offset <= j * FRAME_SIZE < offset + size
  {
    assert (n - j) * FRAME_SIZE >= FRAME_SIZE;
  }
}
