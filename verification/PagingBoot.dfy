/** The state that setup_page_tables and init_paging leave: the starting point of every run. */
module PagingBoot {
  import opened Bits
  import opened Wrappers
  import opened FrameBitmap
  import opened PagingModel
  import opened PagingInvariant

  // ----- setup_page_tables -----

  function BootDirectory(boot: FrameNo): Table
  {
    Zeros()[0 := TableEntry(boot)][KERNEL_SLOT := TableEntry(boot)]
  }

  function BootTable(): Table
  {
    seq(ENTRIES, t requires 0 <= t < ENTRIES => TableEntry(t))
  }

  function BootMemory(mem: Memory, dir: FrameNo, boot: FrameNo): Memory
  {
    SetTable(SetTable(mem, boot, BootTable()), dir, BootDirectory(boot))
  }

  /** The boot tables map the first 4 MB at 0 and at 0xC0000000, and nothing else. */
  lemma BootWalk(s: State, mem: Memory, boot: FrameNo, p: PageNo)
    requires s.cr3 != boot && s.mem == BootMemory(mem, s.cr3, boot)
    ensures Walk(s, p) == if SlotOf(p) == 0 || SlotOf(p) == KERNEL_SLOT then Some(IndexOf(p)) else None
  {
  }

  /** The words that setup_page_tables stores, flag bits included: present and writable. */
  lemma BootWords(mem: Memory, dir: FrameNo, boot: FrameNo, f: FrameNo, i: nat)
    requires dir != boot && i < 1024
    ensures BootMemory(mem, dir, boot)[f][i] ==
            if f == dir then (if i == 0 || i == 768 then 4096 * boot + 3 else 0)
            else if f == boot then 4096 * i + 3
            else mem[f][i]
  {
  }

  // ----- init_paging -----

  /** The frames marked by a loop that steps through [from, to) a page at a time. */
  function Stepped(from: uint32, to: uint32): set<nat>
  {
    set f: nat | f < TOTAL_FRAMES && from / PAGE_SIZE <= f && f * PAGE_SIZE + from % PAGE_SIZE < to
  }

  lemma SteppedGrows(from: uint32, addr: uint32, to: uint32, k: nat)
    requires addr == from + PAGE_SIZE * k && addr < to <= 0xFFFF_F000
    ensures var f := addr / PAGE_SIZE;
            var next := addr + PAGE_SIZE;
            Stepped(from, if next < to then next else to) == Stepped(from, addr) + if f < TOTAL_FRAMES then {f} else {}
  {
  }

  /** The bitmap after init_paging. */
  function Reservation(kernelStart: uint32, kernelEnd: uint32): set<nat>
  {
    Stepped(0, 0x10_0000) + Stepped(kernelStart, kernelEnd)
  }

  /** Frame `f` holds a byte of [from, to). */
  predicate Meets(f: nat, from: uint32, to: uint32)
  {
    f * PAGE_SIZE < to && from < (f + 1) * PAGE_SIZE && from < to
  }

  /** The frames that ought to be reserved: low memory and the kernel image. */
  function Occupied(kernelStart: uint32, kernelEnd: uint32): set<nat>
  {
    set f: nat | f < TOTAL_FRAMES && (Meets(f, 0, 0x10_0000) || Meets(f, kernelStart, kernelEnd))
  }

  lemma ReservedMembers(kernelStart: uint32, kernelEnd: uint32, f: nat)
    requires f < TOTAL_FRAMES
    ensures f in Reservation(kernelStart, kernelEnd) ==> f in Occupied(kernelStart, kernelEnd)
    ensures f in Occupied(kernelStart, kernelEnd) && f !in Reservation(kernelStart, kernelEnd) ==>
              kernelStart < kernelEnd && f == (kernelEnd - 1) / PAGE_SIZE
  {
  }

  /** The loops of init_paging reserve exactly the occupied frames, unless the kernel starts at a
      higher offset in its page than it ends: then the last page of the image is missed. The linker
      script starts the image on a page boundary. */
  lemma ReservationExact(kernelStart: uint32, kernelEnd: uint32)
    ensures Reservation(kernelStart, kernelEnd) == Occupied(kernelStart, kernelEnd) <==>
              || kernelEnd <= kernelStart
              || kernelStart % PAGE_SIZE <= (kernelEnd - 1) % PAGE_SIZE
              || (kernelEnd - 1) / PAGE_SIZE < 256 || TOTAL_FRAMES <= (kernelEnd - 1) / PAGE_SIZE
  {
    forall f: nat | f < TOTAL_FRAMES {
      ReservedMembers(kernelStart, kernelEnd, f);
    }
    if kernelStart < kernelEnd && (kernelEnd - 1) / PAGE_SIZE < TOTAL_FRAMES {
      var last := (kernelEnd - 1) / PAGE_SIZE;
      assert last in Occupied(kernelStart, kernelEnd);
      assert last in Reservation(kernelStart, kernelEnd) <==> last < 256 || kernelStart % PAGE_SIZE <= (kernelEnd - 1) % PAGE_SIZE;
    }
  }

  /** The state after init_paging: recursive slot set, bitmap rebuilt, TLB flushed. */
  function Initialized(s: State, kernelStart: uint32, kernelEnd: uint32): State
  {
    State(SetWord(s.mem, s.cr3, RECURSIVE_SLOT, TableEntry(s.cr3)), s.cr3, map[], Reservation(kernelStart, kernelEnd))
  }

  /** Booting and initializing, from any memory and with any TLB activity in between, establishes the
      invariant that all runs keep, provided the two boot frames lie in the reserved low 4 MB. */
  lemma BootEstablishes(s: State, mem: Memory, boot: FrameNo, kernelStart: uint32, kernelEnd: uint32)
    requires s.mem == BootMemory(mem, s.cr3, boot) && s.cr3 != boot && s.cr3 < 1024 && boot < 1024
    requires s.cr3 in Reservation(kernelStart, kernelEnd) && boot in Reservation(kernelStart, kernelEnd)
    ensures Inv(World(Initialized(s, kernelStart, kernelEnd), {}), Layout(Reservation(kernelStart, kernelEnd), s.cr3, boot))
  {
  }

  /** The linker script starts the kernel image on a page boundary. Then the reserved frames are those of
      low memory and those whose first byte lies in the image. */
  lemma ImageReserved(kernelStart: uint32, kernelEnd: uint32, f: nat)
    requires kernelStart % PAGE_SIZE == 0
    ensures f in Reservation(kernelStart, kernelEnd) <==>
            f < 256 || (f < TOTAL_FRAMES && kernelStart <= PAGE_SIZE * f < kernelEnd)
  {
  }

  /** So the directory and the boot table, which lie in the image, are reserved, and boot establishes the
      invariant wherever in its first 4 MB the linker puts them. */
  lemma BootFromImage(s: State, mem: Memory, boot: FrameNo, kernelStart: uint32, kernelEnd: uint32)
    requires s.mem == BootMemory(mem, s.cr3, boot) && s.cr3 != boot && s.cr3 < 1024 && boot < 1024
    requires kernelStart % PAGE_SIZE == 0
    requires kernelStart <= PAGE_SIZE * s.cr3 < kernelEnd && kernelStart <= PAGE_SIZE * boot < kernelEnd
    ensures s.cr3 in Reservation(kernelStart, kernelEnd) && boot in Reservation(kernelStart, kernelEnd)
    ensures Inv(World(Initialized(s, kernelStart, kernelEnd), {}), Layout(Reservation(kernelStart, kernelEnd), s.cr3, boot))
  {
    ImageReserved(kernelStart, kernelEnd, s.cr3);
    ImageReserved(kernelStart, kernelEnd, boot);
    BootEstablishes(s, mem, boot, kernelStart, kernelEnd);
  }

  /** init_paging stores one word, the recursive entry, and empties the TLB. */
  lemma InitWords(s: State, kernelStart: uint32, kernelEnd: uint32, f: FrameNo, i: nat)
    requires i < 1024
    ensures var s' := Initialized(s, kernelStart, kernelEnd);
            && s'.mem[f][i] == (if f == s.cr3 && i == 1023 then 4096 * s.cr3 + 3 else s.mem[f][i])
            && s'.cr3 == s.cr3 && s'.tlb == map[]
  {
  }
}
