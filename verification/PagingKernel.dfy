/** kernel/kernel/paging.c and setup_page_tables of kernel/arch/i386/boot.S as code on a machine.
    Once paging is on, every load and store goes through the translation the tables define, so the
    code edits its tables through those same tables. */
module PagingKernel {
  import opened Bits
  import opened Wrappers
  import opened FrameBitmap
  import opened PagingModel
  import opened PagingInvariant
  import opened PagingBoot

  const PAGE_PRESENT := 1
  const PAGE_WRITE := 2
  const PAGE_FRAME := 0xFFFF_F000

  /** The page at which P2V shows frame `f` of the first 4 MB. */
  function WindowPage(f: nat): PageNo
    requires f < 1024
  {
    KERNEL_SLOT * ENTRIES + f
  }

  /** The 4 MB window at 0xC0000000 is mapped and any cached part of it is current; the directory and
      the window's own table are in frames the allocator will not hand out. */
  ghost predicate WindowOk(s: State)
  {
    var pde := s.mem[s.cr3][KERNEL_SLOT];
    && s.cr3 < 1024 && s.cr3 in s.used
    && Present(pde) && FrameOf(pde) in s.used && FrameOf(pde) != s.cr3
    && (forall f: nat :: f < 1024 ==> Present(s.mem[FrameOf(pde)][f]) && FrameOf(s.mem[FrameOf(pde)][f]) == f)
    && (forall f: nat :: f < 1024 ==> Translate(s, WindowPage(f)) == Some(f))
  }

  /** The invariant of disciplined runs implies the window that the code relies on. */
  lemma InvWindowOk(w: World, k: Layout)
    requires Inv(w, k)
    ensures WindowOk(w.s)
  {
  }

  /** Stores outside the directory entry and the table of the window leave the window alone. */
  lemma WindowStays(s: State, s': State)
    requires WindowOk(s) && s'.cr3 == s.cr3 && s'.tlb == s.tlb && s.used <= s'.used
    requires s'.mem[s.cr3][KERNEL_SLOT] == s.mem[s.cr3][KERNEL_SLOT]
    requires var table := FrameOf(s.mem[s.cr3][KERNEL_SLOT]); s'.mem[table] == s.mem[table]
    ensures WindowOk(s')
  {
  }

  lemma WindowAges(s: State, e: TlbEvent)
    requires WindowOk(s)
    ensures WindowOk(Age(s, e))
  {
    AgeCoherent(s, e);
    forall f: nat | f < 1024
      ensures Translate(Age(s, e), WindowPage(f)) == Some(f)
    {
      assert Translate(s, WindowPage(f)) == Some(f);
      assert Walk(s, WindowPage(f)) == Some(f);
    }
  }

  /** P2V of an address in a low frame lies in that frame's window page, at the same offset. */
  lemma P2VPage(f: nat, offset: nat)
    requires f < 1024 && offset < PAGE_SIZE
    ensures f * PAGE_SIZE + offset < WORD_LIMIT
    ensures var va := P2V(f * PAGE_SIZE) + offset;
            va < WORD_LIMIT && PageOf(va) == WindowPage(f) && va % PAGE_SIZE == offset
  {
  }

  /** The address of a word of a low frame. */
  lemma P2VWord(f: nat, index: nat)
    requires f < 1024 && index < ENTRIES
    ensures var va := P2V(f * PAGE_SIZE) + 4 * index;
            && va < WORD_LIMIT && va % 4 == 0
            && PageOf(va) == WindowPage(f) && va % PAGE_SIZE / 4 == index
  {
    P2VPage(f, 4 * index);
  }

  lemma TlbIgnoresUsed(s: State, e: TlbEvent)
    ensures Age(s.(used := {}), e).tlb == Age(s, e).tlb
  {
    assert forall p: PageNo :: Walk(s.(used := {}), p) == Walk(s, p);
  }

  // ----- The machine -----

  class Machine {
    var mem: Memory
    var cr3: FrameNo
    var tlb: map<PageNo, FrameNo>
    const bitmap: Bitmap
    /** current_page_directory: a virtual address. */
    var directory: uint32

    ghost predicate Valid()
      reads this, bitmap
    {
      bitmap.Valid()
    }

    ghost function View(): State
      requires Valid()
      reads this, bitmap, bitmap.words
    {
      State(mem, cr3, tlb, bitmap.Frames())
    }

    /** Paging is on and the code's own accesses work. */
    ghost predicate Running()
      requires Valid()
      reads this, bitmap, bitmap.words
    {
      WindowOk(View()) && directory == P2V(cr3 * PAGE_SIZE)
    }

    constructor (mem: Memory)
      ensures Valid() && fresh(bitmap) && fresh(bitmap.words) && this.mem == mem
    {
      this.mem := mem;
      cr3 := 0;
      tlb := map[];
      directory := 0;
      bitmap := new Bitmap();
    }

    // ----- Hardware -----

    method Load(va: uint32) returns (word: uint32)
      requires Valid() && va % 4 == 0 && Translate(View(), PageOf(va)).Some?
      ensures word == mem[Translate(View(), PageOf(va)).value][va % PAGE_SIZE / 4]
    {
      var f := Translate(State(mem, cr3, tlb, {}), PageOf(va));
      word := mem[f.value][va % PAGE_SIZE / 4];
    }

    method Store(va: uint32, word: uint32)
      requires Valid() && va % 4 == 0 && Translate(View(), PageOf(va)).Some?
      modifies this`mem
      ensures mem == SetWord(old(mem), old(Translate(View(), PageOf(va)).value), va % PAGE_SIZE / 4, word)
    {
      var f := Translate(State(mem, cr3, tlb, {}), PageOf(va));
      mem := SetWord(mem, f.value, va % PAGE_SIZE / 4, word);
    }

    /** What the hardware does to the TLB between two instructions. */
    method Tick(e: TlbEvent)
      requires Valid()
      modifies this`tlb
      ensures View() == Age(old(View()), e)
    {
      TlbIgnoresUsed(View(), e);
      tlb := Age(State(mem, cr3, tlb, {}), e).tlb;
    }

    method FlushTlbEntry(va: uint32)
      requires Valid()
      modifies this`tlb
      ensures View() == Invlpg(old(View()), PageOf(va))
    {
      tlb := tlb - {PageOf(va)};
    }

    // ----- boot.S, before paging is on: stores go to physical addresses -----

    method SetupPageTables(bootDirectory: FrameNo, bootTable: FrameNo)
      requires Valid() && bootDirectory != bootTable
      modifies this`mem
      ensures mem == BootMemory(old(mem), bootDirectory, bootTable)
    {
      var edi := 0;
      while edi < ENTRIES
        invariant 0 <= edi <= ENTRIES
        invariant mem == SetTable(old(mem), bootDirectory, mem[bootDirectory])
        invariant forall i :: 0 <= i < edi ==> mem[bootDirectory][i] == 0
      {
        mem := SetWord(mem, bootDirectory, edi, 0);
        edi := edi + 1;
      }
      assert mem[bootDirectory] == Zeros();
      ghost var cleared := mem;
      edi := 0;
      var eax: uint32 := 3;
      while edi < ENTRIES
        invariant 0 <= edi <= ENTRIES && eax == TableEntry(edi)
        invariant mem == SetTable(cleared, bootTable, mem[bootTable])
        invariant forall i :: 0 <= i < edi ==> mem[bootTable][i] == TableEntry(i)
      {
        mem := SetWord(mem, bootTable, edi, eax);
        eax := eax + PAGE_SIZE;
        edi := edi + 1;
      }
      assert mem[bootTable] == BootTable();
      eax := bootTable * PAGE_SIZE + 3;
      mem := SetWord(mem, bootDirectory, 0, eax);
      mem := SetWord(mem, bootDirectory, KERNEL_SLOT, eax);
    }

    /** movl %0, %cr3: loads the directory and empties the TLB. */
    method LoadCr3(dir: FrameNo)
      requires Valid()
      modifies this`cr3, this`tlb
      ensures View() == old(View()).(cr3 := dir, tlb := map[])
    {
      cr3 := dir;
      tlb := map[];
    }

    // ----- paging.c -----

    /** `(*table)[index]` for a table at its window address. */
    method LoadEntry(table: uint32, index: nat, ghost f: nat) returns (word: uint32)
      requires Valid() && f < 1024 && table == P2V(f * PAGE_SIZE) && index < ENTRIES
      requires Translate(View(), WindowPage(f)) == Some(f)
      ensures word == mem[f][index]
    {
      P2VWord(f, index);
      word := Load(table + 4 * index);
    }

    /** `(*table)[index] = word` for a table at its window address. */
    method StoreEntry(table: uint32, index: nat, word: uint32, ghost f: nat)
      requires Valid() && f < 1024 && table == P2V(f * PAGE_SIZE) && index < ENTRIES
      requires Translate(View(), WindowPage(f)) == Some(f)
      modifies this`mem
      ensures mem == SetWord(old(mem), f, index, word)
    {
      P2VWord(f, index);
      Store(table + 4 * index, word);
    }

    /** memset(P2V(frame), 0, PAGE_SIZE), word by word. */
    method ZeroPage(page: uint32, ghost f: FrameNo)
      requires Valid() && WindowOk(View()) && f < 1024 && page == P2V(f * PAGE_SIZE)
      requires f != cr3 && f != FrameOf(mem[cr3][KERNEL_SLOT])
      modifies this`mem
      ensures mem == SetTable(old(mem), f, Zeros())
      ensures WindowOk(View())
    {
      ghost var before := View();
      var i := 0;
      while i < ENTRIES
        invariant 0 <= i <= ENTRIES
        invariant forall j :: 0 <= j < i ==> mem[f][j] == 0
        invariant mem == SetTable(old(mem), f, mem[f])
        invariant WindowOk(View())
      {
        StoreEntry(page, i, 0, f);
        WindowStays(before, View());
        i := i + 1;
      }
      assert mem[f] == Zeros();
    }

    /** alloc_frame followed by the zeroing of the frame through P2V. */
    method AllocZeroed() returns (addr: uint32)
      requires Valid() && WindowOk(View()) && Reachable(bitmap.Frames())
      modifies this`mem, bitmap.words
      ensures WindowOk(View())
      ensures (View(), addr) == AllocPage(old(View()))
      ensures addr % PAGE_SIZE == 0 && addr / PAGE_SIZE < 1024
    {
      ghost var s0 := View();
      addr := bitmap.AllocFrame();
      WindowStays(s0, View());
      if addr != 0 {
        ghost var f: FrameNo := LowestFree(s0.used).value;
        assert addr == f * PAGE_SIZE && addr / PAGE_SIZE == f;
        ZeroPage(P2V(addr), f);
      }
    }

    /** The branch of get_page_table that creates a table. */
    method CreatePageTable(pdindex: nat) returns (table: uint32)
      requires Valid() && Running() && pdindex < ENTRIES
      requires !Present(mem[cr3][pdindex]) && Reachable(bitmap.Frames())
      modifies this`mem, bitmap.words
      ensures Running()
      ensures var (s', f) := GetTable(old(View()), pdindex, true);
              View() == s' && TableAddress(f, table)
    {
      var pageTableAddr := AllocZeroed();
      if pageTableAddr == 0 {
        return 0;
      }
      assert pdindex != KERNEL_SLOT;
      ghost var s1, f := View(), pageTableAddr / PAGE_SIZE;
      LinkWord(f);
      WindowAddress(f);
      StoreEntry(directory, pdindex, Or(Or(pageTableAddr, PAGE_PRESENT), PAGE_WRITE), cr3);
      WindowStays(s1, View());
      table := P2V(pageTableAddr);
    }

    /** Marks the frames of [from, to), stepping a page at a time from `from`. */
    method ReserveRange(from: uint32, to: uint32)
      requires Valid() && to <= 0xFFFF_F000
      modifies bitmap.words
      ensures bitmap.Frames() == old(bitmap.Frames()) + Stepped(from, to)
    {
      var addr: uint32 := from;
      ghost var k := 0;
      while addr < to
        invariant addr == from + PAGE_SIZE * k
        invariant bitmap.Frames() == old(bitmap.Frames()) + Stepped(from, if addr < to then addr else to)
      {
        SteppedGrows(from, addr, to, k);
        bitmap.SetFrame(addr);
        addr := addr + PAGE_SIZE;
        k := k + 1;
      }
    }

    method InitPaging(kernelStart: uint32, kernelEnd: uint32)
      requires Valid() && kernelEnd <= 0xFFFF_F000
      requires cr3 < 1024 && Translate(View(), WindowPage(cr3)) == Some(cr3)
      modifies this, bitmap.words
      ensures View() == Initialized(old(View()), kernelStart, kernelEnd)
      ensures directory == P2V(cr3 * PAGE_SIZE)
    {
      bitmap.Clear();
      ReserveRange(0, 0x10_0000);
      ReserveRange(kernelStart, kernelEnd);
      directory := P2V(cr3 * PAGE_SIZE);
      SetRecursiveSlot();
      LoadCr3(cr3);
    }

    /** (*kernel_page_directory)[1023] = V2P(kernel_page_directory) | PAGE_PRESENT | PAGE_WRITE. */
    method SetRecursiveSlot()
      requires Valid() && cr3 < 1024 && directory == P2V(cr3 * PAGE_SIZE)
      requires Translate(View(), WindowPage(cr3)) == Some(cr3)
      modifies this`mem
      ensures mem == SetWord(old(mem), cr3, RECURSIVE_SLOT, TableEntry(cr3))
    {
      LinkWord(cr3);
      StoreEntry(directory, RECURSIVE_SLOT, Or(Or(cr3 * PAGE_SIZE, PAGE_PRESENT), PAGE_WRITE), cr3);
    }

    method GetPageTable(va: uint32, create: bool) returns (table: uint32)
      requires Valid() && Running() && CanReach(View(), SlotOf(PageOf(va)), create)
      modifies this`mem, bitmap.words
      ensures Running()
      ensures var (s', f) := GetTable(old(View()), SlotOf(PageOf(va)), create);
              View() == s' && TableAddress(f, table)
    {
      var pdindex := Shr(va, 22);
      AddressSplit(va);
      var pde := LoadEntry(directory, pdindex, cr3);
      LowBits(pde);
      if And(pde, PAGE_PRESENT) != 0 {
        PageBase(pde);
        table := P2V(And(pde, PAGE_FRAME));
      } else if create {
        table := CreatePageTable(pdindex);
      } else {
        table := 0;
      }
    }

    method MapPageToFrame(virtAddr: uint32, physAddr: uint32, flags: uint32, hw0: TlbEvent, hw1: TlbEvent)
      requires Valid() && Running() && CanReach(View(), SlotOf(PageOf(virtAddr)), true)
      modifies this`mem, this`tlb, bitmap.words
      ensures View() == MapPage(old(View()), virtAddr, physAddr, flags, hw0, hw1)
    {
      AddressSplit(virtAddr);
      var ptindex := And(Shr(virtAddr, 12), 0x3FF);
      ghost var (s1, f) := GetTable(View(), SlotOf(PageOf(virtAddr)), true);
      var table := GetPageTable(virtAddr, true);
      if table == 0 {
        return;
      }
      Tick(hw0);
      WindowAges(s1, hw0);
      EntryWord(physAddr, flags);
      StoreEntry(table, ptindex, Or(Or(And(physAddr, PAGE_FRAME), And(flags, 0xFFF)), PAGE_PRESENT), f.value);
      Tick(hw1);
      FlushTlbEntry(virtAddr);
    }

    method UnmapPage(virtAddr: uint32, hw: TlbEvent)
      requires Valid() && Running() && CanReach(View(), SlotOf(PageOf(virtAddr)), false)
      modifies this`mem, this`tlb, bitmap.words
      ensures View() == PagingModel.UnmapPage(old(View()), virtAddr, hw)
    {
      AddressSplit(virtAddr);
      var ptindex := And(Shr(virtAddr, 12), 0x3FF);
      ghost var (s1, f) := GetTable(View(), SlotOf(PageOf(virtAddr)), false);
      var table := GetPageTable(virtAddr, false);
      if table == 0 {
        return;
      }
      StoreEntry(table, ptindex, 0, f.value);
      Tick(hw);
      FlushTlbEntry(virtAddr);
    }

    /** The address a virtual address translates to. The result 0 stands both for "not mapped" and
        for physical address 0. */
    method GetPhysicalAddress(virtAddr: uint32) returns (physAddr: uint32)
      requires Valid() && Running() && CanReach(View(), SlotOf(PageOf(virtAddr)), false)
      modifies this`mem, bitmap.words
      ensures View() == old(View())
      ensures physAddr == (match Lookup(old(View()), virtAddr) case Some(pa) => pa case None => 0)
    {
      AddressSplit(virtAddr);
      var ptindex := And(Shr(virtAddr, 12), 0x3FF);
      ghost var (s1, f) := GetTable(View(), SlotOf(PageOf(virtAddr)), false);
      var table := GetPageTable(virtAddr, false);
      if table == 0 {
        return 0;
      }
      var pte := LoadEntry(table, ptindex, f.value);
      LowBits(pte);
      if And(pte, PAGE_PRESENT) == 0 {
        return 0;
      }
      physAddr := FrameAndOffset(pte, virtAddr);
    }

    method KmallocPhysicalPage() returns (addr: uint32)
      requires Valid() && Running() && Reachable(bitmap.Frames())
      modifies this`mem, bitmap.words
      ensures Running()
      ensures (View(), addr) == AllocPage(old(View()))
    {
      addr := AllocZeroed();
    }

    method KfreePhysicalPage(addr: uint32)
      requires Valid()
      modifies bitmap.words
      ensures View() == FreePage(old(View()), addr)
    {
      if addr == 0 {
        return;
      }
      bitmap.FreeFrame(addr);
    }

    // ----- Whole runs of the code -----

    /** From power-on memory to the invariant: the page table part of the boot sequence, then
        init_paging, with any TLB activity in between. */
    method Boot(dir: FrameNo, boot: FrameNo, kernelStart: uint32, kernelEnd: uint32, hw: TlbEvent)
      requires Valid() && dir != boot && dir < 1024 && boot < 1024 && kernelEnd <= 0xFFFF_F000
      requires dir in Reservation(kernelStart, kernelEnd) && boot in Reservation(kernelStart, kernelEnd)
      modifies this, bitmap.words
      ensures Inv(World(View(), {}), Layout(Reservation(kernelStart, kernelEnd), dir, boot))
      ensures Running()
    {
      ghost var powerOn := mem;
      SetupPageTables(dir, boot);
      LoadCr3(dir);
      BootWalk(View(), powerOn, boot, WindowPage(dir));
      Tick(hw);
      ghost var s := View();
      InitPaging(kernelStart, kernelEnd);
      BootEstablishes(s, powerOn, boot, kernelStart, kernelEnd);
      InvWindowOk(World(View(), {}), Layout(Reservation(kernelStart, kernelEnd), dir, boot));
    }

    /** A client's store to word `index` of a mapped page. */
    method ClientWrite(page: PageNo, index: nat, word: uint32)
      requires Valid() && index < ENTRIES && Translate(View(), page).Some?
      modifies this`mem
      ensures mem == SetWord(old(mem), old(Translate(View(), page)).value, index, word)
    {
      assert PageOf(page * PAGE_SIZE + 4 * index) == page;
      Store(page * PAGE_SIZE + 4 * index, word);
    }

    /** The code of one operation does what Step says. */
    method Execute(op: Op, ghost owned: set<nat>, ghost k: Layout) returns (ghost owned': set<nat>)
      requires Valid() && directory == P2V(cr3 * PAGE_SIZE)
      requires Inv(World(View(), owned), k) && Disciplined(World(View(), owned), op)
      modifies this`mem, this`tlb, bitmap.words
      ensures World(View(), owned') == Step(World(old(View()), owned), op)
      ensures Inv(World(View(), owned'), k)
    {
      ghost var w := World(View(), owned);
      InvWindowOk(w, k);
      StepKeeps(w, k, op);
      owned' := Step(w, op).owned;
      match op {
        case Kmalloc =>
          var addr := KmallocPhysicalPage();
        case Kfree(addr) =>
          KfreePhysicalPage(addr);
        case Map(va, pa, flags, hw0, hw1) =>
          InvReach(w, k, SlotOf(PageOf(va)));
          MapPageToFrame(va, pa, flags, hw0, hw1);
        case Unmap(va, hw) =>
          InvReach(w, k, SlotOf(PageOf(va)));
          UnmapPage(va, hw);
        case Hardware(hw) =>
          Tick(hw);
        case Write(page, index, word) =>
          ClientWrite(page, index, word);
      }
    }

    /** The code of a disciplined run, of any length, does what Run says and keeps the invariant. */
    method ExecuteAll(ops: seq<Op>, ghost owned: set<nat>, ghost k: Layout) returns (ghost owned': set<nat>)
      requires Valid() && directory == P2V(cr3 * PAGE_SIZE)
      requires Inv(World(View(), owned), k) && DisciplinedRun(World(View(), owned), ops)
      modifies this`mem, this`tlb, bitmap.words
      ensures World(View(), owned') == Run(World(old(View()), owned), ops)
      ensures Inv(World(View(), owned'), k)
    {
      owned' := owned;
      ghost var w0 := World(View(), owned);
      assert ops[0..] == ops;
      for i := 0 to |ops|
        invariant directory == P2V(cr3 * PAGE_SIZE)
        invariant Inv(World(View(), owned'), k)
        invariant DisciplinedRun(World(View(), owned'), ops[i..])
        invariant Run(World(View(), owned'), ops[i..]) == Run(w0, ops)
      {
        assert ops[i..][0] == ops[i] && ops[i..][1..] == ops[i + 1..];
        owned' := Execute(ops[i], owned', k);
      }
    }
  }

  /** (pte & PAGE_FRAME) + (va & 0xFFF). */
  function FrameAndOffset(pte: uint32, va: uint32): (pa: uint32)
    ensures pa == FrameOf(pte) * PAGE_SIZE + va % PAGE_SIZE
  {
    PageBase(pte);
    PageOffset(va);
    And(pte, PAGE_FRAME) + And(va, 0xFFF)
  }

  lemma WindowAddress(f: nat)
    requires f < 1024
    ensures TableAddress(Some(f), P2V(f * PAGE_SIZE))
  {
    P2VPage(f, 0);
  }

  /** frame | PAGE_PRESENT | PAGE_WRITE. */
  lemma LinkWord(f: nat)
    requires f < 1024
    ensures Or(Or(f * PAGE_SIZE, 1), 2) == TableEntry(f)
  {
    OrOne(f * PAGE_SIZE);
    OrOne(f * 2048);
  }

  /** The table that get_page_table looks up or creates is one that P2V reaches. */
  ghost predicate CanReach(s: State, d: nat, create: bool)
    requires d < ENTRIES
  {
    var pde := s.mem[s.cr3][d];
    if Present(pde) then FrameOf(pde) < 1024 else create ==> Reachable(s.used)
  }

  lemma InvReach(w: World, k: Layout, d: nat)
    requires Inv(w, k) && d < ENTRIES
    ensures Present(w.s.mem[w.s.cr3][d]) ==> FrameOf(w.s.mem[w.s.cr3][d]) < 1024
  {
    if Present(w.s.mem[w.s.cr3][d]) {
      TableKinds(w, k, d);
    }
  }

  /** The virtual address of a table, 0 for none. */
  ghost predicate TableAddress(f: Option<FrameNo>, table: uint32)
  {
    match f
    case Some(frame) => frame < 1024 && table == P2V(frame * PAGE_SIZE) && table != 0
    case None => table == 0
  }
}
