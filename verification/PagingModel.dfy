/** Two-level 32-bit paging (section 4.3 of the Intel SDM, volume 3A) and the operations of
    kernel/kernel/paging.c as functions on one state: physical memory, CR3, the TLB and the set of
    used frames. Page tables are ordinary frames of that memory. */
module PagingModel {
  import opened Bits
  import opened Wrappers
  import opened FrameBitmap

  const ENTRIES := 1024
  const KERNEL_SLOT := 768
  const RECURSIVE_SLOT := 1023

  /** A physical frame number, and a virtual page number: 20 bits each. */
  type FrameNo = n: int | 0 <= n < 0x10_0000
  type PageNo = n: int | 0 <= n < 0x10_0000

  /** The 1024 words of a frame, and the frames of the 32-bit physical address space. */
  type Table = t: seq<uint32> | |t| == ENTRIES witness seq(ENTRIES, _ => 0)
  type Memory = m: seq<Table> | |m| == 0x10_0000 witness seq<Table>(0x10_0000, _ => Zeros())

  function Zeros(): Table
  {
    seq(ENTRIES, _ => 0)
  }

  datatype State = State(mem: Memory, cr3: FrameNo, tlb: map<PageNo, FrameNo>, used: set<nat>)

  // ----- Entries and the hardware walk -----

  predicate Present(entry: uint32)
  {
    entry % 2 == 1
  }

  function FrameOf(entry: uint32): FrameNo
  {
    entry / PAGE_SIZE
  }

  function FlagsOf(entry: uint32): nat
  {
    entry % PAGE_SIZE
  }

  /** A frame number above eleven flag bits above a set present bit. */
  lemma WordParts(frame: nat, low: nat)
    requires low < 2048
    ensures var word := PAGE_SIZE * frame + (2 * low + 1);
            word % 2 == 1 && word / PAGE_SIZE == frame && word % PAGE_SIZE == 2 * low + 1
  {
    assert PAGE_SIZE * frame + (2 * low + 1) == 2 * (2048 * frame + low) + 1;
  }

  /** (pa & PAGE_FRAME) | (flags & 0xFFF) | PAGE_PRESENT, see EntryWord. */
  function Entry(pa: uint32, flags: uint32): (entry: uint32)
    ensures Present(entry) && FrameOf(entry) == pa / PAGE_SIZE && FlagsOf(entry) == flags % PAGE_SIZE / 2 * 2 + 1
  {
    var frame, low := pa / PAGE_SIZE, flags % PAGE_SIZE / 2;
    WordParts(frame, low);
    PAGE_SIZE * frame + (2 * low + 1)
  }

  /** frame | PAGE_PRESENT | PAGE_WRITE: the entry that links a table or maps a boot page. */
  function TableEntry(f: FrameNo): (entry: uint32)
    ensures Present(entry) && FrameOf(entry) == f && FlagsOf(entry) == 3
  {
    WordParts(f, 1);
    f * PAGE_SIZE + 3
  }

  /** The C expression that builds a page table entry is Entry. */
  lemma EntryWord(pa: uint32, flags: uint32)
    ensures Or(Or(And(pa, 0xFFFF_F000), And(flags, 0xFFF)), 1) == Entry(pa, flags)
  {
    PageBase(pa);
    PageOffset(flags);
    OrEntry(pa / PAGE_SIZE, flags);
  }

  /** The page table entry reached for `page`, when its directory entry is present. */
  function Leaf(s: State, page: PageNo): Option<uint32>
  {
    var pde := s.mem[s.cr3][SlotOf(page)];
    if Present(pde) then Some(s.mem[FrameOf(pde)][IndexOf(page)]) else None
  }

  /** The two-level walk of the hardware. */
  function Walk(s: State, page: PageNo): Option<FrameNo>
  {
    match Leaf(s, page)
    case Some(pte) => if Present(pte) then Some(FrameOf(pte)) else None
    case None => None
  }

  /** What an access to `page` uses: the TLB first, then the tables. */
  function Translate(s: State, page: PageNo): Option<FrameNo>
  {
    if page in s.tlb then Some(s.tlb[page]) else Walk(s, page)
  }

  /** Every cached translation is the current one. */
  ghost predicate Coherent(s: State)
  {
    forall p: PageNo :: p in s.tlb ==> Walk(s, p) == Some(s.tlb[p])
  }

  /** What the hardware may do to the TLB on its own: cache any present translation, drop any entry. */
  datatype TlbEvent = TlbEvent(fill: set<PageNo>, evict: set<PageNo>)

  function Age(s: State, e: TlbEvent): State
  {
    s.(tlb := (s.tlb + map p: PageNo | p in e.fill && Walk(s, p).Some? :: Walk(s, p).value) - e.evict)
  }

  /** Any present translation may be cached, any entry dropped, and nothing else happens. */
  lemma AgeExact(s: State, e: TlbEvent, p: PageNo)
    ensures var s' := Age(s, e);
            && s'.mem == s.mem && s'.cr3 == s.cr3 && s'.used == s.used
            && (p in s'.tlb <==> p !in e.evict && (p in s.tlb || (p in e.fill && Walk(s, p).Some?)))
            && (p in s'.tlb ==> s'.tlb[p] == if p in e.fill && Walk(s, p).Some? then Walk(s, p).value else s.tlb[p])
  {
  }

  /** An access uses a cached translation, right or wrong, and walks the tables only without one. */
  lemma CachedFirst(s: State, page: PageNo)
    ensures page in s.tlb ==> Translate(s, page) == Some(s.tlb[page])
    ensures page !in s.tlb ==> Translate(s, page) == Walk(s, page)
  {
  }

  function Invlpg(s: State, page: PageNo): State
  {
    s.(tlb := s.tlb - {page})
  }

  function LoadCr3(s: State): State
  {
    s.(tlb := map[])
  }

  // ----- Addresses -----

  function PageOf(va: uint32): PageNo
  {
    va / PAGE_SIZE
  }

  /** The directory slot and the table index of a page. */
  function SlotOf(page: PageNo): (d: nat)
    ensures d < ENTRIES
  {
    page / ENTRIES
  }

  function IndexOf(page: PageNo): (t: nat)
    ensures t < ENTRIES
  {
    page % ENTRIES
  }

  /** C's `va >> 22` and `(va >> 12) & 0x3FF` are the slot and the index of the page of `va`. */
  lemma AddressSplit(va: uint32)
    ensures Shr(va, 22) == SlotOf(PageOf(va)) && And(Shr(va, 12), 0x3FF) == IndexOf(PageOf(va))
  {
    ByPage(va);
    ByTable(va);
    ByTable(PageOf(va));
    AndOnes(PageOf(va), 10);
  }

  function SetWord(mem: Memory, f: FrameNo, i: nat, w: uint32): Memory
    requires i < ENTRIES
  {
    mem[f := mem[f][i := w]]
  }

  function SetTable(mem: Memory, f: FrameNo, t: Table): Memory
  {
    mem[f := t]
  }

  const KERNEL_VIRTUAL_BASE: uint32 := 0xC000_0000

  function P2V(pa: uint32): uint32
  {
    (pa + KERNEL_VIRTUAL_BASE) % WORD_LIMIT
  }

  /** Physical addresses below 1 GB are reached at 0xC0000000 above them; beyond, the sum wraps. */
  lemma P2VAddress(pa: uint32)
    ensures P2V(pa) == if pa < 0x4000_0000 then pa + 0xC000_0000 else pa - 0x4000_0000
  {
  }

  // ----- Operations of paging.c -----

  /** alloc_frame: the new used set and the address handed out, 0 on failure. */
  function Alloc(used: set<nat>): (set<nat>, uint32)
  {
    match LowestFree(used)
    case Some(f) => (used + {f}, f * PAGE_SIZE)
    case None => (used, 0)
  }

  /** kmalloc_physical_page, and the creation of a table: allocate a frame and zero it. */
  function AllocPage(s: State): (State, uint32)
  {
    var (used', addr) := Alloc(s.used);
    if addr == 0 then (s.(used := used'), 0)
    else (s.(mem := SetTable(s.mem, addr / PAGE_SIZE, Zeros()), used := used'), addr)
  }

  /** get_page_table: the frame of the table for directory slot `d`, created on demand. */
  function GetTable(s: State, d: nat, create: bool): (State, Option<FrameNo>)
    requires d < ENTRIES
  {
    var pde := s.mem[s.cr3][d];
    if Present(pde) then (s, Some(FrameOf(pde)))
    else if !create then (s, None)
    else
      var (s', addr) := AllocPage(s);
      if addr == 0 then (s', None)
      else (s'.(mem := SetWord(s'.mem, s.cr3, d, TableEntry(addr / PAGE_SIZE))), Some(addr / PAGE_SIZE))
  }

  /** map_page_to_frame, with the TLB activity between its stores. */
  function MapPage(s: State, va: uint32, pa: uint32, flags: uint32, hw0: TlbEvent, hw1: TlbEvent): State
  {
    var (s1, table) := GetTable(s, SlotOf(PageOf(va)), true);
    if table.None? then s1
    else
      var s2 := Age(s1, hw0);
      var s3 := s2.(mem := SetWord(s2.mem, table.value, IndexOf(PageOf(va)), Entry(pa, flags)));
      Invlpg(Age(s3, hw1), PageOf(va))
  }

  /** unmap_page, with the TLB activity before its flush. */
  function UnmapPage(s: State, va: uint32, hw: TlbEvent): State
  {
    var (s1, table) := GetTable(s, SlotOf(PageOf(va)), false);
    if table.None? then s1
    else
      var s2 := s1.(mem := SetWord(s1.mem, table.value, IndexOf(PageOf(va)), 0));
      Invlpg(Age(s2, hw), PageOf(va))
  }

  /** kfree_physical_page: neither ownership nor alignment is checked. */
  function FreePage(s: State, addr: uint32): State
  {
    if addr == 0 then s else s.(used := s.used - {addr / PAGE_SIZE})
  }

  /** get_physical_address, with None for "not mapped". */
  function Lookup(s: State, va: uint32): Option<uint32>
  {
    match Walk(s, PageOf(va))
    case Some(f) => Some(f * PAGE_SIZE + va % PAGE_SIZE)
    case None => None
  }
}
