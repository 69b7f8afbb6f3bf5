/** Consequences of the paging invariant, for single operations and for whole runs. */
module PagingTheorems {
  import opened Bits
  import opened Wrappers
  import opened FrameBitmap
  import opened PagingModel
  import opened PagingInvariant

  // ----- The kernel window -----

  /** The first 4 MB are mapped at 0 and at 0xC0000000, whatever the TLB holds. */
  lemma KernelWindow(w: World, k: Layout, p: nat)
    requires Inv(w, k) && p < ENTRIES
    ensures Translate(w.s, p) == Walk(w.s, p) == Some(p)
    ensures Translate(w.s, KERNEL_SLOT * ENTRIES + p) == Walk(w.s, KERNEL_SLOT * ENTRIES + p) == Some(p)
  {
  }

  /** P2V and its translation are inverse on the window, after every disciplined run. */
  lemma WindowAfterRun(w: World, k: Layout, ops: seq<Op>, pa: uint32)
    requires Inv(w, k) && DisciplinedRun(w, ops) && pa < 0x40_0000
    ensures Lookup(Run(w, ops).s, pa) == Some(pa)
    ensures Lookup(Run(w, ops).s, 0xC000_0000 + pa) == Some(pa)
  {
    RunKeeps(w, k, ops);
    WindowLookup(Run(w, ops), k, pa);
  }

  lemma WindowLookup(w: World, k: Layout, pa: uint32)
    requires Inv(w, k) && pa < 0x40_0000
    ensures Lookup(w.s, pa) == Some(pa) && Lookup(w.s, 0xC000_0000 + pa) == Some(pa)
  {
    WindowPages(pa);
    KernelWindow(w, k, pa / PAGE_SIZE);
  }

  lemma WindowPages(pa: nat)
    requires pa < 0x40_0000
    ensures PageOf(pa) == pa / PAGE_SIZE < ENTRIES && PageOf(0xC000_0000 + pa) == KERNEL_SLOT * ENTRIES + pa / PAGE_SIZE
    ensures (0xC000_0000 + pa) % PAGE_SIZE == pa % PAGE_SIZE && pa == pa / PAGE_SIZE * PAGE_SIZE + pa % PAGE_SIZE
  {
  }

  // ----- The recursive slot -----

  /** Address 0xFFC00000 + 4096*d + 4*t is the entry word that map_page_to_frame writes for page
      (d, t); for d = 1023 it is directory entry t itself. */
  lemma RecursiveSlot(w: World, k: Layout, d: nat, t: nat)
    requires Inv(w, k) && d < ENTRIES && t < ENTRIES && Present(w.s.mem[w.s.cr3][d])
    ensures var (s', table) := GetTable(w.s, d, true);
            && s' == w.s && table.Some?
            && Leaf(w.s, d * ENTRIES + t) == Some(w.s.mem[table.value][t])
            && Lookup(w.s, 0xFFC0_0000 + PAGE_SIZE * d + 4 * t) == Some(PAGE_SIZE * table.value + 4 * t)
            && (d == RECURSIVE_SLOT ==> table == Some(w.s.cr3))
  {
  }

  lemma RecursiveSlotAfterRun(w: World, k: Layout, ops: seq<Op>, d: nat, t: nat)
    requires Inv(w, k) && DisciplinedRun(w, ops) && d < ENTRIES && t < ENTRIES
    ensures var s := Run(w, ops).s;
            Present(s.mem[s.cr3][d]) ==>
              Lookup(s, 0xFFC0_0000 + PAGE_SIZE * d + 4 * t) == Some(PAGE_SIZE * FrameOf(s.mem[s.cr3][d]) + 4 * t)
  {
    RunKeeps(w, k, ops);
    var s := Run(w, ops).s;
    if Present(s.mem[s.cr3][d]) {
      RecursiveSlot(Run(w, ops), k, d, t);
    }
  }

  // ----- Allocation -----

  /** A page handed out was in nobody's hands, is zeroed and reachable, and no other frame changes;
      0 means that every frame is used. */
  lemma KmallocFresh(w: World, k: Layout)
    requires Inv(w, k) && Reachable(w.s.used)
    ensures var (s', addr) := AllocPage(w.s);
            var f := addr / PAGE_SIZE;
            if addr == 0 then s' == w.s && forall g: nat :: g < TOTAL_FRAMES ==> g in w.s.used
            else
              && addr % PAGE_SIZE == 0 && f < 1024
              && f !in k.reserved && f !in w.owned && !IsTable(w.s, f)
              && s'.mem[f] == Zeros()
              && (forall g: FrameNo :: g != f ==> s'.mem[g] == w.s.mem[g])
              && s'.used == w.s.used + {f}
  {
  }

  /** Without the discipline, freed frame 0 is handed out as address 0: it is marked used, yet every
      caller takes it for a failure. Address 0 means "no memory" exactly when frame 0 is used. */
  lemma ZeroMeansFailure(used: set<nat>)
    ensures 0 in used <==> (Alloc(used).1 == 0 <==> LowestFree(used).None?)
  {
  }

  /** kfree_physical_page checks nothing. What it does to the accounts is harmless exactly when the
      address is 0, lies in a frame its caller holds, or lies in a frame that is not in use: freeing
      a reserved frame or a page table always breaks the invariant. */
  lemma FreeExact(w: World, k: Layout, addr: uint32)
    requires Inv(w, k)
    ensures Inv(World(FreePage(w.s, addr), if addr == 0 then w.owned else w.owned - {addr / PAGE_SIZE}), k)
            <==> addr == 0 || addr / PAGE_SIZE in w.owned || addr / PAGE_SIZE !in w.s.used
  {
    var f := addr / PAGE_SIZE;
    var w' := World(FreePage(w.s, addr), if addr == 0 then w.owned else w.owned - {f});
    if addr == 0 || f in w.owned {
      KfreeKeeps(w, k, addr);
    } else if f !in w.s.used {
      assert w' == w;
    } else {
      assert f in k.reserved || IsTable(w.s, f);
      if IsTable(w.s, f) {
        var d :| Holds(w.s, d, f);
        assert Holds(w'.s, d, f);
      }
      assert f !in w'.s.used;
    }
  }

  // ----- Conservation -----

  function ClientSlots(s: State): set<nat>
  {
    set d | 0 <= d < ENTRIES && ClientSlot(d) && Present(s.mem[s.cr3][d])
  }

  function TablesOf(s: State, slots: set<nat>): set<nat>
    requires forall d :: d in slots ==> d < ENTRIES
  {
    set d | d in slots :: FrameOf(s.mem[s.cr3][d])
  }

  /** Distinct slots have distinct tables. */
  lemma {:induction false} TablesCount(w: World, k: Layout, slots: set<nat>)
    requires Inv(w, k) && slots <= ClientSlots(w.s)
    ensures |TablesOf(w.s, slots)| == |slots|
    decreases |slots|
  {
    if slots != {} {
      var d :| d in slots;
      var f := FrameOf(w.s.mem[w.s.cr3][d]);
      var rest := slots - {d};
      TablesCount(w, k, rest);
      assert Holds(w.s, d, f);
      forall e | e in rest
        ensures FrameOf(w.s.mem[w.s.cr3][e]) != f
      {
        assert Holds(w.s, e, FrameOf(w.s.mem[w.s.cr3][e]));
      }
      assert TablesOf(w.s, slots) == TablesOf(w.s, rest) + {f};
    }
  }

  /** Every used frame is reserved, held by a client or one present table, and none is two of these. */
  lemma Conservation(w: World, k: Layout)
    requires Inv(w, k)
    ensures w.s.used == k.reserved + w.owned + TablesOf(w.s, ClientSlots(w.s))
    ensures |w.s.used| == |k.reserved| + |w.owned| + |ClientSlots(w.s)|
  {
    var tables := TablesOf(w.s, ClientSlots(w.s));
    forall f: nat
      ensures f in tables <==> IsTable(w.s, f)
    {
      ClientTables(w.s, f);
    }
    TablesCount(w, k, ClientSlots(w.s));
    ThreeSets(w.s.used, k.reserved, w.owned, tables);
  }

  lemma ClientTables(s: State, f: nat)
    ensures f in TablesOf(s, ClientSlots(s)) <==> IsTable(s, f)
  {
    if IsTable(s, f) {
      var d :| Holds(s, d, f);
      assert d in ClientSlots(s);
    }
    if f in TablesOf(s, ClientSlots(s)) {
      var d :| d in ClientSlots(s) && FrameOf(s.mem[s.cr3][d]) == f;
      assert Holds(s, d, f);
    }
  }

  lemma ThreeSets(all: set<FrameNo>, a: set<FrameNo>, b: set<FrameNo>, c: set<FrameNo>)
    requires a !! b && a !! c && b !! c && forall f :: f in all <==> f in a || f in b || f in c
    ensures all == a + b + c && |all| == |a| + |b| + |c|
  {
    assert |a + b| == |a| + |b|;
    assert |(a + b) + c| == |a + b| + |c|;
  }

  lemma ConservationAfterRun(w: World, k: Layout, ops: seq<Op>)
    requires Inv(w, k) && DisciplinedRun(w, ops)
    ensures var w' := Run(w, ops);
            && w'.s.used == k.reserved + w'.owned + TablesOf(w'.s, ClientSlots(w'.s))
            && |w'.s.used| == |k.reserved| + |w'.owned| + |ClientSlots(w'.s)|
  {
    RunKeeps(w, k, ops);
    Conservation(Run(w, ops), k);
  }

  // ----- The tables refine a map from pages to frames and flags -----

  datatype Mapped = Mapped(frame: FrameNo, flags: nat)

  function MappedAs(entry: uint32): Mapped
  {
    Mapped(FrameOf(entry), FlagsOf(entry))
  }

  /** What `page` maps to, if anything. */
  function At(s: State, page: PageNo): Option<Mapped>
  {
    match Leaf(s, page)
    case Some(entry) => if Present(entry) then Some(MappedAs(entry)) else None
    case None => None
  }

  /** The abstract value of the tables: what each mapped page maps to. */
  function Mapping(s: State): map<PageNo, Mapped>
  {
    map p: PageNo | At(s, p).Some? :: At(s, p).value
  }

  /** The page at which the recursive slot shows the table of slot `d`. */
  function TablePage(d: nat): PageNo
    requires d < ENTRIES
  {
    RECURSIVE_SLOT * ENTRIES + d
  }

  lemma RecursivePage(d: nat)
    requires d < ENTRIES
    ensures SlotOf(TablePage(d)) == RECURSIVE_SLOT && IndexOf(TablePage(d)) == d
  {
  }

  lemma UpdateMapping(s: State, s': State, page: PageNo, leaf: uint32)
    requires LeafUpdate(s, s', page, leaf)
    ensures Mapping(s') == if Present(leaf) then Mapping(s)[page := MappedAs(leaf)] else Mapping(s) - {page}
  {
  }

  lemma SameAt(s: State, s': State, page: PageNo)
    requires page in Mapping(s) <==> page in Mapping(s')
    requires page in Mapping(s) ==> Mapping(s)[page] == Mapping(s')[page]
    ensures At(s, page) == At(s', page) && Walk(s, page) == Walk(s', page)
  {
  }

  lemma LinkAt(w: World, k: Layout, d: nat, f: FrameNo, p: PageNo)
    requires CanLink(w, k, d, f)
    ensures At(Linked(w.s, d, f), p) == if p == TablePage(d) then Some(Mapped(f, 3)) else At(w.s, p)
  {
    LinkLeaf(w, k, d, f, p);
  }

  lemma LinkMapping(w: World, k: Layout, d: nat, f: FrameNo)
    requires CanLink(w, k, d, f)
    ensures Mapping(Linked(w.s, d, f)) == Mapping(w.s)[TablePage(d) := Mapped(f, 3)]
  {
    forall p: PageNo {
      LinkAt(w, k, d, f, p);
    }
  }

  /** The entry word that map_page_to_frame builds. */
  lemma EntryFields(pa: uint32, flags: uint32)
    ensures Present(Entry(pa, flags))
    ensures MappedAs(Entry(pa, flags)) == Mapped(pa / PAGE_SIZE, flags % PAGE_SIZE / 2 * 2 + 1)
  {
  }

  /** What map_page_to_frame does once it has a table. */
  lemma MapEdits(w: World, k: Layout, va: uint32, pa: uint32, flags: uint32, hw0: TlbEvent, hw1: TlbEvent)
    requires Inv(w, k) && Disciplined(w, Map(va, pa, flags, hw0, hw1))
    ensures var (s1, table) := GetTable(w.s, SlotOf(PageOf(va)), true);
            var s' := MapPage(w.s, va, pa, flags, hw0, hw1);
            if table.Some? then s'.used == s1.used && Mapping(s') == Mapping(s1)[PageOf(va) := MappedAs(Entry(pa, flags))]
            else s' == w.s
  {
    var (s1, table) := GetTable(w.s, SlotOf(PageOf(va)), true);
    TableForMap(w, k, SlotOf(PageOf(va)));
    if table.Some? {
      MapTail(w.(s := s1), k, va, table.value, Entry(pa, flags), hw0, hw1);
      UpdateMapping(s1, MapPage(w.s, va, pa, flags, hw0, hw1), PageOf(va), Entry(pa, flags));
      EntryFields(pa, flags);
    }
  }

  /** map_page_to_frame sets one key of the map, adding the new table's own page when it had to
      create one; it changes nothing when no frame is left for the table. */
  lemma MapRefines(w: World, k: Layout, va: uint32, pa: uint32, flags: uint32, hw0: TlbEvent, hw1: TlbEvent)
    requires Inv(w, k) && Disciplined(w, Map(va, pa, flags, hw0, hw1))
    ensures var s' := MapPage(w.s, va, pa, flags, hw0, hw1);
            var d := SlotOf(PageOf(va));
            var free := LowestFree(w.s.used);
            var new' := Mapped(pa / PAGE_SIZE, flags % PAGE_SIZE / 2 * 2 + 1);
            if Present(w.s.mem[w.s.cr3][d]) then
              Mapping(s') == Mapping(w.s)[PageOf(va) := new'] && s'.used == w.s.used
            else if free.Some? then
              && Mapping(s') == Mapping(w.s)[TablePage(d) := Mapped(free.value, 3)][PageOf(va) := new']
              && s'.used == w.s.used + {free.value}
            else s' == w.s
  {
    MapEdits(w, k, va, pa, flags, hw0, hw1);
    EntryFields(pa, flags);
    var d := SlotOf(PageOf(va));
    var free := LowestFree(w.s.used);
    if !Present(w.s.mem[w.s.cr3][d]) && free.Some? {
      CreateIsLink(w, k, d, free.value);
      LinkMapping(w, k, d, free.value);
    }
  }

  /** unmap_page removes one key. */
  lemma UnmapRefines(w: World, k: Layout, va: uint32, hw: TlbEvent)
    requires Inv(w, k) && Disciplined(w, Unmap(va, hw))
    ensures Mapping(UnmapPage(w.s, va, hw)) == Mapping(w.s) - {PageOf(va)}
    ensures UnmapPage(w.s, va, hw).used == w.s.used
  {
    UnmapKeeps(w, k, va, hw);
    if Present(w.s.mem[w.s.cr3][SlotOf(PageOf(va))]) {
      UpdateMapping(w.s, UnmapPage(w.s, va, hw), PageOf(va), 0);
    } else {
      assert PageOf(va) !in Mapping(w.s);
    }
  }

  /** The other operations leave the map alone. */
  lemma OthersRefine(w: World, k: Layout, op: Op)
    requires Inv(w, k) && Disciplined(w, op) && !op.Map? && !op.Unmap?
    ensures Mapping(Step(w, op).s) == Mapping(w.s)
  {
    var s' := Step(w, op).s;
    match op
    case Kmalloc =>
      if LowestFree(w.s.used).Some? {
        assert 0 in w.s.used;
        NonTableWrite(w, k, s', LowestFree(w.s.used).value);
      }
    case Kfree(_) =>
      assert SameLeaves(s', w.s);
    case Hardware(_) =>
      assert SameLeaves(s', w.s);
    case Write(page, _, _) =>
      NonTableWrite(w, k, s', Translate(w.s, page).value);
  }

  /** get_physical_address is a lookup in the map plus the offset in the page. */
  lemma LookupRefines(s: State, va: uint32)
    ensures Lookup(s, va) == if PageOf(va) in Mapping(s) then Some(Mapping(s)[PageOf(va)].frame * PAGE_SIZE + va % PAGE_SIZE)
                             else None
  {
  }

  /** Mapping a page and looking any of its addresses up gives the frame. */
  lemma MapThenLookup(w: World, k: Layout, va: uint32, pa: uint32, flags: uint32,
                      hw0: TlbEvent, hw1: TlbEvent, va': uint32)
    requires Inv(w, k) && Disciplined(w, Map(va, pa, flags, hw0, hw1)) && PageOf(va') == PageOf(va)
    requires Present(w.s.mem[w.s.cr3][SlotOf(PageOf(va))]) || LowestFree(w.s.used).Some?
    ensures Lookup(MapPage(w.s, va, pa, flags, hw0, hw1), va') == Some(pa / PAGE_SIZE * PAGE_SIZE + va' % PAGE_SIZE)
  {
    MapRefines(w, k, va, pa, flags, hw0, hw1);
    var s' := MapPage(w.s, va, pa, flags, hw0, hw1);
    assert PageOf(va) in Mapping(s') && Mapping(s')[PageOf(va)].frame == pa / PAGE_SIZE;
    LookupRefines(s', va');
  }

  /** Unmapping undoes a mapping, but for the table that may stay behind: the page is gone and every
      other page outside the recursive slot translates as before the two calls. */
  lemma MapThenUnmap(w: World, k: Layout, va: uint32, pa: uint32, flags: uint32,
                     hw0: TlbEvent, hw1: TlbEvent, hw2: TlbEvent, p: PageNo)
    requires Inv(w, k) && Disciplined(w, Map(va, pa, flags, hw0, hw1)) && SlotOf(p) != RECURSIVE_SLOT
    ensures Walk(UnmapPage(MapPage(w.s, va, pa, flags, hw0, hw1), va, hw2), p)
            == if p == PageOf(va) then None else Walk(w.s, p)
  {
    MapKeeps(w, k, va, pa, flags, hw0, hw1);
    var w1 := Step(w, Map(va, pa, flags, hw0, hw1));
    if p == PageOf(va) {
      UnmapRefines(w1, k, va, hw2);
      assert p !in Mapping(UnmapPage(w1.s, va, hw2));
    } else {
      StepKeepsMapping(w, k, Map(va, pa, flags, hw0, hw1), p);
      StepKeepsMapping(w1, k, Unmap(va, hw2), p);
    }
  }

  // ----- What a run leaves alone -----

  /** The operation edits the entry of `page`. */
  predicate Edits(op: Op, page: PageNo)
  {
    match op
    case Map(va, _, _, _, _) => PageOf(va) == page
    case Unmap(va, _) => PageOf(va) == page
    case _ => false
  }

  lemma StepKeepsMapping(w: World, k: Layout, op: Op, page: PageNo)
    requires Inv(w, k) && Disciplined(w, op) && !Edits(op, page) && SlotOf(page) != RECURSIVE_SLOT
    ensures At(Step(w, op).s, page) == At(w.s, page) && Walk(Step(w, op).s, page) == Walk(w.s, page)
  {
    var s' := Step(w, op).s;
    match op {
      case Map(va, pa, flags, hw0, hw1) => MapRefines(w, k, va, pa, flags, hw0, hw1);
      case Unmap(va, hw) => UnmapRefines(w, k, va, hw);
      case _ => OthersRefine(w, k, op);
    }
    SameAt(s', w.s, page);
  }

  /** Over any run, a page keeps its frame and flags unless the run maps or unmaps that very page. */
  lemma {:induction false} RunKeepsMapping(w: World, k: Layout, ops: seq<Op>, page: PageNo)
    requires Inv(w, k) && DisciplinedRun(w, ops) && SlotOf(page) != RECURSIVE_SLOT
    requires forall i :: 0 <= i < |ops| ==> !Edits(ops[i], page)
    ensures At(Run(w, ops).s, page) == At(w.s, page)
    decreases |ops|
  {
    if ops != [] {
      StepKeepsMapping(w, k, ops[0], page);
      StepKeeps(w, k, ops[0]);
      RunKeepsMapping(Step(w, ops[0]), k, ops[1..], page);
    }
  }

  /** The operation is the client's own business with frame `f`: freeing it or writing to it. */
  predicate Uses(w: World, op: Op, f: FrameNo)
  {
    match op
    case Kfree(addr) => addr != 0 && addr / PAGE_SIZE == f
    case Write(page, _, _) => Translate(w.s, page) == Some(f)
    case _ => false
  }

  ghost predicate RunUses(w: World, ops: seq<Op>, f: FrameNo)
    requires DisciplinedRun(w, ops)
    decreases |ops|
  {
    ops != [] && (Uses(w, ops[0], f) || RunUses(Step(w, ops[0]), ops[1..], f))
  }

  /** The memory that map_page_to_frame and unmap_page write: a free frame, a table, an absent
      directory entry. */
  lemma EditFootprint(w: World, k: Layout, op: Op, f: FrameNo, i: nat)
    requires Inv(w, k) && Disciplined(w, op) && (op.Map? || op.Unmap?) && i < ENTRIES
    requires f in w.s.used && !IsTable(w.s, f) && !(f == k.dir && !Present(w.s.mem[f][i]))
    ensures Step(w, op).s.mem[f][i] == w.s.mem[f][i]
  {
    var d := SlotOf(PageOf(op.va));
    var (s1, table) := GetTable(w.s, d, op.Map?);
    if Present(w.s.mem[w.s.cr3][d]) {
      TableKinds(w, k, d);
    }
    assert s1.mem[f][i] == w.s.mem[f][i];
  }

  /** All the memory an operation can write: free frames, table frames, absent directory entries,
      and the frame a client write goes to. */
  lemma Footprint(w: World, k: Layout, op: Op, f: FrameNo, i: nat)
    requires Inv(w, k) && Disciplined(w, op) && i < ENTRIES
    requires f in w.s.used && !IsTable(w.s, f) && !(f == k.dir && !Present(w.s.mem[f][i]))
    requires op.Write? ==> Translate(w.s, op.page) != Some(f)
    ensures Step(w, op).s.mem[f][i] == w.s.mem[f][i]
  {
    if op.Map? || op.Unmap? {
      EditFootprint(w, k, op, f, i);
    }
  }

  lemma StepIsolates(w: World, k: Layout, op: Op, f: FrameNo)
    requires Inv(w, k) && Disciplined(w, op) && f in w.owned && !Uses(w, op, f)
    ensures Step(w, op).s.mem[f] == w.s.mem[f] && f in Step(w, op).owned
  {
    forall i: nat | i < ENTRIES {
      Footprint(w, k, op, f, i);
    }
  }

  /** Over any run, a client frame keeps its contents and its owner until the client itself frees or
      writes it: no allocation, mapping, table creation or other client touches it. */
  lemma {:induction false} RunIsolates(w: World, k: Layout, ops: seq<Op>, f: FrameNo)
    requires Inv(w, k) && DisciplinedRun(w, ops) && f in w.owned && !RunUses(w, ops, f)
    ensures Run(w, ops).s.mem[f] == w.s.mem[f] && f in Run(w, ops).owned
    decreases |ops|
  {
    if ops != [] {
      StepIsolates(w, k, ops[0], f);
      StepKeeps(w, k, ops[0]);
      RunIsolates(Step(w, ops[0]), k, ops[1..], f);
    }
  }

  /** A client's write changes the one word it is for. */
  lemma WriteExact(w: World, page: PageNo, index: nat, word: uint32, f: FrameNo, i: nat)
    requires Disciplined(w, Write(page, index, word)) && i < ENTRIES
    ensures var w' := Step(w, Write(page, index, word));
            && w'.s.mem[f][i] == (if Translate(w.s, page) == Some(f) && i == index then word else w.s.mem[f][i])
            && w'.owned == w.owned && w'.s.used == w.s.used && w'.s.tlb == w.s.tlb && w'.s.cr3 == w.s.cr3
  {
  }

  /** No two allocations of a run hand out the same frame unless it was freed in between. */
  lemma NoDoubleAllocation(w: World, k: Layout, ops: seq<Op>, f: FrameNo)
    requires Inv(w, k) && DisciplinedRun(w, ops) && f in w.owned
    requires forall i :: 0 <= i < |ops| && ops[i].Kfree? && ops[i].addr != 0 ==> ops[i].addr / PAGE_SIZE != f
    ensures var (_, addr) := AllocPage(Run(w, ops).s); addr == 0 || addr / PAGE_SIZE != f
  {
    RunKeeps(w, k, ops);
    RunKeepsOwner(w, k, ops, f);
    assert f in Run(w, ops).s.used;
  }

  lemma {:induction false} RunKeepsOwner(w: World, k: Layout, ops: seq<Op>, f: FrameNo)
    requires Inv(w, k) && DisciplinedRun(w, ops) && f in w.owned
    requires forall i :: 0 <= i < |ops| && ops[i].Kfree? && ops[i].addr != 0 ==> ops[i].addr / PAGE_SIZE != f
    ensures f in Run(w, ops).owned
    decreases |ops|
  {
    if ops != [] {
      StepKeeps(w, k, ops[0]);
      assert f in Step(w, ops[0]).owned;
      RunKeepsOwner(Step(w, ops[0]), k, ops[1..], f);
    }
  }

  lemma StepKeepsReserved(w: World, k: Layout, op: Op, f: FrameNo, i: nat)
    requires Inv(w, k) && Disciplined(w, op) && f in k.reserved && i < ENTRIES
    requires f == k.dir ==> Present(w.s.mem[f][i])
    ensures Step(w, op).s.mem[f][i] == w.s.mem[f][i]
  {
    Footprint(w, k, op, f, i);
  }

  /** Over any run, the only reserved words ever written are absent directory entries: kernel data
      (the bitmap among it), the boot table and present directory entries stay as they are. */
  lemma {:induction false} RunKeepsReserved(w: World, k: Layout, ops: seq<Op>, f: FrameNo, i: nat)
    requires Inv(w, k) && DisciplinedRun(w, ops) && f in k.reserved && i < ENTRIES
    requires f == k.dir ==> Present(w.s.mem[f][i])
    ensures Run(w, ops).s.mem[f][i] == w.s.mem[f][i]
    decreases |ops|
  {
    if ops != [] {
      StepKeepsReserved(w, k, ops[0], f, i);
      StepKeeps(w, k, ops[0]);
      RunKeepsReserved(Step(w, ops[0]), k, ops[1..], f, i);
    }
  }

  // ----- A frame budget makes every zeroing reachable -----

  /** The discipline without its clause on P2V's reach. */
  predicate AddressDisciplined(w: World, op: Op)
  {
    match op
    case Kmalloc => true
    case Map(va, _, _, _, _) => ClientSlot(SlotOf(PageOf(va)))
    case _ => Disciplined(w, op)
  }

  /** The operation may need a fresh frame. */
  predicate Allocates(op: Op)
  {
    op.Kmalloc? || op.Map?
  }

  /** Every step is address-disciplined, and every step that may allocate finds fewer than 1024
      frames in use. */
  ghost predicate FrugalRun(w: World, ops: seq<Op>)
    decreases |ops|
  {
    ops == [] ||
    (&& AddressDisciplined(w, ops[0])
     && (Allocates(ops[0]) ==> |w.s.used| < 1024)
     && (Disciplined(w, ops[0]) ==> FrugalRun(Step(w, ops[0]), ops[1..])))
  }

  /** As long as fewer than 1024 frames are in use whenever one may be needed, however many are
      allocated and freed over the run, lowest-first allocation keeps every page that has to be
      zeroed inside the window of P2V: callers need no other care. */
  lemma {:induction false} BudgetSuffices(w: World, k: Layout, ops: seq<Op>)
    requires Inv(w, k) && FrugalRun(w, ops)
    ensures DisciplinedRun(w, ops)
    decreases |ops|
  {
    if ops != [] {
      if Allocates(ops[0]) {
        LowestFreePigeonhole(w.s.used, 1024);
      }
      StepKeeps(w, k, ops[0]);
      BudgetSuffices(Step(w, ops[0]), k, ops[1..]);
    }
  }
}
