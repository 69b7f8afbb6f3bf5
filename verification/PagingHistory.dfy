/** Whole runs of the paging code against a machine without memory, and what a run's history says
    about the reach of P2V. */
module PagingHistory {
  import opened Bits
  import opened Wrappers
  import opened FrameBitmap
  import opened PagingModel
  import opened PagingInvariant
  import opened PagingTheorems
  import opened PagingBoot

  // ----- A machine without memory -----

  /** What the paging code is for: pages outside the recursive slot with their frames and flags, the
      client slots that have a table, the frames in use and the frames clients hold. */
  datatype Abstract = Abstract(pages: map<PageNo, Mapped>, slots: set<nat>, used: set<nat>, owned: set<nat>)

  function Outside(m: map<PageNo, Mapped>): map<PageNo, Mapped>
  {
    map p | p in m && SlotOf(p) != RECURSIVE_SLOT :: m[p]
  }

  function Abstraction(w: World): Abstract
  {
    Abstract(Outside(Mapping(w.s)), ClientSlots(w.s), w.s.used, w.owned)
  }

  /** One operation on it: set a key, remove a key, take a frame, give one back. */
  function AbstractStep(a: Abstract, op: Op): Abstract
  {
    var free := LowestFree(a.used);
    match op
    case Kmalloc =>
      if free.None? then a else a.(used := a.used + {free.value}, owned := a.owned + {free.value})
    case Kfree(addr) =>
      if addr == 0 then a else a.(used := a.used - {addr / PAGE_SIZE}, owned := a.owned - {addr / PAGE_SIZE})
    case Map(va, pa, flags, _, _) =>
      var d := SlotOf(PageOf(va));
      var pages := a.pages[PageOf(va) := Mapped(pa / PAGE_SIZE, flags % PAGE_SIZE / 2 * 2 + 1)];
      if d in a.slots then a.(pages := pages)
      else if free.Some? then a.(pages := pages, slots := a.slots + {d}, used := a.used + {free.value})
      else a
    case Unmap(va, _) => a.(pages := a.pages - {PageOf(va)})
    case Hardware(_) => a
    case Write(_, _, _) => a
  }

  function AbstractRun(a: Abstract, ops: seq<Op>): Abstract
    decreases |ops|
  {
    if ops == [] then a else AbstractRun(AbstractStep(a, ops[0]), ops[1..])
  }

  /** A mapping gives its slot a table if it had none and a frame is left; nothing else does. */
  lemma MapSlots(w: World, k: Layout, va: uint32, pa: uint32, flags: uint32, hw0: TlbEvent, hw1: TlbEvent)
    requires Inv(w, k) && Disciplined(w, Map(va, pa, flags, hw0, hw1))
    ensures var d := SlotOf(PageOf(va));
            ClientSlots(MapPage(w.s, va, pa, flags, hw0, hw1)) ==
              if d in ClientSlots(w.s) || LowestFree(w.s.used).None? then ClientSlots(w.s) else ClientSlots(w.s) + {d}
  {
    var d := SlotOf(PageOf(va));
    var s' := MapPage(w.s, va, pa, flags, hw0, hw1);
    var free := LowestFree(w.s.used);
    if Present(w.s.mem[w.s.cr3][d]) {
      TableKinds(w, k, d);
      assert s'.mem[k.dir] == w.s.mem[k.dir];
    } else if free.Some? {
      CreateIsLink(w, k, d, free.value);
      assert s'.mem[k.dir] == w.s.mem[k.dir][d := TableEntry(free.value)];
    }
  }

  lemma OtherSlots(w: World, k: Layout, op: Op)
    requires Inv(w, k) && Disciplined(w, op) && !op.Map?
    ensures ClientSlots(Step(w, op).s) == ClientSlots(w.s)
  {
    forall d: nat | d < ENTRIES
      ensures Step(w, op).s.mem[k.dir][d] == w.s.mem[k.dir][d]
    {
      OtherDirectory(w, k, op, d);
    }
  }

  lemma OtherDirectory(w: World, k: Layout, op: Op, d: nat)
    requires Inv(w, k) && Disciplined(w, op) && !op.Map? && d < ENTRIES
    ensures Step(w, op).s.mem[k.dir][d] == w.s.mem[k.dir][d]
  {
    if op.Unmap? {
      var e := SlotOf(PageOf(op.va));
      if Present(w.s.mem[w.s.cr3][e]) {
        TableKinds(w, k, e);
      }
    }
  }

  lemma OutsideSet(m: map<PageNo, Mapped>, p: PageNo, v: Mapped)
    ensures Outside(m[p := v]) == if SlotOf(p) == RECURSIVE_SLOT then Outside(m) else Outside(m)[p := v]
  {
  }

  lemma OutsideRemove(m: map<PageNo, Mapped>, p: PageNo)
    ensures Outside(m - {p}) == Outside(m) - {p}
  {
  }

  /** The pages outside the recursive slot after a mapping. */
  lemma MapPages(w: World, k: Layout, va: uint32, pa: uint32, flags: uint32, hw0: TlbEvent, hw1: TlbEvent)
    requires Inv(w, k) && Disciplined(w, Map(va, pa, flags, hw0, hw1))
    ensures Outside(Mapping(MapPage(w.s, va, pa, flags, hw0, hw1))) ==
            PagesSet(Abstraction(w), Map(va, pa, flags, hw0, hw1))
  {
    var d := SlotOf(PageOf(va));
    var v := Mapped(pa / PAGE_SIZE, flags % PAGE_SIZE / 2 * 2 + 1);
    var free := LowestFree(w.s.used);
    SlotHasTable(w.s, PageOf(va));
    MapRefines(w, k, va, pa, flags, hw0, hw1);
    OutsideSet(Mapping(w.s), PageOf(va), v);
    if !Present(w.s.mem[w.s.cr3][d]) && free.Some? {
      OutsideLinked(Mapping(w.s), d, Mapped(free.value, 3), PageOf(va), v);
    }
  }

  lemma OutsideLinked(m: map<PageNo, Mapped>, d: nat, t: Mapped, page: PageNo, v: Mapped)
    requires d < ENTRIES && SlotOf(page) != RECURSIVE_SLOT
    ensures Outside(m[TablePage(d) := t][page := v]) == Outside(m)[page := v]
  {
    RecursivePage(d);
    OutsideSet(m, TablePage(d), t);
    OutsideSet(m[TablePage(d) := t], page, v);
  }

  /** The frames in use after a mapping. */
  lemma MapUsed(w: World, k: Layout, va: uint32, pa: uint32, flags: uint32, hw0: TlbEvent, hw1: TlbEvent)
    requires Inv(w, k) && Disciplined(w, Map(va, pa, flags, hw0, hw1))
    ensures var d := SlotOf(PageOf(va));
            var free := LowestFree(w.s.used);
            MapPage(w.s, va, pa, flags, hw0, hw1).used ==
              if Present(w.s.mem[w.s.cr3][d]) || free.None? then w.s.used else w.s.used + {free.value}
  {
    MapRefines(w, k, va, pa, flags, hw0, hw1);
  }

  lemma SlotHasTable(s: State, page: PageNo)
    requires ClientSlot(SlotOf(page))
    ensures SlotOf(page) in ClientSlots(s) <==> Present(s.mem[s.cr3][SlotOf(page)])
  {
  }

  lemma MapSimulates(w: World, k: Layout, op: Op)
    requires Inv(w, k) && Disciplined(w, op) && op.Map?
    ensures Abstraction(Step(w, op)) == AbstractStep(Abstraction(w), op)
  {
    PagesStep(w, k, op);
    UsedStep(w, k, op);
    SlotsStep(w, k, op);
  }

  /** The pages of the machine without memory after a mapping. */
  function PagesSet(a: Abstract, op: Op): map<PageNo, Mapped>
    requires op.Map?
  {
    if SlotOf(PageOf(op.va)) in a.slots || LowestFree(a.used).Some?
    then a.pages[PageOf(op.va) := Mapped(op.pa / PAGE_SIZE, op.flags % PAGE_SIZE / 2 * 2 + 1)]
    else a.pages
  }

  lemma AbstractPages(a: Abstract, op: Op)
    requires op.Map?
    ensures AbstractStep(a, op).pages == PagesSet(a, op)
  {
  }

  lemma StepMaps(w: World, op: Op)
    requires Disciplined(w, op) && op.Map?
    ensures op == Map(op.va, op.pa, op.flags, op.hw0, op.hw1)
    ensures Step(w, op).s == MapPage(w.s, op.va, op.pa, op.flags, op.hw0, op.hw1)
  {
  }

  lemma PagesStep(w: World, k: Layout, op: Op)
    requires Inv(w, k) && Disciplined(w, op) && op.Map?
    ensures Outside(Mapping(Step(w, op).s)) == AbstractStep(Abstraction(w), op).pages
  {
    assert Outside(Mapping(Step(w, op).s)) == PagesSet(Abstraction(w), op) by {
      StepMaps(w, op);
      MapPages(w, k, op.va, op.pa, op.flags, op.hw0, op.hw1);
    }
    AbstractPages(Abstraction(w), op);
  }

  lemma UsedStep(w: World, k: Layout, op: Op)
    requires Inv(w, k) && Disciplined(w, op) && op.Map?
    ensures Step(w, op).s.used == AbstractStep(Abstraction(w), op).used
  {
    SlotHasTable(w.s, PageOf(op.va));
    MapUsed(w, k, op.va, op.pa, op.flags, op.hw0, op.hw1);
  }

  lemma SlotsStep(w: World, k: Layout, op: Op)
    requires Inv(w, k) && Disciplined(w, op) && op.Map?
    ensures ClientSlots(Step(w, op).s) == AbstractStep(Abstraction(w), op).slots
  {
    MapSlots(w, k, op.va, op.pa, op.flags, op.hw0, op.hw1);
  }

  /** The memory-level step and the step without memory commute. */
  lemma StepSimulates(w: World, k: Layout, op: Op)
    requires Inv(w, k) && Disciplined(w, op)
    ensures Abstraction(Step(w, op)) == AbstractStep(Abstraction(w), op)
  {
    if op.Map? {
      MapSimulates(w, k, op);
    } else {
      OtherSlots(w, k, op);
      if op.Unmap? {
        UnmapRefines(w, k, op.va, op.hw);
        OutsideRemove(Mapping(w.s), PageOf(op.va));
      } else {
        OthersRefine(w, k, op);
        assert 0 in w.s.used;
      }
    }
  }

  /** Every disciplined run of tables, TLB and bitmap in memory does what the machine without memory
      does: page tables are a map, however they are laid out. */
  lemma {:induction false} RunSimulates(w: World, k: Layout, ops: seq<Op>)
    requires Inv(w, k) && DisciplinedRun(w, ops)
    ensures Abstraction(Run(w, ops)) == AbstractRun(Abstraction(w), ops)
    decreases |ops|
  {
    if ops != [] {
      StepSimulates(w, k, ops[0]);
      StepKeeps(w, k, ops[0]);
      RunSimulates(Step(w, ops[0]), k, ops[1..]);
    }
  }

  // ----- The last edit of a page -----

  /** A mapping of `page` finds or gets a table. */
  predicate FindsTable(w: World, page: PageNo)
  {
    Present(w.s.mem[w.s.cr3][SlotOf(page)]) || LowestFree(w.s.used).Some?
  }

  /** The last operation of the run that maps or unmaps `page`, and the world it found. */
  ghost function LastEdit(w: World, ops: seq<Op>, page: PageNo): Option<(World, Op)>
    requires DisciplinedRun(w, ops)
    decreases |ops|
  {
    if ops == [] then None
    else
      var later := LastEdit(Step(w, ops[0]), ops[1..], page);
      if later.Some? then later
      else if Edits(ops[0], page) then Some((w, ops[0]))
      else None
  }

  /** What an edit leaves at its page. */
  function Left(w: World, op: Op, page: PageNo): Option<Mapped>
  {
    if op.Map? && FindsTable(w, page) then Some(Mapped(op.pa / PAGE_SIZE, op.flags % PAGE_SIZE / 2 * 2 + 1)) else None
  }

  lemma EditLeaves(w: World, k: Layout, op: Op, page: PageNo)
    requires Inv(w, k) && Disciplined(w, op) && Edits(op, page)
    ensures At(Step(w, op).s, page) == Left(w, op, page)
  {
    if op.Map? {
      MapLeaves(w, k, op.va, op.pa, op.flags, op.hw0, op.hw1);
    } else {
      UnmapLeaves(w, k, op.va, op.hw);
    }
  }

  lemma MapLeaves(w: World, k: Layout, va: uint32, pa: uint32, flags: uint32, hw0: TlbEvent, hw1: TlbEvent)
    requires Inv(w, k) && Disciplined(w, Map(va, pa, flags, hw0, hw1))
    ensures At(MapPage(w.s, va, pa, flags, hw0, hw1), PageOf(va)) == Left(w, Map(va, pa, flags, hw0, hw1), PageOf(va))
  {
    var s' := MapPage(w.s, va, pa, flags, hw0, hw1);
    MapRefines(w, k, va, pa, flags, hw0, hw1);
    assert PageOf(va) in Mapping(s') <==> At(s', PageOf(va)).Some?;
  }

  lemma UnmapLeaves(w: World, k: Layout, va: uint32, hw: TlbEvent)
    requires Inv(w, k) && Disciplined(w, Unmap(va, hw))
    ensures At(UnmapPage(w.s, va, hw), PageOf(va)) == None
  {
    var s' := UnmapPage(w.s, va, hw);
    UnmapRefines(w, k, va, hw);
    assert PageOf(va) in Mapping(s') <==> At(s', PageOf(va)).Some?;
  }

  /** After any disciplined run a page outside the recursive slot holds what the last edit of it left,
      or what it held at the start. */
  lemma {:induction false} LastEditDecides(w: World, k: Layout, ops: seq<Op>, page: PageNo)
    requires Inv(w, k) && DisciplinedRun(w, ops) && SlotOf(page) != RECURSIVE_SLOT
    ensures var last := LastEdit(w, ops, page);
            At(Run(w, ops).s, page) == if last.Some? then Left(last.value.0, last.value.1, page) else At(w.s, page)
    decreases |ops|
  {
    if ops != [] {
      StepKeeps(w, k, ops[0]);
      LastEditDecides(Step(w, ops[0]), k, ops[1..], page);
      if Edits(ops[0], page) {
        EditLeaves(w, k, ops[0], page);
      } else {
        StepKeepsMapping(w, k, ops[0], page);
      }
    }
  }

  // ----- The reach of P2V -----

  /** The page that P2V gives for frame `f`. */
  function ZeroingPage(f: nat): PageNo
    requires f < TOTAL_FRAMES
  {
    PageOf(P2V(f * PAGE_SIZE))
  }

  lemma ZeroingSlot(f: nat)
    requires f < TOTAL_FRAMES
    ensures ZeroingPage(f) == KERNEL_SLOT * ENTRIES + f && P2V(f * PAGE_SIZE) % PAGE_SIZE == 0
    ensures f >= 1024 ==> ClientSlot(SlotOf(ZeroingPage(f)))
  {
  }

  /** The edit, made in world `w`, is a mapping to frame `f` that finds a table. */
  predicate MapsTo(w: World, op: Op, page: PageNo, f: nat)
  {
    op.Map? && FindsTable(w, page) && op.pa / PAGE_SIZE == f
  }

  /** The zeroing of frame `f` after a disciplined run goes to frame `f` exactly when `f` lies in the
      first 4 MB or the client's own last edit of the page at P2V(f) was a mapping to `f` that found a
      table; without an edit, when the page was mapped to `f` at the start. */
  lemma ZeroingReaches(w: World, k: Layout, ops: seq<Op>, f: nat)
    requires Inv(w, k) && DisciplinedRun(w, ops) && f < TOTAL_FRAMES
    ensures var page := ZeroingPage(f);
            var last := LastEdit(w, ops, page);
            Translate(Run(w, ops).s, page) == Some(f) <==>
              || f < 1024
              || if last.Some? then MapsTo(last.value.0, last.value.1, page, f) else Walk(w.s, page) == Some(f)
  {
    ZeroingSlot(f);
    RunKeeps(w, k, ops);
    var w' := Run(w, ops);
    assert Translate(w'.s, ZeroingPage(f)) == Walk(w'.s, ZeroingPage(f));
    if f < 1024 {
      KernelWindow(w', k, f);
    } else {
      LastEditDecides(w, k, ops, ZeroingPage(f));
      WalkIsAt(w'.s, ZeroingPage(f));
      WalkIsAt(w.s, ZeroingPage(f));
    }
  }

  lemma WalkIsAt(s: State, page: PageNo)
    ensures Walk(s, page) == if At(s, page).Some? then Some(At(s, page).value.frame) else None
  {
  }

  /** The world that boot and init_paging leave. */
  function Booted(s: State, kernelStart: uint32, kernelEnd: uint32): World
  {
    World(Initialized(s, kernelStart, kernelEnd), {})
  }

  /** At boot no page of a client slot is mapped. */
  lemma BootUnmapped(s: State, mem: Memory, boot: FrameNo, kernelStart: uint32, kernelEnd: uint32, page: PageNo)
    requires s.mem == BootMemory(mem, s.cr3, boot) && s.cr3 != boot && ClientSlot(SlotOf(page))
    ensures At(Booted(s, kernelStart, kernelEnd).s, page) == None
  {
    assert Booted(s, kernelStart, kernelEnd).s.mem[s.cr3] == BootDirectory(boot)[RECURSIVE_SLOT := TableEntry(s.cr3)];
  }

  /** From boot on, a frame above the first 4 MB is zeroed only if the client itself last mapped its
      page to it. */
  lemma ZeroingFromBoot(s: State, mem: Memory, boot: FrameNo, start: uint32, end: uint32, ops: seq<Op>, f: nat)
    requires s.mem == BootMemory(mem, s.cr3, boot) && s.cr3 != boot && s.cr3 < 1024 && boot < 1024
    requires s.cr3 in Reservation(start, end) && boot in Reservation(start, end)
    requires DisciplinedRun(Booted(s, start, end), ops) && 1024 <= f < TOTAL_FRAMES
    ensures var w := Booted(s, start, end);
            var last := LastEdit(w, ops, ZeroingPage(f));
            Translate(Run(w, ops).s, ZeroingPage(f)) == Some(f) <==>
              last.Some? && MapsTo(last.value.0, last.value.1, ZeroingPage(f), f)
  {
    var w := Booted(s, start, end);
    BootEstablishes(s, mem, boot, start, end);
    ZeroingSlot(f);
    BootUnmapped(s, mem, boot, start, end, ZeroingPage(f));
    WalkIsAt(w.s, ZeroingPage(f));
    ZeroingReaches(w, Layout(Reservation(start, end), s.cr3, boot), ops, f);
  }

  // ----- A run that leaves the window -----

  function Kmallocs(n: nat): (ops: seq<Op>)
    ensures |ops| == n && forall i :: 0 <= i < n ==> ops[i] == Kmalloc
  {
    seq(n, _ => Kmalloc)
  }

  /** Frames of the first 4 MB that are free. */
  function FreeLow(used: set<nat>): set<nat>
  {
    set f: nat | f < 1024 && f !in used
  }

  /** Allocations until the first 4 MB are full: the next frame is then 1024. */
  lemma {:induction false} FillWindow(w: World, k: Layout, n: nat)
    requires Inv(w, k) && n == |FreeLow(w.s.used)| && forall f :: f in w.s.used ==> f < 1024
    ensures DisciplinedRun(w, Kmallocs(n))
    ensures var w' := Run(w, Kmallocs(n)); LowestFree(w'.s.used) == Some(1024)
    decreases n
  {
    if n == 0 {
      assert FreeLow(w.s.used) == {};
      assert forall f: nat :: f < 1024 ==> f in w.s.used || f in FreeLow(w.s.used);
      LowestFreeIs(w.s.used, 1024);
    } else {
      FillOne(w, k);
      FillWindow(Step(w, Kmalloc), k, n - 1);
      assert Kmallocs(n)[1..] == Kmallocs(n - 1);
    }
  }

  lemma FillOne(w: World, k: Layout)
    requires Inv(w, k) && FreeLow(w.s.used) != {} && forall f :: f in w.s.used ==> f < 1024
    ensures Disciplined(w, Kmalloc) && Inv(Step(w, Kmalloc), k)
    ensures var used' := Step(w, Kmalloc).s.used;
            |FreeLow(used')| == |FreeLow(w.s.used)| - 1 && forall f :: f in used' ==> f < 1024
  {
    var f :| f in FreeLow(w.s.used);
    var r := LowestFree(w.s.used);
    assert r.Some? && r.value <= f;
    assert 0 in w.s.used;
    KmallocKeeps(w, k);
    assert FreeLow(w.s.used + {r.value}) == FreeLow(w.s.used) - {r.value};
  }

  lemma {:induction false} KmallocsEditNothing(w: World, n: nat, page: PageNo)
    requires DisciplinedRun(w, Kmallocs(n))
    ensures LastEdit(w, Kmallocs(n), page) == None
    decreases n
  {
    if n > 0 {
      assert Kmallocs(n)[1..] == Kmallocs(n - 1);
      KmallocsEditNothing(Step(w, Kmalloc), n - 1, page);
    }
  }

  /** A kernel image of 1 MB at 1 MB, with its directory and boot table in frames 257 and 258: after
      a run of allocations that fills the first 4 MB the next frame is 1024, and the page through
      which it has to be zeroed has no translation: the memset of the next allocation faults. */
  lemma ZeroingFaults(s: State, mem: Memory)
    requires s.cr3 == 257 && s.mem == BootMemory(mem, 257, 258)
    ensures exists n: nat :: var w := Booted(s, 0x10_0000, 0x20_0000);
              && DisciplinedRun(w, Kmallocs(n))
              && LowestFree(Run(w, Kmallocs(n)).s.used) == Some(1024)
              && Translate(Run(w, Kmallocs(n)).s, ZeroingPage(1024)) == None
  {
    var w := Booted(s, 0x10_0000, 0x20_0000);
    var k := Layout(Reservation(0x10_0000, 0x20_0000), 257, 258);
    BootEstablishes(s, mem, 258, 0x10_0000, 0x20_0000);
    var n := |FreeLow(w.s.used)|;
    FillWindow(w, k, n);
    var page := ZeroingPage(1024);
    ZeroingSlot(1024);
    BootUnmapped(s, mem, 258, 0x10_0000, 0x20_0000, page);
    KmallocsEditNothing(w, n, page);
    LastEditDecides(w, k, Kmallocs(n), page);
    RunKeeps(w, k, Kmallocs(n));
    WalkIsAt(Run(w, Kmallocs(n)).s, page);
    assert Translate(Run(w, Kmallocs(n)).s, page) == None;
  }
}
