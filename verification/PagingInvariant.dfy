/** What every disciplined run of the paging code keeps. */
module PagingInvariant {
  import opened Bits
  import opened Wrappers
  import opened FrameBitmap
  import opened PagingModel

  /** Where the boot code put things: the frames reserved by init_paging, the page directory and
      the one boot page table shared by directory slots 0 and 768. */
  datatype Layout = Layout(reserved: set<nat>, dir: FrameNo, boot: FrameNo)

  /** The state together with the frames clients hold from kmalloc_physical_page. */
  datatype World = World(s: State, owned: set<nat>)

  ghost predicate LayoutOk(k: Layout)
  {
    && 0 in k.reserved && k.dir in k.reserved && k.boot in k.reserved
    && k.dir != k.boot && k.dir < 1024 && k.boot < 1024
    && forall f :: f in k.reserved ==> f < TOTAL_FRAMES
  }

  /** Directory slots that clients may use: not the two boot windows, not the recursive slot. */
  predicate ClientSlot(d: nat)
  {
    0 < d < RECURSIVE_SLOT && d != KERNEL_SLOT
  }

  /** Slot `d` is a client slot holding the table in frame `f`. */
  predicate Holds(s: State, d: nat, f: nat)
  {
    ClientSlot(d) && Present(s.mem[s.cr3][d]) && FrameOf(s.mem[s.cr3][d]) == f
  }

  ghost predicate IsTable(s: State, f: nat)
  {
    exists d :: Holds(s, d, f)
  }

  /** The entries laid down at boot and by init_paging are still there. */
  ghost predicate Fixed(s: State, k: Layout)
  {
    && s.cr3 == k.dir
    && Present(s.mem[k.dir][0]) && FrameOf(s.mem[k.dir][0]) == k.boot
    && Present(s.mem[k.dir][KERNEL_SLOT]) && FrameOf(s.mem[k.dir][KERNEL_SLOT]) == k.boot
    && Present(s.mem[k.dir][RECURSIVE_SLOT]) && FrameOf(s.mem[k.dir][RECURSIVE_SLOT]) == k.dir
    && forall t: nat :: t < ENTRIES ==> Present(s.mem[k.boot][t]) && FrameOf(s.mem[k.boot][t]) == t
  }

  /** Tables sit in frames of their own, inside the 4 MB that P2V reaches. */
  ghost predicate Separate(w: World, k: Layout)
  {
    && (forall d, f :: Holds(w.s, d, f) ==> f < 1024 && f !in k.reserved && f !in w.owned)
    && (forall d, e, f :: Holds(w.s, d, f) && Holds(w.s, e, f) ==> d == e)
    && k.reserved !! w.owned
    && (forall f :: f in w.owned ==> f < TOTAL_FRAMES)
  }

  /** The bitmap marks exactly the reserved, the table and the client frames. */
  ghost predicate Accounted(w: World, k: Layout)
  {
    forall f: nat :: f in w.s.used <==> f in k.reserved || f in w.owned || IsTable(w.s, f)
  }

  /** The invariant on memory and bitmap. */
  ghost predicate Structure(w: World, k: Layout)
  {
    LayoutOk(k) && Fixed(w.s, k) && Separate(w, k) && Accounted(w, k)
  }

  ghost predicate Inv(w: World, k: Layout)
  {
    Structure(w, k) && Coherent(w.s)
  }

  // ----- Runs -----

  datatype Op =
    | Kmalloc
    | Kfree(addr: uint32)
    | Map(va: uint32, pa: uint32, flags: uint32, hw0: TlbEvent, hw1: TlbEvent)
    | Unmap(va: uint32, hw: TlbEvent)
    | Hardware(hw: TlbEvent)
    | Write(page: PageNo, index: nat, word: uint32)

  /** The next frame, if any, is one that P2V reaches. */
  predicate Reachable(used: set<nat>)
  {
    LowestFree(used).Some? ==> LowestFree(used).value < 1024
  }

  /** What the code expects of its callers but does not check. */
  predicate Disciplined(w: World, op: Op)
  {
    match op
    case Kmalloc => Reachable(w.s.used)
    case Kfree(addr) => addr == 0 || addr / PAGE_SIZE in w.owned
    case Map(va, _, _, _, _) =>
      ClientSlot(SlotOf(PageOf(va))) && (Present(w.s.mem[w.s.cr3][SlotOf(PageOf(va))]) || Reachable(w.s.used))
    case Unmap(va, _) => ClientSlot(SlotOf(PageOf(va)))
    case Hardware(_) => true
    case Write(page, index, _) =>
      index < ENTRIES && Translate(w.s, page).Some? && Translate(w.s, page).value in w.owned
  }

  function Step(w: World, op: Op): World
    requires Disciplined(w, op)
  {
    match op
    case Kmalloc =>
      var (s', addr) := AllocPage(w.s);
      World(s', if addr == 0 then w.owned else w.owned + {addr / PAGE_SIZE})
    case Kfree(addr) =>
      World(FreePage(w.s, addr), if addr == 0 then w.owned else w.owned - {addr / PAGE_SIZE})
    case Map(va, pa, flags, hw0, hw1) => w.(s := MapPage(w.s, va, pa, flags, hw0, hw1))
    case Unmap(va, hw) => w.(s := UnmapPage(w.s, va, hw))
    case Hardware(hw) => w.(s := Age(w.s, hw))
    case Write(page, index, word) =>
      w.(s := w.s.(mem := SetWord(w.s.mem, Translate(w.s, page).value, index, word)))
  }

  ghost predicate DisciplinedRun(w: World, ops: seq<Op>)
    decreases |ops|
  {
    ops == [] || (Disciplined(w, ops[0]) && DisciplinedRun(Step(w, ops[0]), ops[1..]))
  }

  ghost function Run(w: World, ops: seq<Op>): World
    requires DisciplinedRun(w, ops)
    decreases |ops|
  {
    if ops == [] then w else Run(Step(w, ops[0]), ops[1..])
  }

  // ----- Each step keeps the invariant -----

  /** A walk reads the directory and one table: it survives any change elsewhere. */
  lemma WalkFrame(s: State, s': State, page: PageNo)
    requires s.cr3 == s'.cr3 && s.mem[s.cr3][SlotOf(page)] == s'.mem[s.cr3][SlotOf(page)]
    requires var pde := s.mem[s.cr3][SlotOf(page)];
             Present(pde) ==> s.mem[FrameOf(pde)][IndexOf(page)] == s'.mem[FrameOf(pde)][IndexOf(page)]
    ensures Leaf(s, page) == Leaf(s', page) && Walk(s, page) == Walk(s', page)
  {
  }

  /** Every table a walk can reach is the directory, the boot table or a client table. */
  lemma TableKinds(w: World, k: Layout, d: nat)
    requires Inv(w, k) && d < ENTRIES && Present(w.s.mem[w.s.cr3][d])
    ensures var f := FrameOf(w.s.mem[w.s.cr3][d]);
            if ClientSlot(d) then IsTable(w.s, f) && f in w.s.used
            else f == (if d == RECURSIVE_SLOT then k.dir else k.boot) && f in w.s.used
    ensures FrameOf(w.s.mem[w.s.cr3][d]) !in w.owned && FrameOf(w.s.mem[w.s.cr3][d]) < 1024
  {
    assert ClientSlot(d) ==> Holds(w.s, d, FrameOf(w.s.mem[w.s.cr3][d]));
  }

  /** Overwriting a frame that is neither reserved nor a table leaves all translations alone. */
  lemma NonTableWrite(w: World, k: Layout, s': State, f: FrameNo)
    requires Inv(w, k) && f !in k.reserved && !IsTable(w.s, f)
    requires s' == w.s.(mem := SetTable(w.s.mem, f, s'.mem[f]), used := s'.used)
    ensures forall p: PageNo :: Leaf(w.s, p) == Leaf(s', p) && Walk(w.s, p) == Walk(s', p)
    ensures Fixed(s', k) && Coherent(s')
    ensures forall d, g :: Holds(w.s, d, g) == Holds(s', d, g)
  {
    forall p: PageNo
      ensures Leaf(w.s, p) == Leaf(s', p) && Walk(w.s, p) == Walk(s', p)
    {
      if Present(w.s.mem[w.s.cr3][SlotOf(p)]) {
        TableKinds(w, k, SlotOf(p));
      }
      WalkFrame(w.s, s', p);
    }
  }

  lemma KmallocKeeps(w: World, k: Layout)
    requires Inv(w, k) && Reachable(w.s.used)
    ensures Inv(Step(w, Kmalloc), k)
  {
    var r := LowestFree(w.s.used);
    if r.Some? {
      assert 0 in w.s.used;
      NonTableWrite(w, k, Step(w, Kmalloc).s, r.value);
    }
  }

  lemma KfreeKeeps(w: World, k: Layout, addr: uint32)
    requires Inv(w, k) && Disciplined(w, Kfree(addr))
    ensures Inv(Step(w, Kfree(addr)), k)
  {
    var w' := Step(w, Kfree(addr));
    assert forall d, g :: Holds(w'.s, d, g) == Holds(w.s, d, g);
    assert forall p: PageNo :: Walk(w'.s, p) == Walk(w.s, p);
  }

  lemma WriteKeeps(w: World, k: Layout, page: PageNo, index: nat, word: uint32)
    requires Inv(w, k) && Disciplined(w, Write(page, index, word))
    ensures Inv(Step(w, Write(page, index, word)), k)
  {
    var f := Translate(w.s, page).value;
    NonTableWrite(w, k, Step(w, Write(page, index, word)).s, f);
  }

  /** Coherent, but for the entry of one page that is about to be flushed. */
  ghost predicate CoherentBut(s: State, page: PageNo)
  {
    forall p: PageNo :: p in s.tlb && p != page ==> Walk(s, p) == Some(s.tlb[p])
  }

  /** The hardware caches current translations only, so it cannot make the TLB stale. */
  lemma AgeCoherent(s: State, e: TlbEvent)
    ensures forall p: PageNo :: Walk(Age(s, e), p) == Walk(s, p) && Leaf(Age(s, e), p) == Leaf(s, p)
    ensures Coherent(s) ==> Coherent(Age(s, e))
    ensures forall page: PageNo :: CoherentBut(s, page) ==> CoherentBut(Age(s, e), page)
  {
  }

  /** Structure and walks do not depend on the TLB. */
  lemma TlbOnly(w: World, k: Layout, s': State)
    requires s' == w.s.(tlb := s'.tlb)
    ensures forall p: PageNo :: Leaf(s', p) == Leaf(w.s, p) && Walk(s', p) == Walk(w.s, p)
    ensures forall d, f :: Holds(s', d, f) == Holds(w.s, d, f)
    ensures Structure(w, k) ==> Structure(w.(s := s'), k)
  {
  }

  lemma AgeKeeps(w: World, k: Layout, e: TlbEvent)
    requires Inv(w, k)
    ensures Inv(w.(s := Age(w.s, e)), k)
  {
    AgeCoherent(w.s, e);
    TlbOnly(w, k, Age(w.s, e));
  }

  /** The state after get_page_table has zeroed frame `f` and linked it at slot `d`. */
  function Linked(s: State, d: nat, f: FrameNo): State
    requires d < ENTRIES
  {
    s.(mem := SetWord(SetTable(s.mem, f, Zeros()), s.cr3, d, TableEntry(f)), used := s.used + {f})
  }

  ghost predicate CanLink(w: World, k: Layout, d: nat, f: FrameNo)
  {
    Inv(w, k) && ClientSlot(d) && !Present(w.s.mem[w.s.cr3][d]) && f < 1024 && f !in w.s.used
  }

  lemma CreateIsLink(w: World, k: Layout, d: nat, f: FrameNo)
    requires CanLink(w, k, d, f) && LowestFree(w.s.used) == Some(f)
    ensures GetTable(w.s, d, true) == (Linked(w.s, d, f), Some(f))
  {
  }

  lemma LinkStructure(w: World, k: Layout, d: nat, f: FrameNo)
    requires CanLink(w, k, d, f)
    ensures Structure(w.(s := Linked(w.s, d, f)), k) && Holds(Linked(w.s, d, f), d, f)
  {
    var s' := Linked(w.s, d, f);
    assert forall e, g :: Holds(s', e, g) == if e == d then g == f else Holds(w.s, e, g);
    assert s'.mem[k.boot] == w.s.mem[k.boot];
    forall g: nat
      ensures IsTable(s', g) <==> g == f || IsTable(w.s, g)
    {
      assert Holds(s', d, f);
      if IsTable(w.s, g) {
        var e :| Holds(w.s, e, g);
        assert Holds(s', e, g);
      }
      if IsTable(s', g) {
        var e :| Holds(s', e, g);
        assert e != d ==> Holds(w.s, e, g);
      }
    }
  }

  /** Linking a fresh zeroed table maps and unmaps nothing, but for the table's own page in the
      recursive slot, which was not present before. */
  lemma LinkLeaf(w: World, k: Layout, d: nat, f: FrameNo, p: PageNo)
    requires CanLink(w, k, d, f)
    ensures var s' := Linked(w.s, d, f);
            if SlotOf(p) == d then Leaf(w.s, p) == None && Leaf(s', p) == Some(0)
            else if p == RECURSIVE_SLOT * ENTRIES + d then Leaf(s', p) == Some(TableEntry(f)) && Walk(w.s, p) == None
            else Leaf(s', p) == Leaf(w.s, p)
  {
    var s' := Linked(w.s, d, f);
    var e := SlotOf(p);
    if e == d {
      assert s'.mem[k.dir][d] == TableEntry(f) && s'.mem[f] == Zeros();
    } else if Present(w.s.mem[k.dir][e]) {
      TableKinds(w, k, e);
    }
  }

  lemma LinkKeeps(w: World, k: Layout, d: nat, f: FrameNo)
    requires CanLink(w, k, d, f)
    ensures Inv(w.(s := Linked(w.s, d, f)), k) && Holds(Linked(w.s, d, f), d, f)
  {
    LinkStructure(w, k, d, f);
    var s' := Linked(w.s, d, f);
    forall p: PageNo | p in s'.tlb
      ensures Walk(s', p) == Some(s'.tlb[p])
    {
      LinkLeaf(w, k, d, f, p);
    }
  }

  /** Storing an entry in a client table changes the translation of one page. */
  lemma StoreEntry(w: World, k: Layout, page: PageNo, f: FrameNo, entry: uint32)
    requires Inv(w, k) && Holds(w.s, SlotOf(page), f)
    ensures var s' := w.s.(mem := SetWord(w.s.mem, f, IndexOf(page), entry));
            && Structure(w.(s := s'), k)
            && CoherentBut(s', page)
            && LeafUpdate(w.s, s', page, entry)
  {
    var s' := w.s.(mem := SetWord(w.s.mem, f, IndexOf(page), entry));
    assert s'.mem[k.dir] == w.s.mem[k.dir] && s'.mem[k.boot] == w.s.mem[k.boot];
    assert forall e, g :: Holds(s', e, g) == Holds(w.s, e, g);
    forall g: nat
      ensures IsTable(s', g) == IsTable(w.s, g)
    {
      if IsTable(w.s, g) {
        var e :| Holds(w.s, e, g);
        assert Holds(s', e, g);
      }
    }
    forall p: PageNo | p != page
      ensures Leaf(s', p) == Leaf(w.s, p) && Walk(s', p) == Walk(w.s, p)
    {
      var e := SlotOf(p);
      if Present(w.s.mem[k.dir][e]) {
        TableKinds(w, k, e);
        if e != SlotOf(page) && ClientSlot(e) {
          assert Holds(w.s, e, FrameOf(w.s.mem[k.dir][e]));
        }
        WalkFrame(w.s, s', p);
      }
    }
  }

  /** The leaves of `s'` are those of `s`, but for one page. */
  ghost predicate LeafUpdate(s: State, s': State, page: PageNo, leaf: uint32)
  {
    Leaf(s', page) == Some(leaf) && forall p: PageNo :: p != page ==> Leaf(s', p) == Leaf(s, p)
  }

  lemma FlushCoherent(s: State, page: PageNo, hw: TlbEvent)
    requires CoherentBut(s, page)
    ensures Coherent(Invlpg(Age(s, hw), page))
  {
  }

  /** A flush of the one page that may be stale makes the whole TLB coherent again. */
  lemma FlushKeeps(w: World, k: Layout, page: PageNo, hw: TlbEvent)
    requires Structure(w, k) && CoherentBut(w.s, page)
    ensures var s' := Invlpg(Age(w.s, hw), page);
            Inv(w.(s := s'), k) && SameLeaves(s', w.s)
  {
    FlushCoherent(w.s, page, hw);
    TlbOnly(w, k, Invlpg(Age(w.s, hw), page));
  }

  ghost predicate SameLeaves(s: State, s': State)
  {
    forall p: PageNo :: Leaf(s, p) == Leaf(s', p)
  }

  lemma StoreAndFlush(w: World, k: Layout, page: PageNo, f: FrameNo, entry: uint32, hw: TlbEvent)
    requires Inv(w, k) && Holds(w.s, SlotOf(page), f)
    ensures var s1 := w.s.(mem := SetWord(w.s.mem, f, IndexOf(page), entry));
            var s' := Invlpg(Age(s1, hw), page);
            Inv(w.(s := s'), k) && LeafUpdate(w.s, s', page, entry)
  {
    var w1 := w.(s := w.s.(mem := SetWord(w.s.mem, f, IndexOf(page), entry)));
    StoreEntry(w, k, page, f, entry);
    FlushKeeps(w1, k, page, hw);
  }

  /** The table that map_page_to_frame writes to, and the state in which it does. */
  lemma TableForMap(w: World, k: Layout, d: nat)
    requires Inv(w, k) && ClientSlot(d)
    requires Present(w.s.mem[w.s.cr3][d]) || Reachable(w.s.used)
    ensures var (s1, table) := GetTable(w.s, d, true);
            if table.Some? then Inv(w.(s := s1), k) && Holds(s1, d, table.value) else s1 == w.s
  {
    var r := LowestFree(w.s.used);
    if !Present(w.s.mem[w.s.cr3][d]) && r.Some? {
      CreateIsLink(w, k, d, r.value);
      LinkKeeps(w, k, d, r.value);
    }
  }

  /** The store and flush that end map_page_to_frame. */
  lemma MapTail(w: World, k: Layout, va: uint32, f: FrameNo, entry: uint32, hw0: TlbEvent, hw1: TlbEvent)
    requires Inv(w, k) && Holds(w.s, SlotOf(PageOf(va)), f)
    ensures var s2 := Age(w.s, hw0);
            var s' := Invlpg(Age(s2.(mem := SetWord(s2.mem, f, IndexOf(PageOf(va)), entry)), hw1), PageOf(va));
            Inv(w.(s := s'), k) && LeafUpdate(w.s, s', PageOf(va), entry)
  {
    AgeKeeps(w, k, hw0);
    TlbOnly(w, k, Age(w.s, hw0));
    StoreAndFlush(w.(s := Age(w.s, hw0)), k, PageOf(va), f, entry, hw1);
  }

  lemma MapKeeps(w: World, k: Layout, va: uint32, pa: uint32, flags: uint32, hw0: TlbEvent, hw1: TlbEvent)
    requires Inv(w, k) && Disciplined(w, Map(va, pa, flags, hw0, hw1))
    ensures Inv(w.(s := MapPage(w.s, va, pa, flags, hw0, hw1)), k)
  {
    var (s1, table) := GetTable(w.s, SlotOf(PageOf(va)), true);
    TableForMap(w, k, SlotOf(PageOf(va)));
    if table.Some? {
      MapTail(w.(s := s1), k, va, table.value, Entry(pa, flags), hw0, hw1);
    }
  }

  lemma UnmapKeeps(w: World, k: Layout, va: uint32, hw: TlbEvent)
    requires Inv(w, k) && Disciplined(w, Unmap(va, hw))
    ensures var s' := UnmapPage(w.s, va, hw);
            && Inv(w.(s := s'), k)
            && if Present(w.s.mem[w.s.cr3][SlotOf(PageOf(va))]) then LeafUpdate(w.s, s', PageOf(va), 0) else s' == w.s
  {
    var pde := w.s.mem[w.s.cr3][SlotOf(PageOf(va))];
    if Present(pde) {
      StoreAndFlush(w, k, PageOf(va), FrameOf(pde), 0, hw);
    }
  }

  lemma StepKeeps(w: World, k: Layout, op: Op)
    requires Inv(w, k) && Disciplined(w, op)
    ensures Inv(Step(w, op), k)
  {
    match op
    case Kmalloc => KmallocKeeps(w, k);
    case Kfree(addr) => KfreeKeeps(w, k, addr);
    case Map(va, pa, flags, hw0, hw1) => MapKeeps(w, k, va, pa, flags, hw0, hw1);
    case Unmap(va, hw) => UnmapKeeps(w, k, va, hw);
    case Hardware(hw) => AgeKeeps(w, k, hw);
    case Write(page, index, word) => WriteKeeps(w, k, page, index, word);
  }

  /** Every disciplined run, of any length and any interleaving with the hardware, keeps the
      invariant: in particular the TLB is coherent at every operation boundary. */
  lemma {:induction false} RunKeeps(w: World, k: Layout, ops: seq<Op>)
    requires Inv(w, k) && DisciplinedRun(w, ops)
    ensures Inv(Run(w, ops), k)
    decreases |ops|
  {
    if ops != [] {
      StepKeeps(w, k, ops[0]);
      RunKeeps(Step(w, ops[0]), k, ops[1..]);
    }
  }
}
