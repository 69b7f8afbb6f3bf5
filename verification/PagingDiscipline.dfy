/** Exactly which calls of map_page_to_frame and unmap_page keep the paging invariant, for every
    address: what the discipline asks of clients, and what is lost without it. */
module PagingDiscipline {
  import opened Bits
  import opened Wrappers
  import opened FrameBitmap
  import opened PagingModel
  import opened PagingInvariant
  import opened PagingTheorems

  // ----- Stale translations: slots 0 and 768 -----

  /** The same offset in the other of the two slots that share the boot table. */
  function Twin(page: PageNo): PageNo
    requires SlotOf(page) == 0 || SlotOf(page) == KERNEL_SLOT
  {
    if SlotOf(page) == 0 then KERNEL_SLOT * ENTRIES + page else page - KERNEL_SLOT * ENTRIES
  }

  /** A store in the boot table shows at a page and at its twin. */
  lemma BootTableStore(w: World, k: Layout, page: PageNo, entry: uint32)
    requires Inv(w, k) && (SlotOf(page) == 0 || SlotOf(page) == KERNEL_SLOT)
    ensures var s' := w.s.(mem := SetWord(w.s.mem, k.boot, IndexOf(page), entry));
            && Leaf(s', page) == Some(entry) && Leaf(s', Twin(page)) == Some(entry)
            && forall p: PageNo :: p != page && p != Twin(page) ==> Leaf(s', p) == Leaf(w.s, p) && Walk(s', p) == Walk(w.s, p)
  {
    var s' := w.s.(mem := SetWord(w.s.mem, k.boot, IndexOf(page), entry));
    assert s'.mem[k.dir] == w.s.mem[k.dir];
    forall p: PageNo | p != page && p != Twin(page)
      ensures Leaf(s', p) == Leaf(w.s, p) && Walk(s', p) == Walk(w.s, p)
    {
      if Present(w.s.mem[k.dir][SlotOf(p)]) {
        TableKinds(w, k, SlotOf(p));
        WalkFrame(w.s, s', p);
      }
    }
  }

  /** map_page_to_frame in slot 0 or 768 keeps the TLB coherent, whatever the hardware has cached,
      exactly when it maps the page to the frame it already has: it flushes one of two addresses. The
      same condition decides, for any hardware behaviour, whether the whole invariant is kept. */
  lemma SharedTableMap(w: World, k: Layout, va: uint32, pa: uint32, flags: uint32)
    requires Inv(w, k) && (SlotOf(PageOf(va)) == 0 || SlotOf(PageOf(va)) == KERNEL_SLOT)
    ensures (forall hw0, hw1 :: Coherent(MapPage(w.s, va, pa, flags, hw0, hw1))) <==> pa / PAGE_SIZE == IndexOf(PageOf(va))
    ensures forall hw0, hw1 ::
              Inv(w.(s := MapPage(w.s, va, pa, flags, hw0, hw1)), k) <==> pa / PAGE_SIZE == IndexOf(PageOf(va))
  {
    forall hw0, hw1 {
      BootMapExact(w, k, va, pa, flags, hw0, hw1);
    }
    var page := PageOf(va);
    var t := IndexOf(page);
    EntryFields(pa, flags);
    if pa / PAGE_SIZE == t {
      forall hw0, hw1
        ensures Coherent(MapPage(w.s, va, pa, flags, hw0, hw1))
      {
        SharedMapSame(w, k, va, pa, flags, hw0, hw1);
      }
    } else {
      SharedMapStale(w, k, va, pa, flags);
    }
  }

  lemma SharedMapSame(w: World, k: Layout, va: uint32, pa: uint32, flags: uint32, hw0: TlbEvent, hw1: TlbEvent)
    requires Inv(w, k) && (SlotOf(PageOf(va)) == 0 || SlotOf(PageOf(va)) == KERNEL_SLOT)
    requires pa / PAGE_SIZE == IndexOf(PageOf(va))
    ensures Coherent(MapPage(w.s, va, pa, flags, hw0, hw1))
  {
    var page := PageOf(va);
    AgeKeeps(w, k, hw0);
    var w2 := w.(s := Age(w.s, hw0));
    var s3 := w2.s.(mem := SetWord(w2.s.mem, k.boot, IndexOf(page), Entry(pa, flags)));
    BootTableStore(w2, k, page, Entry(pa, flags));
    EntryFields(pa, flags);
    KernelWindow(w2, k, IndexOf(page));
    assert CoherentBut(s3, page);
    FlushCoherent(s3, page, hw1);
  }

  lemma SharedMapStale(w: World, k: Layout, va: uint32, pa: uint32, flags: uint32)
    requires Inv(w, k) && (SlotOf(PageOf(va)) == 0 || SlotOf(PageOf(va)) == KERNEL_SLOT)
    requires pa / PAGE_SIZE != IndexOf(PageOf(va))
    ensures exists hw0, hw1 :: !Coherent(MapPage(w.s, va, pa, flags, hw0, hw1))
  {
    var page := PageOf(va);
    var hw0, hw1 := TlbEvent({Twin(page)}, {}), TlbEvent({}, {});
    EntryFields(pa, flags);
    TwinStale(w, k, page, Entry(pa, flags));
    assert !Coherent(MapPage(w.s, va, pa, flags, hw0, hw1));
  }

  /** The twin of a page of the boot table, always mapped, may be cached and is not flushed. */
  lemma TwinStale(w: World, k: Layout, page: PageNo, word: uint32)
    requires Inv(w, k) && (SlotOf(page) == 0 || SlotOf(page) == KERNEL_SLOT)
    requires !Present(word) || FrameOf(word) != IndexOf(page)
    ensures var s1 := Age(w.s, TlbEvent({Twin(page)}, {}));
            var s2 := s1.(mem := SetWord(s1.mem, k.boot, IndexOf(page), word));
            !Coherent(Invlpg(Age(s2, TlbEvent({}, {})), page))
  {
    var hw0 := TlbEvent({Twin(page)}, {});
    var s1 := Age(w.s, hw0);
    TwinCached(w, k, page);
    AgeKeeps(w, k, hw0);
    BootTableStore(w.(s := s1), k, page, word);
    StaleSurvives(s1.(mem := SetWord(s1.mem, k.boot, IndexOf(page), word)), page, Twin(page), TlbEvent({}, {}));
  }

  lemma TwinCached(w: World, k: Layout, page: PageNo)
    requires Inv(w, k) && (SlotOf(page) == 0 || SlotOf(page) == KERNEL_SLOT)
    ensures var s1 := Age(w.s, TlbEvent({Twin(page)}, {}));
            page != Twin(page) && Twin(page) in s1.tlb && s1.tlb[Twin(page)] == IndexOf(page)
  {
    KernelWindow(w, k, IndexOf(page));
  }

  /** A stale entry outlives the flush of another page. */
  lemma StaleSurvives(s: State, page: PageNo, other: PageNo, hw: TlbEvent)
    requires page != other && other in s.tlb && Walk(s, other) != Some(s.tlb[other]) && hw == TlbEvent({}, {})
    ensures !Coherent(Invlpg(Age(s, hw), page))
  {
    var s' := Invlpg(Age(s, hw), page);
    assert other in s'.tlb && Walk(s', other) == Walk(s, other);
  }

  /** unmap_page in slot 0 or 768 never keeps the TLB coherent for all hardware behaviour: the twin of
      the page, always mapped, may be cached and is not flushed. The kernel window loses a page, so the
      invariant is never kept. */
  lemma SharedTableUnmap(w: World, k: Layout, va: uint32)
    requires Inv(w, k) && (SlotOf(PageOf(va)) == 0 || SlotOf(PageOf(va)) == KERNEL_SLOT)
    ensures exists hw0, hw1 :: !Coherent(UnmapPage(Age(w.s, hw0), va, hw1))
    ensures forall hw :: !Inv(w.(s := UnmapPage(w.s, va, hw)), k)
  {
    forall hw {
      UnmapExact(w, k, va, hw);
    }
    var page := PageOf(va);
    var hw0, hw1 := TlbEvent({Twin(page)}, {}), TlbEvent({}, {});
    TwinStale(w, k, page, 0);
    assert !Coherent(UnmapPage(Age(w.s, hw0), va, hw1));
  }

  // ----- Stale translations: the recursive slot -----

  /** The memory after directory entry `d` has been overwritten. */
  function WithEntry(s: State, d: nat, entry: uint32): State
    requires d < ENTRIES
  {
    s.(mem := SetWord(s.mem, s.cr3, d, entry))
  }

  /** Such a store shows in the pages of slot `d` and in the page of entry `d` itself. */
  lemma DirectoryStore(w: World, k: Layout, d: nat, entry: uint32, p: PageNo)
    requires Inv(w, k) && d < ENTRIES && SlotOf(p) != d && p != TablePage(d)
    ensures Leaf(WithEntry(w.s, d, entry), p) == Leaf(w.s, p) && Walk(WithEntry(w.s, d, entry), p) == Walk(w.s, p)
  {
    if Present(w.s.mem[k.dir][SlotOf(p)]) {
      TableKinds(w, k, SlotOf(p));
    }
  }

  /** With directory entry `d` overwritten, the word for `p` in the new table gives `p` the frame that
      it has now. */
  predicate FoundAgain(s: State, d: nat, entry: uint32, p: PageNo)
    requires d < ENTRIES
  {
    && Present(entry)
    && var word := WithEntry(s, d, entry).mem[FrameOf(entry)][IndexOf(p)];
       Present(word) && Some(FrameOf(word) * PAGE_SIZE) == Lookup(s, p * PAGE_SIZE)
  }

  /** Every mapped page of slot `d` does so; the page that shows the entry itself is exempt, since it
      is flushed. */
  ghost predicate SlotKept(s: State, d: nat, entry: uint32)
    requires d < ENTRIES
  {
    forall p: PageNo :: SlotOf(p) == d && p != TablePage(d) && Lookup(s, p * PAGE_SIZE) != None ==> FoundAgain(s, d, entry, p)
  }

  lemma LookupIsWalk(s: State, p: PageNo)
    ensures Lookup(s, p * PAGE_SIZE) == if Walk(s, p).Some? then Some(Walk(s, p).value * PAGE_SIZE) else None
  {
    assert PageOf(p * PAGE_SIZE) == p;
  }

  /** SlotKept for one page, on walks. */
  lemma SlotKeptAt(s: State, d: nat, entry: uint32, p: PageNo)
    requires d < ENTRIES && SlotOf(p) == d && p != TablePage(d) && SlotKept(s, d, entry) && Walk(s, p).Some?
    ensures Walk(WithEntry(s, d, entry), p) == Walk(s, p)
  {
    LookupIsWalk(s, p);
    assert FoundAgain(s, d, entry, p);
    FoundWalk(s, d, entry, p);
  }

  lemma FoundWalk(s: State, d: nat, entry: uint32, p: PageNo)
    requires d < ENTRIES && SlotOf(p) == d && Walk(s, p).Some? && FoundAgain(s, d, entry, p)
    ensures Walk(WithEntry(s, d, entry), p) == Walk(s, p)
  {
    LookupIsWalk(s, p);
  }

  lemma DirectoryEditKept(w: World, k: Layout, d: nat, entry: uint32)
    requires Inv(w, k) && d < ENTRIES && SlotKept(w.s, d, entry)
    ensures CoherentBut(WithEntry(w.s, d, entry), TablePage(d))
  {
    var s1 := WithEntry(w.s, d, entry);
    forall p: PageNo | p in s1.tlb && p != TablePage(d)
      ensures Walk(s1, p) == Some(s1.tlb[p])
    {
      assert Walk(w.s, p).Some?;
      if SlotOf(p) == d {
        SlotKeptAt(w.s, d, entry, p);
      } else {
        DirectoryStore(w, k, d, entry, p);
      }
    }
  }

  /** A page whose walk a directory store changes. */
  lemma DirectoryEditLoses(s: State, d: nat, entry: uint32) returns (p: PageNo)
    requires d < ENTRIES && !SlotKept(s, d, entry)
    ensures SlotOf(p) == d && p != TablePage(d) && Walk(s, p).Some? && Walk(WithEntry(s, d, entry), p) != Walk(s, p)
  {
    p :| SlotOf(p) == d && p != TablePage(d) && Lookup(s, p * PAGE_SIZE) != None && !FoundAgain(s, d, entry, p);
    LookupIsWalk(s, p);
  }

  /** Both recursive edits: hardware, store of directory entry `d`, hardware, flush of its page. */
  function DirectoryEdit(s: State, d: nat, entry: uint32, hw0: TlbEvent, hw1: TlbEvent): State
    requires d < ENTRIES
  {
    Invlpg(Age(WithEntry(Age(s, hw0), d, entry), hw1), TablePage(d))
  }

  /** Overwriting a directory entry through the recursive slot keeps the TLB coherent, whatever the
      hardware has cached, exactly when no mapped page of its slot loses its frame. */
  lemma DirectoryEditExact(w: World, k: Layout, d: nat, entry: uint32)
    requires Inv(w, k) && d < ENTRIES
    ensures (forall hw0, hw1 :: Coherent(DirectoryEdit(w.s, d, entry, hw0, hw1))) <==> SlotKept(w.s, d, entry)
  {
    if SlotKept(w.s, d, entry) {
      forall hw0, hw1
        ensures Coherent(DirectoryEdit(w.s, d, entry, hw0, hw1))
      {
        DirectoryEditCoherent(w, k, d, entry, hw0, hw1);
      }
    } else {
      var p := DirectoryEditLoses(w.s, d, entry);
      DirectoryEditStale(w, k, d, entry, p);
    }
  }

  lemma DirectoryEditStale(w: World, k: Layout, d: nat, entry: uint32, p: PageNo)
    requires Inv(w, k) && d < ENTRIES && p != TablePage(d)
    requires Walk(w.s, p).Some? && Walk(WithEntry(w.s, d, entry), p) != Walk(w.s, p)
    ensures !Coherent(DirectoryEdit(w.s, d, entry, TlbEvent({p}, {}), TlbEvent({}, {})))
  {
    var s1 := WithEntry(Age(w.s, TlbEvent({p}, {})), d, entry);
    assert p in s1.tlb && s1.tlb[p] == Walk(w.s, p).value;
    assert Walk(s1, p) == Walk(WithEntry(w.s, d, entry), p);
    StaleSurvives(s1, TablePage(d), p, TlbEvent({}, {}));
  }

  lemma DirectoryEditCoherent(w: World, k: Layout, d: nat, entry: uint32, hw0: TlbEvent, hw1: TlbEvent)
    requires Inv(w, k) && d < ENTRIES && SlotKept(w.s, d, entry)
    ensures Coherent(DirectoryEdit(w.s, d, entry, hw0, hw1))
  {
    AgeKeeps(w, k, hw0);
    SlotKeptAged(w.s, d, entry, hw0);
    DirectoryEditKept(w.(s := Age(w.s, hw0)), k, d, entry);
    FlushCoherent(WithEntry(Age(w.s, hw0), d, entry), TablePage(d), hw1);
  }

  lemma SlotKeptAged(s: State, d: nat, entry: uint32, hw: TlbEvent)
    requires d < ENTRIES
    ensures SlotKept(Age(s, hw), d, entry) == SlotKept(s, d, entry)
  {
    assert forall va: uint32 :: Lookup(Age(s, hw), va) == Lookup(s, va);
  }

  /** map_page_to_frame in the recursive slot replaces a whole table, or the directory for d = 1023. It
      keeps the TLB coherent, whatever the hardware has cached, exactly when every mapped page of the
      slot finds the same frame in the words of the new table, and the whole invariant exactly when it
      puts back the table that is there. */
  lemma RecursiveMap(w: World, k: Layout, d: nat, va: uint32, pa: uint32, flags: uint32)
    requires Inv(w, k) && d < ENTRIES && PageOf(va) == TablePage(d)
    ensures (forall hw0, hw1 :: Coherent(MapPage(w.s, va, pa, flags, hw0, hw1))) <==> SlotKept(w.s, d, Entry(pa, flags))
    ensures forall hw0, hw1 ::
              Inv(w.(s := MapPage(w.s, va, pa, flags, hw0, hw1)), k) <==>
                Present(w.s.mem[w.s.cr3][d]) && FrameOf(w.s.mem[w.s.cr3][d]) == pa / PAGE_SIZE
  {
    RecursivePage(d);
    forall hw0, hw1
      ensures MapPage(w.s, va, pa, flags, hw0, hw1) == DirectoryEdit(w.s, d, Entry(pa, flags), hw0, hw1)
      ensures Inv(w.(s := MapPage(w.s, va, pa, flags, hw0, hw1)), k) <==> EntryKept(w.s, d, Entry(pa, flags))
    {
      MapEditsDirectory(w.s, va, pa, flags, hw0, hw1);
      DirectoryExact(w, k, d, Entry(pa, flags), hw0, hw1);
    }
    DirectoryEditExact(w, k, d, Entry(pa, flags));
  }

  /** unmap_page in the recursive slot takes a whole table away and flushes one address. It keeps
      the TLB coherent, whatever the hardware has cached, exactly when that table maps nothing;
      taking the directory's own entry away, d = 1023, never does. It keeps the whole invariant exactly
      when there is no table to take away: the frame of an empty table is leaked, see TableLost. */
  lemma RecursiveUnmap(w: World, k: Layout, d: nat, va: uint32)
    requires Inv(w, k) && d < ENTRIES && PageOf(va) == TablePage(d)
    ensures (forall hw0, hw1 :: Coherent(UnmapPage(Age(w.s, hw0), va, hw1)))
            <==> d != RECURSIVE_SLOT && forall p: PageNo :: SlotOf(p) == d ==> Lookup(w.s, p * PAGE_SIZE) == None
    ensures forall hw :: Inv(w.(s := UnmapPage(w.s, va, hw)), k) <==> ClientSlot(d) && !Present(w.s.mem[w.s.cr3][d])
  {
    RecursivePage(d);
    forall hw
      ensures Inv(w.(s := UnmapPage(w.s, va, hw)), k) <==> ClientSlot(d) && !Present(w.s.mem[w.s.cr3][d])
    {
      UnmapExact(w, k, va, hw);
    }
    forall hw0, hw1
      ensures UnmapPage(Age(w.s, hw0), va, hw1) == DirectoryEdit(w.s, d, 0, hw0, hw1)
    {
      RecursivePage(d);
    }
    DirectoryEditExact(w, k, d, 0);
    if d == RECURSIVE_SLOT {
      var p := TablePage(0);
      RecursivePage(0);
      assert PageOf(p * PAGE_SIZE) == p && Leaf(w.s, p) == Some(w.s.mem[k.dir][0]);
      assert Lookup(w.s, p * PAGE_SIZE) != None;
    } else {
      RecursivePage(d);
    }
  }

  // ----- The whole invariant: directory entries, through the recursive slot -----

  /** Overwriting directory entry `t` leaves the slot with the table it has, or still without one. */
  predicate EntryKept(s: State, t: nat, entry: uint32)
    requires t < ENTRIES
  {
    var now := s.mem[s.cr3][t];
    if Present(now) then Present(entry) && FrameOf(entry) == FrameOf(now) else !Present(entry)
  }

  /** Then every slot holds the table it held ... */
  lemma KeptStructure(w: World, k: Layout, t: nat, entry: uint32)
    requires Inv(w, k) && t < ENTRIES && EntryKept(w.s, t, entry)
    ensures Structure(w.(s := WithEntry(w.s, t, entry)), k)
  {
    SameTables(w, k, WithEntry(w.s, t, entry));
  }

  lemma SameTables(w: World, k: Layout, s': State)
    requires Structure(w, k) && Fixed(s', k) && s'.used == w.s.used
    requires forall d, f :: Holds(s', d, f) == Holds(w.s, d, f)
    ensures Structure(w.(s := s'), k)
  {
    forall f: nat
      ensures IsTable(s', f) == IsTable(w.s, f)
    {
      if IsTable(w.s, f) {
        var d :| Holds(w.s, d, f);
        assert Holds(s', d, f);
      }
    }
  }

  /** ... and every page the frame it had. */
  lemma KeptSlot(w: World, k: Layout, t: nat, entry: uint32)
    requires Inv(w, k) && t < ENTRIES && EntryKept(w.s, t, entry)
    ensures SlotKept(w.s, t, entry)
  {
    forall p: PageNo | SlotOf(p) == t && p != TablePage(t) && Lookup(w.s, p * PAGE_SIZE) != None
      ensures FoundAgain(w.s, t, entry, p)
    {
      LookupIsWalk(w.s, p);
      assert IndexOf(p) != t || FrameOf(entry) != k.dir by {
        TableKinds(w, k, t);
      }
    }
  }

  /** Taking a table away from its slot leaks its frame: still in use, and nobody's. */
  lemma TableLost(w: World, k: Layout, t: nat, entry: uint32)
    requires Inv(w, k) && ClientSlot(t) && Present(w.s.mem[w.s.cr3][t])
    requires !Present(entry) || FrameOf(entry) != FrameOf(w.s.mem[w.s.cr3][t])
    ensures var f := FrameOf(w.s.mem[w.s.cr3][t]);
            f in w.s.used && f !in k.reserved && f !in w.owned && !IsTable(WithEntry(w.s, t, entry), f)
  {
    var f := FrameOf(w.s.mem[w.s.cr3][t]);
    var s' := WithEntry(w.s, t, entry);
    TableKinds(w, k, t);
    assert Holds(w.s, t, f);
    forall d
      ensures !Holds(s', d, f)
    {
      if Holds(s', d, f) {
        assert d != t && Holds(w.s, d, f);
      }
    }
  }

  /** A frame put into an empty slot is not in use, not a client's to give, or a table twice. */
  lemma TableIntruded(w: World, k: Layout, t: nat, entry: uint32)
    requires Inv(w, k) && ClientSlot(t) && !Present(w.s.mem[w.s.cr3][t]) && Present(entry)
    ensures !Structure(w.(s := WithEntry(w.s, t, entry)), k)
  {
    var g, s' := FrameOf(entry), WithEntry(w.s, t, entry);
    assert Holds(s', t, g);
    if IsTable(w.s, g) {
      var e :| Holds(w.s, e, g);
      assert Holds(s', e, g) && e != t;
    }
  }

  /** An edit of a directory entry keeps the invariant exactly when the entry is kept, whatever the
      hardware does in between. */
  lemma DirectoryExact(w: World, k: Layout, t: nat, entry: uint32, hw0: TlbEvent, hw1: TlbEvent)
    requires Inv(w, k) && t < ENTRIES
    ensures Inv(w.(s := DirectoryEdit(w.s, t, entry, hw0, hw1)), k) <==> EntryKept(w.s, t, entry)
  {
    var w1 := w.(s := WithEntry(w.s, t, entry));
    var w' := w.(s := DirectoryEdit(w.s, t, entry, hw0, hw1));
    assert w'.s == w1.s.(tlb := w'.s.tlb) && w1.s == w'.s.(tlb := w1.s.tlb);
    TlbOnly(w1, k, w'.s);
    TlbOnly(w', k, w1.s);
    if EntryKept(w.s, t, entry) {
      KeptStructure(w, k, t, entry);
      KeptSlot(w, k, t, entry);
      DirectoryEditCoherent(w, k, t, entry, hw0, hw1);
    } else if ClientSlot(t) {
      if Present(w.s.mem[w.s.cr3][t]) {
        TableLost(w, k, t, entry);
      } else {
        TableIntruded(w, k, t, entry);
      }
    }
  }

  // ----- The whole invariant: the boot table, through slots 0 and 768 -----

  /** A store in the boot table keeps the invariant exactly when the entry keeps its frame. */
  lemma BootExact(w: World, k: Layout, page: PageNo, word: uint32, hw: TlbEvent)
    requires Inv(w, k) && (SlotOf(page) == 0 || SlotOf(page) == KERNEL_SLOT)
    ensures var s1 := w.s.(mem := SetWord(w.s.mem, k.boot, IndexOf(page), word));
            Inv(w.(s := Invlpg(Age(s1, hw), page)), k) <==> Present(word) && FrameOf(word) == IndexOf(page)
  {
    var w1 := w.(s := w.s.(mem := SetWord(w.s.mem, k.boot, IndexOf(page), word)));
    if Present(word) && FrameOf(word) == IndexOf(page) {
      BootKept(w, k, page, word);
      FlushKeeps(w1, k, page, hw);
    } else {
      assert w1.s.mem[k.boot][IndexOf(page)] == word;
    }
  }

  lemma BootKept(w: World, k: Layout, page: PageNo, word: uint32)
    requires Inv(w, k) && (SlotOf(page) == 0 || SlotOf(page) == KERNEL_SLOT)
    requires Present(word) && FrameOf(word) == IndexOf(page)
    ensures var s1 := w.s.(mem := SetWord(w.s.mem, k.boot, IndexOf(page), word));
            Structure(w.(s := s1), k) && CoherentBut(s1, page)
  {
    var s1 := w.s.(mem := SetWord(w.s.mem, k.boot, IndexOf(page), word));
    assert s1.mem[k.dir] == w.s.mem[k.dir];
    SameTables(w, k, s1);
    BootTableStore(w, k, page, word);
    KernelWindow(w, k, IndexOf(page));
  }

  lemma BootMapExact(w: World, k: Layout, va: uint32, pa: uint32, flags: uint32, hw0: TlbEvent, hw1: TlbEvent)
    requires Inv(w, k) && (SlotOf(PageOf(va)) == 0 || SlotOf(PageOf(va)) == KERNEL_SLOT)
    ensures Inv(w.(s := MapPage(w.s, va, pa, flags, hw0, hw1)), k) <==> pa / PAGE_SIZE == IndexOf(PageOf(va))
  {
    AgeKeeps(w, k, hw0);
    BootExact(w.(s := Age(w.s, hw0)), k, PageOf(va), Entry(pa, flags), hw1);
  }

  // ----- The whole invariant: all addresses -----

  /** What a caller of unmap_page can check: the page is in a client slot, or shows a client slot of the
      directory that has no table. */
  predicate UnmapSafe(s: State, va: uint32)
  {
    var d, t := SlotOf(PageOf(va)), IndexOf(PageOf(va));
    ClientSlot(d) || (d == RECURSIVE_SLOT && !Present(s.mem[s.cr3][t]))
  }

  /** In the recursive slot the table is the directory itself. */
  predicate Recursive(s: State, page: PageNo)
  {
    && SlotOf(page) == RECURSIVE_SLOT
    && Present(s.mem[s.cr3][RECURSIVE_SLOT]) && FrameOf(s.mem[s.cr3][RECURSIVE_SLOT]) == s.cr3
  }

  lemma UnmapEdits(s: State, va: uint32, hw: TlbEvent)
    requires Recursive(s, PageOf(va))
    ensures UnmapPage(s, va, hw) == DirectoryEdit(s, IndexOf(PageOf(va)), 0, TlbEvent({}, {}), hw)
  {
    assert Age(s, TlbEvent({}, {})) == s;
  }

  lemma MapEditsDirectory(s: State, va: uint32, pa: uint32, flags: uint32, hw0: TlbEvent, hw1: TlbEvent)
    requires Recursive(s, PageOf(va))
    ensures MapPage(s, va, pa, flags, hw0, hw1) == DirectoryEdit(s, IndexOf(PageOf(va)), Entry(pa, flags), hw0, hw1)
  {
  }

  /** unmap_page keeps the invariant, for every address and all hardware behaviour, exactly when it is
      safe: in slots 0 and 768 the kernel loses a page of its window, and in the recursive slot a table
      is leaked or the directory damaged. */
  lemma UnmapExact(w: World, k: Layout, va: uint32, hw: TlbEvent)
    requires Inv(w, k)
    ensures Inv(w.(s := UnmapPage(w.s, va, hw)), k) <==> UnmapSafe(w.s, va)
  {
    var page := PageOf(va);
    if ClientSlot(SlotOf(page)) {
      UnmapKeeps(w, k, va, hw);
    } else if SlotOf(page) == RECURSIVE_SLOT {
      UnmapEdits(w.s, va, hw);
      DirectoryExact(w, k, IndexOf(page), 0, TlbEvent({}, {}), hw);
    } else {
      BootExact(w, k, page, 0, hw);
    }
  }

  /** What a caller of map_page_to_frame can check: in a client slot, that P2V reaches the table it may
      have to create; in slots 0 and 768, that the page keeps its frame; in the recursive slot, that the
      directory entry is present and keeps its table. */
  predicate MapSafe(s: State, va: uint32, pa: uint32)
  {
    var d, t := SlotOf(PageOf(va)), IndexOf(PageOf(va));
    if ClientSlot(d) then Present(s.mem[s.cr3][d]) || Reachable(s.used)
    else if d == RECURSIVE_SLOT then Present(s.mem[s.cr3][t]) && FrameOf(s.mem[s.cr3][t]) == pa / PAGE_SIZE
    else pa / PAGE_SIZE == t
  }

  /** A new table above 4 MB is one that the code cannot reach. */
  lemma TableTooHigh(w: World, k: Layout, va: uint32, pa: uint32, flags: uint32, hw0: TlbEvent, hw1: TlbEvent)
    requires Inv(w, k) && ClientSlot(SlotOf(PageOf(va)))
    requires !Present(w.s.mem[w.s.cr3][SlotOf(PageOf(va))]) && !Reachable(w.s.used)
    ensures !Separate(w.(s := MapPage(w.s, va, pa, flags, hw0, hw1)), k)
  {
    var d, f := SlotOf(PageOf(va)), LowestFree(w.s.used).value;
    var s' := MapPage(w.s, va, pa, flags, hw0, hw1);
    assert GetTable(w.s, d, true) == (Linked(w.s, d, f), Some(f));
    assert s'.mem[k.dir][d] == TableEntry(f);
    assert Holds(s', d, f);
  }

  /** map_page_to_frame keeps the invariant, for every address, frame and flags and all hardware
      behaviour, exactly when it is safe. */
  lemma MapExact(w: World, k: Layout, va: uint32, pa: uint32, flags: uint32, hw0: TlbEvent, hw1: TlbEvent)
    requires Inv(w, k)
    ensures Inv(w.(s := MapPage(w.s, va, pa, flags, hw0, hw1)), k) <==> MapSafe(w.s, va, pa)
  {
    var page := PageOf(va);
    var entry := Entry(pa, flags);
    if ClientSlot(SlotOf(page)) {
      if MapSafe(w.s, va, pa) {
        MapKeeps(w, k, va, pa, flags, hw0, hw1);
      } else {
        TableTooHigh(w, k, va, pa, flags, hw0, hw1);
      }
    } else if SlotOf(page) == RECURSIVE_SLOT {
      MapEditsDirectory(w.s, va, pa, flags, hw0, hw1);
      DirectoryExact(w, k, IndexOf(page), entry, hw0, hw1);
    } else {
      BootMapExact(w, k, va, pa, flags, hw0, hw1);
    }
  }
}
