/** The tag walk of validate_boot in kernel/kernel/multiboot.c, as the inverse of laying out a
    Multiboot2 information structure (section 3.6 of the Multiboot2 Specification, version 2.0). */
module Multiboot {
  import opened Bits
  import opened ByteMemory

  const MAGIC := 0x36D7_6289
  const KERNEL_VIRTUAL_BASE := 0xC000_0000
  const TYPE_END := 0
  const TYPE_MMAP := 6

  /** Memory from address 0. A pointer behind an object must not wrap around to 0, so no object ends at
      the very top of the 32-bit address space. */
  type Ram = m: seq<byte> | |m| < WORD_LIMIT

  // ----- Little-endian numbers -----

  function ToLe(n: nat, k: nat): (s: seq<byte>)
    ensures |s| == k
  {
    if k == 0 then [] else [n % 256] + ToLe(n / 256, k - 1)
  }

  function FromLe(s: seq<byte>): nat
  {
    if s == [] then 0 else s[0] + 256 * FromLe(s[1..])
  }

  function Limit(k: nat): (p: nat)
    ensures p > 0
  {
    if k == 0 then 1 else 256 * Limit(k - 1)
  }

  lemma {:induction false} LeRoundTrip(n: nat, k: nat)
    requires n < Limit(k)
    ensures FromLe(ToLe(n, k)) == n
  {
    if k > 0 {
      LeRoundTrip(n / 256, k - 1);
      assert ToLe(n, k)[1..] == ToLe(n / 256, k - 1);
    }
  }

  lemma Limits()
    ensures Limit(4) == 0x1_0000_0000 && Limit(8) == 0x1_0000_0000_0000_0000
  {
  }

  // ----- The information structure -----

  /** An entry of the memory map. */
  datatype Region = Region(base: nat, length: nat, kind: nat)

  /** A tag: the memory map, or any other type with its payload. */
  datatype Tag =
    | Mmap(entrySize: nat, version: nat, regions: seq<Region>)
    | Other(kind: nat, payload: seq<byte>)

  predicate RegionOk(r: Region)
  {
    r.base < Limit(8) && r.length < Limit(8) && r.kind < WORD_LIMIT
  }

  function Zeroes(n: nat): (s: seq<byte>)
    ensures |s| == n
  {
    seq(n, _ => 0)
  }

  /** base, length, type, and zeroes up to the entry size. */
  function RegionBytes(r: Region, entrySize: nat): (s: seq<byte>)
    ensures entrySize >= 20 ==> |s| == entrySize
  {
    ToLe(r.base, 8) + ToLe(r.length, 8) + ToLe(r.kind, 4) + Zeroes(if entrySize < 20 then 0 else entrySize - 20)
  }

  function RegionsBytes(regions: seq<Region>, entrySize: nat): seq<byte>
  {
    if regions == [] then [] else RegionBytes(regions[0], entrySize) + RegionsBytes(regions[1..], entrySize)
  }

  /** n entries take n * entry_size bytes. */
  lemma {:induction false} RegionsSize(regions: seq<Region>, entrySize: nat)
    requires entrySize >= 20
    ensures |RegionsBytes(regions, entrySize)| == |regions| * entrySize
  {
    if regions != [] {
      RegionsSize(regions[1..], entrySize);
      assert |regions| * entrySize == entrySize + (|regions| - 1) * entrySize;
    }
  }

  /** The size field: the tag without its padding. */
  function SizeOf(t: Tag): nat
  {
    match t
    case Mmap(entrySize, _, regions) => 16 + |RegionsBytes(regions, entrySize)|
    case Other(_, payload) => 8 + |payload|
  }

  function KindOf(t: Tag): nat
  {
    if t.Mmap? then TYPE_MMAP else t.kind
  }

  predicate TagOk(t: Tag)
  {
    && SizeOf(t) + 7 < WORD_LIMIT
    && match t
       case Mmap(entrySize, version, regions) =>
         24 <= entrySize < WORD_LIMIT && version < WORD_LIMIT && forall i :: 0 <= i < |regions| ==> RegionOk(regions[i])
       case Other(kind, _) => kind < WORD_LIMIT && kind != TYPE_END && kind != TYPE_MMAP
  }

  function Content(t: Tag): (s: seq<byte>)
    requires TagOk(t)
  {
    match t
    case Mmap(entrySize, version, regions) => ToLe(entrySize, 4) + ToLe(version, 4) + RegionsBytes(regions, entrySize)
    case Other(_, payload) => payload
  }

  function Padding(n: nat): nat
  {
    (n + 7) / 8 * 8 - n
  }

  /** Type, size, content, padding to eight bytes. */
  function TagBytes(t: Tag): seq<byte>
    requires TagOk(t)
  {
    ToLe(KindOf(t), 4) + ToLe(SizeOf(t), 4) + Content(t) + Zeroes(Padding(SizeOf(t)))
  }

  lemma TagLength(t: Tag)
    requires TagOk(t)
    ensures |Content(t)| == SizeOf(t) - 8 && |TagBytes(t)| == (SizeOf(t) + 7) / 8 * 8 >= 8
  {
  }

  /** The walk's step over a tag is the length of the tag with its padding. */
  lemma TagStride(t: Tag)
    requires TagOk(t)
    ensures Stride(SizeOf(t)) == |TagBytes(t)|
  {
    TagLength(t);
    StrideSmall(SizeOf(t));
  }

  predicate TagsOk(tags: seq<Tag>)
  {
    tags == [] || (TagOk(tags[0]) && TagsOk(tags[1..]))
  }

  /** The tags and the END tag. */
  function Body(tags: seq<Tag>): (s: seq<byte>)
    requires TagsOk(tags)
  {
    if tags == [] then ToLe(TYPE_END, 4) + ToLe(8, 4) else TagBytes(tags[0]) + Body(tags[1..])
  }

  /** The whole structure: total size, reserved word, tags. */
  function Info(tags: seq<Tag>): (s: seq<byte>)
    requires TagsOk(tags)
  {
    ToLe(8 + |Body(tags)|, 4) + ToLe(0, 4) + Body(tags)
  }

  // ----- Reading memory -----

  /** The bytes `s` lie at address `p`. */
  predicate Lies(mem: Ram, p: nat, s: seq<byte>)
  {
    p + |s| <= |mem| && mem[p..p + |s|] == s
  }

  lemma LiesSplit(mem: Ram, p: nat, s: seq<byte>, t: seq<byte>)
    requires Lies(mem, p, s + t)
    ensures Lies(mem, p, s) && Lies(mem, p + |s|, t)
  {
    assert mem[p..p + |s|] == (s + t)[..|s|];
    assert mem[p + |s|..p + |s + t|] == (s + t)[|s|..];
  }

  /** The 32-bit word at `p`. */
  function Word(mem: Ram, p: nat): nat
    requires p + 4 <= |mem|
  {
    FromLe(mem[p..p + 4])
  }

  function Long(mem: Ram, p: nat): nat
    requires p + 8 <= |mem|
  {
    FromLe(mem[p..p + 8])
  }

  /** Words are little-endian: the lowest byte comes first. */
  lemma WordBytes(mem: Ram, p: nat)
    requires p + 4 <= |mem|
    ensures Word(mem, p) == mem[p] as int + 0x100 * mem[p + 1] as int + 0x1_0000 * mem[p + 2] as int + 0x100_0000 * mem[p + 3] as int
  {
    FourBytes(mem[p..p + 4]);
  }

  lemma FourBytes(s: seq<byte>)
    requires |s| == 4
    ensures FromLe(s) == s[0] as int + 0x100 * s[1] as int + 0x1_0000 * s[2] as int + 0x100_0000 * s[3] as int
  {
    assert s[1..][1..] == s[2..] && s[2..][1..] == s[3..] && s[3..][1..] == [];
    assert FromLe(s[3..]) == s[3];
    assert FromLe(s[2..]) == s[2] as int + 0x100 * s[3] as int;
    assert FromLe(s[1..]) == s[1] as int + 0x100 * (s[2] as int + 0x100 * s[3] as int);
  }

  lemma EightBytes(s: seq<byte>)
    requires |s| == 8
    ensures FromLe(s) == FromLe(s[..4]) + 0x1_0000_0000 * FromLe(s[4..])
  {
    FourBytes(s[..4]);
    var rest := FromLe(s[4..]);
    assert s[1..][1..] == s[2..] && s[2..][1..] == s[3..] && s[3..][1..] == s[4..];
    assert FromLe(s[3..]) == s[3] as int + 0x100 * rest;
    assert FromLe(s[2..]) == s[2] as int + 0x100 * s[3] as int + 0x1_0000 * rest;
    assert FromLe(s[1..]) == s[1] as int + 0x100 * s[2] as int + 0x1_0000 * s[3] as int + 0x100_0000 * rest;
  }

  /** So are the 64-bit numbers of the memory map. */
  lemma LongWords(mem: Ram, p: nat)
    requires p + 8 <= |mem|
    ensures Long(mem, p) == Word(mem, p) + 0x1_0000_0000 * Word(mem, p + 4)
  {
    var s := mem[p..p + 8];
    assert s[..4] == mem[p..p + 4] && s[4..] == mem[p + 4..p + 8];
    EightBytes(s);
  }

  lemma WordAt(mem: Ram, p: nat, n: nat)
    requires Lies(mem, p, ToLe(n, 4)) && n < WORD_LIMIT
    ensures Word(mem, p) == n
  {
    Limits();
    LeRoundTrip(n, 4);
  }

  lemma LongAt(mem: Ram, p: nat, n: nat)
    requires Lies(mem, p, ToLe(n, 8)) && n < Limit(8)
    ensures Long(mem, p) == n
  {
    LeRoundTrip(n, 8);
  }

  /** `(size + 7) & ~7` in 32-bit arithmetic. */
  function Stride(size: uint32): nat
  {
    And((size + 7) % WORD_LIMIT, 0xFFFF_FFF8)
  }

  lemma StrideRounds(size: uint32)
    ensures Stride(size) == (size + 7) % WORD_LIMIT / 8 * 8
  {
    RoundDownEight((size + 7) % WORD_LIMIT);
  }

  lemma StrideSmall(size: uint32)
    requires size + 7 < WORD_LIMIT
    ensures Stride(size) == (size + 7) / 8 * 8
  {
    StrideRounds(size);
  }

  /** The walk stands still at a tag, for ever, exactly when its size is 0 or within seven of 2^32. */
  lemma WalkSticks(size: uint32)
    ensures Stride(size) == 0 <==> size == 0 || size > 0xFFFF_FFF8
  {
    StrideRounds(size);
  }

  /** The fields of the memory map entry at `q`. */
  function ReadRegion(mem: Ram, q: nat): Region
    requires q + 20 <= |mem|
  {
    Region(Long(mem, q), Long(mem, q + 8), Word(mem, q + 16))
  }

  /** A memory map entry is base, length and type at offsets 0, 8 and 16. */
  lemma RegionOffsets(mem: Ram, q: nat)
    requires q + 20 <= |mem|
    ensures ReadRegion(mem, q).base == Word(mem, q) + 0x1_0000_0000 * Word(mem, q + 4)
    ensures ReadRegion(mem, q).length == Word(mem, q + 8) + 0x1_0000_0000 * Word(mem, q + 12)
    ensures ReadRegion(mem, q).kind == Word(mem, q + 16)
  {
    LongWords(mem, q);
    LongWords(mem, q + 8);
  }

  lemma RegionFields(mem: Ram, q: nat, r: Region, entrySize: nat)
    requires entrySize >= 24 && RegionOk(r) && Lies(mem, q, RegionBytes(r, entrySize))
    ensures q + 20 <= |mem| && ReadRegion(mem, q) == r
  {
    LiesSplit(mem, q, ToLe(r.base, 8) + ToLe(r.length, 8) + ToLe(r.kind, 4), Zeroes(entrySize - 20));
    LiesSplit(mem, q, ToLe(r.base, 8) + ToLe(r.length, 8), ToLe(r.kind, 4));
    LiesSplit(mem, q, ToLe(r.base, 8), ToLe(r.length, 8));
    LongAt(mem, q, r.base);
    LongAt(mem, q + 8, r.length);
    WordAt(mem, q + 16, r.kind);
  }

  lemma TagFields(mem: Ram, p: nat, t: Tag)
    requires TagOk(t) && Lies(mem, p, TagBytes(t))
    ensures p + 8 <= |mem| && Word(mem, p) == KindOf(t) && Word(mem, p + 4) == SizeOf(t)
    ensures Lies(mem, p + 8, Content(t))
  {
    LiesSplit(mem, p, ToLe(KindOf(t), 4) + ToLe(SizeOf(t), 4) + Content(t), Zeroes(Padding(SizeOf(t))));
    LiesSplit(mem, p, ToLe(KindOf(t), 4) + ToLe(SizeOf(t), 4), Content(t));
    LiesSplit(mem, p, ToLe(KindOf(t), 4), ToLe(SizeOf(t), 4));
    WordAt(mem, p, KindOf(t));
    WordAt(mem, p + 4, SizeOf(t));
  }

  // ----- The walk through any memory -----

  /** What the walk reports for a tag: its type, its size and the regions it lists. */
  datatype Visit = Visit(kind: nat, size: nat, regions: seq<Region>)

  /** How a loop fares: it ends, it stands still for ever, or it leaves memory: it reads outside, or a
      pointer that it compares wraps around 2^32. */
  datatype Fate<T> = Ends(value: T) | Sticks | Leaves

  /** The memory-map loop from entry `q` to the end of its tag. */
  function Entries(mem: Ram, q: nat, end: nat, step: nat): Fate<seq<Region>>
    decreases end - q
  {
    if q >= end then Ends([])
    else if q + 20 > |mem| || q + step >= WORD_LIMIT then Leaves
    else if step == 0 then Sticks
    else
      match Entries(mem, q + step, end, step)
      case Ends(rest) => Ends([ReadRegion(mem, q)] + rest)
      case Sticks => Sticks
      case Leaves => Leaves
  }

  /** The regions that the walk reads at the tag at `p`. */
  function EntriesAt(mem: Ram, p: nat): Fate<seq<Region>>
    requires p + 8 <= |mem|
  {
    if Word(mem, p) != TYPE_MMAP then Ends([])
    else if p + Word(mem, p + 4) >= WORD_LIMIT then Leaves
    else if p + Word(mem, p + 4) <= p + 16 then Ends([])
    else if p + 16 > |mem| then Leaves
    else Entries(mem, p + 16, p + Word(mem, p + 4), Word(mem, p + 8))
  }

  /** All that the walk reports, and where it leaves its pointer. */
  datatype Report = Report(visits: seq<Visit>, end: nat)

  function Reported(visit: Visit, later: Fate<Report>): Fate<Report>
  {
    match later
    case Ends(r) => Ends(Report([visit] + r.visits, r.end))
    case Sticks => Sticks
    case Leaves => Leaves
  }

  /** The tag after the one at `p`. */
  function NextTag(mem: Ram, p: nat): (q: nat)
    requires p + 8 <= |mem|
    ensures q >= p
  {
    WordFits(mem, p + 4);
    p + Stride(Word(mem, p + 4))
  }

  /** The tag loop from the tag at `p`. */
  function Walk(mem: Ram, p: nat): Fate<Report>
    decreases |mem| - p
  {
    if p + 8 > |mem| then Leaves
    else if Word(mem, p) == TYPE_END then Ends(Report([], NextTag(mem, p)))
    else
      match EntriesAt(mem, p)
      case Sticks => Sticks
      case Leaves => Leaves
      case Ends(regions) =>
        if NextTag(mem, p) == p then Sticks
        else Reported(Visit(Word(mem, p), Word(mem, p + 4), regions), Walk(mem, NextTag(mem, p)))
  }

  lemma {:induction false} LeFits(s: seq<byte>)
    ensures FromLe(s) < Limit(|s|)
  {
    if s != [] {
      LeFits(s[1..]);
    }
  }

  lemma WordFits(mem: Ram, p: nat)
    requires p + 4 <= |mem|
    ensures Word(mem, p) < WORD_LIMIT
  {
    Limits();
    LeFits(mem[p..p + 4]);
  }

  /** One round of the walk, by offsets: END (type 0) stops it; any other tag is reported with the type at
      offset 0 and the size at offset 4, and the next one is looked for behind that size, rounded up to
      eight. Only the memory map (type 6) has entries: from offset 16, as long as the size at offset 4
      reaches, at the distance read at offset 8. */
  lemma WalkRound(mem: Ram, p: nat)
    requires Walk(mem, p).Ends?
    ensures var r := Walk(mem, p).value;
            && p + 8 <= |mem|
            && var kind, size := Word(mem, p), Word(mem, p + 4);
               var next := p + (size + 7) % 0x1_0000_0000 / 8 * 8;
               if kind == 0 then r == Report([], next)
               else
                 && r.visits != [] && r.visits[0].kind == kind && r.visits[0].size == size
                 && Walk(mem, next) == Ends(Report(r.visits[1..], r.end))
                 && (kind != 6 || size <= 16 ==> r.visits[0].regions == [])
                 && (kind == 6 && size > 16 ==>
                       && p + 16 <= |mem|
                       && Entries(mem, p + 16, p + size, Word(mem, p + 8)) == Ends(r.visits[0].regions))
  {
    WordFits(mem, p + 4);
    StrideRounds(Word(mem, p + 4));
  }

  // ----- Round by round -----

  /** The memory-map loop ends after `n` rounds, all inside memory. */
  predicate MapEnds(mem: Ram, q: nat, end: nat, step: nat, n: nat)
    decreases n
  {
    if q >= end then n == 0
    else n > 0 && q + 20 <= |mem| && q + step < WORD_LIMIT && MapEnds(mem, q + step, end, step, n - 1)
  }

  /** The loop ends after `n` rounds exactly when Entries says that it reads `n` entries: with a step
      of zero it never does. */
  lemma {:induction false} EntriesDecide(mem: Ram, q: nat, end: nat, step: nat, n: nat)
    ensures MapEnds(mem, q, end, step, n) <==>
            Entries(mem, q, end, step).Ends? && |Entries(mem, q, end, step).value| == n
    decreases n
  {
    if q < end && n > 0 {
      if step == 0 {
        MapSticks(mem, q, end, n);
      } else {
        EntriesDecide(mem, q + step, end, step, n - 1);
      }
    }
  }

  lemma {:induction false} MapSticks(mem: Ram, q: nat, end: nat, n: nat)
    requires q < end
    ensures !MapEnds(mem, q, end, 0, n)
  {
    if n > 0 {
      MapSticks(mem, q, end, n - 1);
    }
  }

  /** The tag loop ends after `n` rounds, all inside memory. */
  ghost predicate WalkEnds(mem: Ram, p: nat, n: nat)
    decreases n
  {
    && p + 8 <= |mem|
    && if Word(mem, p) == TYPE_END then n == 0
       else n > 0 && EntriesAt(mem, p).Ends? && WalkEnds(mem, NextTag(mem, p), n - 1)
  }

  lemma {:induction false} WalkSticksAt(mem: Ram, p: nat, n: nat)
    requires p + 8 <= |mem| && Word(mem, p) != TYPE_END && NextTag(mem, p) == p
    ensures !WalkEnds(mem, p, n)
  {
    if n > 0 {
      WalkSticksAt(mem, p, n - 1);
    }
  }

  /** In any memory, the tag loop ends after `n` rounds exactly when Walk says that it visits `n` tags. */
  lemma {:induction false} WalkDecides(mem: Ram, p: nat, n: nat)
    ensures WalkEnds(mem, p, n) <==> Walk(mem, p).Ends? && |Walk(mem, p).value.visits| == n
    decreases n
  {
    if p + 8 <= |mem| && Word(mem, p) != TYPE_END && n > 0 {
      if NextTag(mem, p) == p {
        WalkSticksAt(mem, p, n);
      } else {
        WalkDecides(mem, NextTag(mem, p), n - 1);
      }
    }
  }

  // ----- The walk through a laid-out structure -----

  function VisitOf(t: Tag): Visit
  {
    Visit(KindOf(t), SizeOf(t), if t.Mmap? then t.regions else [])
  }

  function VisitsOf(tags: seq<Tag>): seq<Visit>
  {
    if tags == [] then [] else [VisitOf(tags[0])] + VisitsOf(tags[1..])
  }

  lemma VisitsCons(tags: seq<Tag>, end: nat)
    requires tags != []
    ensures Reported(VisitOf(tags[0]), Ends(Report(VisitsOf(tags[1..]), end))) == Ends(Report(VisitsOf(tags), end))
  {
  }

  lemma MmapFields(mem: Ram, p: nat, t: Tag)
    requires t.Mmap? && TagOk(t) && Lies(mem, p, TagBytes(t))
    ensures p + 16 <= |mem| && Word(mem, p + 4) == SizeOf(t) && Word(mem, p + 8) == t.entrySize
    ensures Lies(mem, p + 16, RegionsBytes(t.regions, t.entrySize))
    ensures 16 + |RegionsBytes(t.regions, t.entrySize)| == SizeOf(t)
  {
    TagFields(mem, p, t);
    LiesSplit(mem, p + 8, ToLe(t.entrySize, 4) + ToLe(t.version, 4), RegionsBytes(t.regions, t.entrySize));
    LiesSplit(mem, p + 8, ToLe(t.entrySize, 4), ToLe(t.version, 4));
    WordAt(mem, p + 8, t.entrySize);
  }

  lemma RegionsSplit(mem: Ram, q: nat, regions: seq<Region>, entrySize: nat)
    requires entrySize >= 24 && regions != [] && RegionOk(regions[0]) && Lies(mem, q, RegionsBytes(regions, entrySize))
    ensures q + entrySize <= |mem| && ReadRegion(mem, q) == regions[0]
    ensures Lies(mem, q + entrySize, RegionsBytes(regions[1..], entrySize))
    ensures |RegionsBytes(regions, entrySize)| == entrySize + |RegionsBytes(regions[1..], entrySize)|
  {
    LiesSplit(mem, q, RegionBytes(regions[0], entrySize), RegionsBytes(regions[1..], entrySize));
    RegionFields(mem, q, regions[0], entrySize);
  }

  lemma EntriesOn(mem: Ram, q: nat, end: nat, step: nat, rest: seq<Region>)
    requires q < end && step >= 20 && q + step <= |mem| && Entries(mem, q + step, end, step) == Ends(rest)
    ensures Entries(mem, q, end, step) == Ends([ReadRegion(mem, q)] + rest)
  {
  }

  /** The memory-map loop reads exactly the entries that were laid out, in order. */
  lemma {:induction false} EntriesLaidOut(mem: Ram, q: nat, regions: seq<Region>, entrySize: nat)
    requires entrySize >= 24 && Lies(mem, q, RegionsBytes(regions, entrySize))
    requires forall i :: 0 <= i < |regions| ==> RegionOk(regions[i])
    ensures Entries(mem, q, q + |RegionsBytes(regions, entrySize)|, entrySize) == Ends(regions)
    decreases |regions|
  {
    if regions != [] {
      var end := q + |RegionsBytes(regions, entrySize)|;
      RegionsSplit(mem, q, regions, entrySize);
      EntriesLaidOut(mem, q + entrySize, regions[1..], entrySize);
      EntriesOn(mem, q, end, entrySize, regions[1..]);
      assert regions == [regions[0]] + regions[1..];
    }
  }

  lemma MapAt(mem: Ram, p: nat, end: nat, step: nat, regions: seq<Region>)
    requires p + 16 <= |mem| && Word(mem, p) == TYPE_MMAP && p + Word(mem, p + 4) == end <= |mem|
    requires Word(mem, p + 8) == step && Entries(mem, p + 16, end, step) == Ends(regions)
    ensures EntriesAt(mem, p) == Ends(regions)
  {
  }

  lemma TagEntries(mem: Ram, p: nat, t: Tag)
    requires TagOk(t) && Lies(mem, p, TagBytes(t))
    ensures p + 8 <= |mem| && EntriesAt(mem, p) == Ends(VisitOf(t).regions)
  {
    TagFields(mem, p, t);
    if t.Mmap? {
      MmapEntries(mem, p, t);
    }
  }

  lemma MmapEntries(mem: Ram, p: nat, t: Tag)
    requires t.Mmap? && TagOk(t) && Lies(mem, p, TagBytes(t))
    ensures p + 8 <= |mem| && EntriesAt(mem, p) == Ends(t.regions)
  {
    TagFields(mem, p, t);
    MmapFields(mem, p, t);
    RegionsAt(mem, p, t.regions, t.entrySize);
  }

  lemma RegionsAt(mem: Ram, p: nat, regions: seq<Region>, entrySize: nat)
    requires p + 16 <= |mem| && Word(mem, p) == TYPE_MMAP && Word(mem, p + 8) == entrySize >= 24
    requires Word(mem, p + 4) == 16 + |RegionsBytes(regions, entrySize)|
    requires Lies(mem, p + 16, RegionsBytes(regions, entrySize))
    requires forall i :: 0 <= i < |regions| ==> RegionOk(regions[i])
    ensures EntriesAt(mem, p) == Ends(regions)
  {
    EntriesLaidOut(mem, p + 16, regions, entrySize);
    MapAt(mem, p, p + 16 + |RegionsBytes(regions, entrySize)|, entrySize, regions);
  }

  /** At `p` is a tag other than END that the walk reports as `visit` before it goes on at `q`. */
  predicate Shows(mem: Ram, p: nat, visit: Visit, q: nat)
  {
    && p + 8 <= |mem| && Word(mem, p) == visit.kind != TYPE_END && Word(mem, p + 4) == visit.size
    && EntriesAt(mem, p) == Ends(visit.regions) && NextTag(mem, p) == q > p
  }

  lemma WalkOn(mem: Ram, p: nat, visit: Visit, q: nat)
    requires Shows(mem, p, visit, q)
    ensures Walk(mem, p) == Reported(visit, Walk(mem, q))
  {
  }

  lemma TagShows(mem: Ram, p: nat, t: Tag, q: nat)
    requires TagOk(t) && Lies(mem, p, TagBytes(t)) && q == p + |TagBytes(t)|
    ensures Shows(mem, p, VisitOf(t), q)
  {
    TagFields(mem, p, t);
    TagStride(t);
    TagLength(t);
    TagEntries(mem, p, t);
  }

  /** The tags lie at `p`, up to and including the END tag. */
  ghost predicate Stands(mem: Ram, p: nat, tags: seq<Tag>)
  {
    TagsOk(tags) && Lies(mem, p, Body(tags))
  }

  lemma SplitWhole(mem: Ram, p: nat, whole: seq<byte>, s: seq<byte>, t: seq<byte>)
    requires Lies(mem, p, whole) && whole == s + t
    ensures Lies(mem, p, s) && Lies(mem, p + |s|, t) && |whole| == |s| + |t|
  {
    LiesSplit(mem, p, s, t);
  }

  lemma BodyParts(tags: seq<Tag>)
    requires tags != [] && TagsOk(tags)
    ensures TagOk(tags[0]) && TagsOk(tags[1..]) && Body(tags) == TagBytes(tags[0]) + Body(tags[1..])
  {
  }

  lemma BodySplit(mem: Ram, p: nat, tags: seq<Tag>) returns (q: nat)
    requires tags != [] && Stands(mem, p, tags)
    ensures TagOk(tags[0]) && Lies(mem, p, TagBytes(tags[0])) && q == p + |TagBytes(tags[0])|
    ensures Stands(mem, q, tags[1..]) && q + |Body(tags[1..])| == p + |Body(tags)|
  {
    var rest := tags[1..];
    q := p + |TagBytes(tags[0])|;
    BodyParts(tags);
    SplitWhole(mem, p, Body(tags), TagBytes(tags[0]), Body(rest));
  }

  lemma EndTag(mem: Ram, p: nat)
    requires Lies(mem, p, Body([]))
    ensures |Body([])| == 8 && p + 8 <= |mem|
    ensures Word(mem, p) == TYPE_END && Word(mem, p + 4) == 8 && Stride(8) == 8
  {
    LiesSplit(mem, p, ToLe(TYPE_END, 4), ToLe(8, 4));
    WordAt(mem, p, TYPE_END);
    WordAt(mem, p + 4, 8);
    StrideRounds(8);
  }

  lemma EndLaidOut(mem: Ram, p: nat)
    requires Lies(mem, p, Body([]))
    ensures Walk(mem, p) == Ends(Report([], p + |Body([])|))
  {
    EndTag(mem, p);
  }

  /** The first of the tags shows at `p`, and the others stand behind it. */
  lemma FirstShows(mem: Ram, p: nat, tags: seq<Tag>) returns (q: nat)
    requires tags != [] && Stands(mem, p, tags)
    ensures Stands(mem, q, tags[1..]) && q + |Body(tags[1..])| == p + |Body(tags)|
    ensures Shows(mem, p, VisitOf(tags[0]), q)
  {
    q := BodySplit(mem, p, tags);
    TagShows(mem, p, tags[0], q);
  }

  /** Parsing inverts layout: the walk reports every tag in order and stops behind the END tag. */
  lemma {:induction false} WalkLaidOut(mem: Ram, p: nat, tags: seq<Tag>)
    requires Stands(mem, p, tags)
    ensures Walk(mem, p) == Ends(Report(VisitsOf(tags), p + |Body(tags)|))
    decreases |tags|
  {
    if tags == [] {
      EndLaidOut(mem, p);
    } else {
      var q := FirstShows(mem, p, tags);
      WalkLaidOut(mem, q, tags[1..]);
      WalkOn(mem, p, VisitOf(tags[0]), q);
      VisitsCons(tags, p + |Body(tags)|);
    }
  }

  lemma InfoHeader(mem: Ram, start: nat, n: nat, body: seq<byte>)
    requires Lies(mem, start, ToLe(n, 4) + ToLe(0, 4) + body) && n < WORD_LIMIT
    ensures start + 8 <= |mem| && Word(mem, start) == n && Lies(mem, start + 8, body)
  {
    LiesSplit(mem, start, ToLe(n, 4) + ToLe(0, 4), body);
    LiesSplit(mem, start, ToLe(n, 4), ToLe(0, 4));
    WordAt(mem, start, n);
  }

  /** The structure is its header, with the total size, and the tags behind it. */
  lemma InfoParts(mem: Ram, start: nat, tags: seq<Tag>)
    requires TagsOk(tags) && Lies(mem, start, Info(tags)) && |Info(tags)| < WORD_LIMIT
    ensures |Info(tags)| == 8 + |Body(tags)|
    ensures start + 8 <= |mem| && Word(mem, start) == |Info(tags)| && Stands(mem, start + 8, tags)
  {
    InfoHeader(mem, start, 8 + |Body(tags)|, Body(tags));
  }

  /** A whole structure in memory: its tags come back, and the pointer's way is the declared size. */
  lemma InfoLaidOut(mem: Ram, start: nat, tags: seq<Tag>)
    requires TagsOk(tags) && Lies(mem, start, Info(tags)) && |Info(tags)| < WORD_LIMIT
    ensures start + 8 <= |mem| && Word(mem, start) == |Info(tags)|
    ensures Walk(mem, start + 8) == Ends(Report(VisitsOf(tags), start + |Info(tags)|))
  {
    InfoParts(mem, start, tags);
    WalkLaidOut(mem, start + 8, tags);
  }

  // ----- The code -----

  /** The memory-map loop: the entry size is read anew in every round. */
  method WalkRegions(mem: Ram, tag: nat) returns (regions: seq<Region>)
    requires tag + 8 <= |mem| && Word(mem, tag) == TYPE_MMAP && EntriesAt(mem, tag).Ends?
    ensures regions == EntriesAt(mem, tag).value
  {
    regions := [];
    var mmap: nat := tag + 16;
    var end := tag + Word(mem, tag + 4);
    ghost var all := EntriesAt(mem, tag).value;
    while mmap < end
      invariant tag + 16 < end ==> tag + 16 <= |mem|
      invariant mmap >= end ==> regions == all
      invariant mmap < end ==>
                  && tag + 16 <= mmap && Entries(mem, mmap, end, Word(mem, tag + 8)).Ends?
                  && regions + Entries(mem, mmap, end, Word(mem, tag + 8)).value == all
      decreases end - mmap
    {
      regions := NextRegion(mem, mmap, end, Word(mem, tag + 8), regions);
      mmap := mmap + Word(mem, tag + 8);
    }
  }

  /** One round of it. */
  method NextRegion(mem: Ram, mmap: nat, end: nat, step: nat, done: seq<Region>) returns (regions: seq<Region>)
    requires mmap < end && Entries(mem, mmap, end, step).Ends?
    ensures step > 0 && Entries(mem, mmap + step, end, step).Ends?
    ensures regions + Entries(mem, mmap + step, end, step).value == done + Entries(mem, mmap, end, step).value
  {
    regions := done + [ReadRegion(mem, mmap)];
  }

  datatype Outcome = BadMagic | Unaligned | Walked(visits: seq<Visit>, total: nat)

  /** The virtual address of the structure: physical addresses are moved into the kernel window,
      in 32-bit arithmetic. */
  function InfoAddress(addr: uint32): nat
  {
    if addr < KERNEL_VIRTUAL_BASE then (addr + KERNEL_VIRTUAL_BASE) % WORD_LIMIT else addr
  }

  /** One round of the tag loop: the report on the tag and the address of the next one. */
  method VisitTag(mem: Ram, tag: nat) returns (visit: Visit, next: nat)
    requires Walk(mem, tag).Ends? && Word(mem, tag) != TYPE_END
    ensures Walk(mem, next).Ends? && tag < next <= |mem|
    ensures Walk(mem, tag) == Reported(visit, Walk(mem, next))
  {
    WordFits(mem, tag + 4);
    var kind, size := Word(mem, tag), Word(mem, tag + 4);
    var regions := [];
    if kind == TYPE_MMAP {
      regions := WalkRegions(mem, tag);
    }
    visit := Visit(kind, size, regions);
    next := tag + Stride(size);
  }

  /** The tag loop: in any memory in which it ends, it reports what Walk says. */
  method WalkTags(mem: Ram, first: nat) returns (visits: seq<Visit>, end: nat)
    requires Walk(mem, first).Ends?
    ensures Report(visits, end) == Walk(mem, first).value
  {
    visits := [];
    var tag: nat := first;
    ghost var all := Walk(mem, first).value;
    while Word(mem, tag) != TYPE_END
      invariant Walk(mem, tag).Ends?
      invariant Report(visits + Walk(mem, tag).value.visits, Walk(mem, tag).value.end) == all
      decreases |mem| - tag
    {
      var visit, next := VisitTag(mem, tag);
      VisitsStep(visits, visit, Walk(mem, next).value.visits);
      visits := visits + [visit];
      tag := next;
    }
    assert Walk(mem, tag).value.visits == [];
    WordFits(mem, tag + 4);
    end := tag + Stride(Word(mem, tag + 4));
  }

  lemma VisitsStep(visits: seq<Visit>, visit: Visit, rest: seq<Visit>)
    ensures visits + ([visit] + rest) == visits + [visit] + rest
  {
  }

  /** Where validate_boot looks for the structure: a physical address below 1 GB is seen through the kernel
      window at 0xC0000000, an address in that window is used as it is, and in between the sum wraps. */
  lemma InfoStart(addr: uint32)
    ensures InfoAddress(addr) == if addr < 0x4000_0000 then addr + 0xC000_0000
                                 else if addr < 0xC000_0000 then addr - 0x4000_0000
                                 else addr
  {
  }

  /** The structure for `tags` lies at `start`. */
  ghost predicate InfoAt(mem: Ram, start: nat, tags: seq<Tag>)
  {
    TagsOk(tags) && Lies(mem, start, Info(tags))
  }

  /** The report of the walk of a structure at `start`: the total is a 32-bit difference of pointers. */
  function ReportAt(mem: Ram, start: nat): Outcome
    requires Walk(mem, start + 8).Ends?
  {
    var report := Walk(mem, start + 8).value;
    Walked(report.visits, (report.end - start) % WORD_LIMIT)
  }

  lemma ReportIs(mem: Ram, start: nat, visits: seq<Visit>, n: nat)
    requires n < WORD_LIMIT && Walk(mem, start + 8) == Ends(Report(visits, start + n))
    ensures ReportAt(mem, start) == Walked(visits, n)
  {
  }

  lemma InfoFits(mem: Ram, start: nat, tags: seq<Tag>)
    requires InfoAt(mem, start, tags)
    ensures |Info(tags)| < WORD_LIMIT
  {
  }

  /** A structure that lies at `start` is reported with its tags and the size that it declares. */
  lemma InfoReported(mem: Ram, start: nat, tags: seq<Tag>)
    requires InfoAt(mem, start, tags)
    ensures Walk(mem, start + 8).Ends? && ReportAt(mem, start) == Walked(VisitsOf(tags), |Info(tags)|)
  {
    InfoFits(mem, start, tags);
    InfoLaidOut(mem, start, tags);
    ReportIs(mem, start, VisitsOf(tags), |Info(tags)|);
  }

  /** What validate_boot makes of its arguments and memory. */
  function BootOutcome(mem: Ram, magic: uint32, addr: uint32): Outcome
    requires magic == MAGIC && addr % 8 == 0 ==> Walk(mem, InfoAddress(addr) + 8).Ends?
  {
    if magic != MAGIC then BadMagic
    else if addr % 8 != 0 then Unaligned
    else ReportAt(mem, InfoAddress(addr))
  }

  /** validate_boot. */
  method ValidateBoot(mem: Ram, magic: uint32, addr: uint32) returns (r: Outcome)
    requires magic == MAGIC && addr % 8 == 0 ==> Walk(mem, InfoAddress(addr) + 8).Ends?
    ensures magic != 0x36D7_6289 ==> r == BadMagic
    ensures magic == 0x36D7_6289 && addr % 8 != 0 ==> r == Unaligned
    ensures r == BootOutcome(mem, magic, addr)
    ensures forall tags, start ::
              && magic == 0x36D7_6289 && addr % 8 == 0 && InfoAt(mem, start, tags)
              && start == (if addr < 0x4000_0000 then addr + 0xC000_0000
                           else if addr < 0xC000_0000 then addr - 0x4000_0000
                           else addr)
              ==> r == Walked(VisitsOf(tags), |Info(tags)|)
  {
    r := Examine(mem, magic, addr);
    InfoStart(addr);
    forall tags, start | magic == 0x36D7_6289 && addr % 8 == 0 && InfoAt(mem, start, tags) && start == InfoAddress(addr)
      ensures r == Walked(VisitsOf(tags), |Info(tags)|)
    {
      InfoReported(mem, start, tags);
    }
  }

  /** Its code. */
  method Examine(mem: Ram, magic: uint32, addr: uint32) returns (r: Outcome)
    requires magic == MAGIC && addr % 8 == 0 ==> Walk(mem, InfoAddress(addr) + 8).Ends?
    ensures r == BootOutcome(mem, magic, addr)
  {
    if magic != MAGIC {
      return BadMagic;
    }
    LowBits(addr);
    if And(addr, 7) != 0 {
      return Unaligned;
    }
    var start := InfoAddress(addr);
    var visits, end := WalkTags(mem, start + 8);
    return Walked(visits, (end - start) % WORD_LIMIT);
  }
}
