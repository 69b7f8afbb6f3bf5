/** The physical frame bitmap of kernel/kernel/paging.c: one bit per 4 KB frame, 32 frames a word. */
module FrameBitmap {
  import opened Bits
  import opened Wrappers

  const PAGE_SIZE := 4096
  const TOTAL_FRAMES := 16384
  const BITMAP_SIZE := 512
  const NO_FRAME := 0xFFFF_FFFF

  // ----- Specification: the set of used frames -----

  predicate IsUsed(words: seq<uint32>, f: nat)
    requires f < 32 * |words|
  {
    BitAt(words[f / 32], f % 32)
  }

  /** The frames whose bit is set. */
  function Used(words: seq<uint32>): set<nat>
  {
    set f: nat | f < 32 * |words| && IsUsed(words, f)
  }

  /** The least frame at or above `from` that is not used: a plain linear scan. */
  function LowestFreeFrom(used: set<nat>, from: nat): (r: Option<nat>)
    requires from <= TOTAL_FRAMES
    ensures r.Some? ==> from <= r.value < TOTAL_FRAMES && r.value !in used
    ensures r.Some? ==> forall g: nat :: from <= g < r.value ==> g in used
    ensures r.None? ==> forall g: nat :: from <= g < TOTAL_FRAMES ==> g in used
    decreases TOTAL_FRAMES - from
  {
    if from == TOTAL_FRAMES then None
    else if from !in used then Some(from)
    else LowestFreeFrom(used, from + 1)
  }

  function LowestFree(used: set<nat>): (r: Option<nat>)
    ensures r.Some? ==> r.value < TOTAL_FRAMES && r.value !in used
    ensures r.Some? ==> forall g: nat :: g < r.value ==> g in used
    ensures r.None? ==> forall g: nat :: g < TOTAL_FRAMES ==> g in used
  {
    LowestFreeFrom(used, 0)
  }

  /** The two clauses of LowestFree leave one answer. */
  lemma LowestFreeIs(used: set<nat>, f: nat)
    requires f < TOTAL_FRAMES && f !in used && forall g: nat :: g < f ==> g in used
    ensures LowestFree(used) == Some(f)
  {
  }

  lemma NoneFree(used: set<nat>)
    requires forall g: nat :: g < TOTAL_FRAMES ==> g in used
    ensures LowestFree(used) == None
  {
  }

  /** There are 16384 frames: 64 MB. */
  lemma FullExactly(used: set<nat>)
    ensures LowestFree(used).None? <==> forall g: nat :: g < 16384 ==> g in used
  {
  }

  lemma {:induction false} IntervalSize(n: nat, used: set<nat>)
    requires forall g: nat :: g < n ==> g in used
    ensures n <= |used|
  {
    if n > 0 {
      var rest := used - {n - 1};
      assert forall g: nat :: g < n - 1 ==> g in rest;
      IntervalSize(n - 1, rest);
      assert used == rest + {n - 1};
    }
  }

  /** Handing out the lowest frame first keeps allocations low: while fewer than `n` frames are in
      use, the next frame lies below `n`. */
  lemma LowestFreePigeonhole(used: set<nat>, n: nat)
    requires |used| < n <= TOTAL_FRAMES
    ensures LowestFree(used).Some? && LowestFree(used).value < n
  {
    var r := LowestFree(used);
    if r.None? || n <= r.value {
      IntervalSize(n, used);
    }
  }

  /** A freed frame comes back at once if it is lower than every free frame, and otherwise waits. */
  lemma FreedComesBack(used: set<nat>, f: nat)
    requires f in used && f < TOTAL_FRAMES
    ensures var r := LowestFree(used);
            LowestFree(used - {f}) == Some(if r.Some? && r.value < f then r.value else f)
  {
    var r := LowestFree(used);
    LowestFreeIs(used - {f}, if r.Some? && r.value < f then r.value else f);
  }

  function Below(used: set<nat>, n: nat): set<nat>
  {
    set f | f in used && f < n
  }

  lemma BelowStep(used: set<nat>, n: nat)
    ensures |Below(used, n + 1)| == |Below(used, n)| + if n in used then 1 else 0
  {
    assert Below(used, n + 1) == Below(used, n) + if n in used then {n} else {};
  }

  // ----- One word of the bitmap -----

  /** C's `word | (1 << off)`. */
  function WithBit(word: uint32, off: nat): (r: uint32)
    requires off < 32
    ensures forall i: nat :: i < 32 ==> BitAt(r, i) == (BitAt(word, i) || i == off)
  {
    WordOnes();
    ShlOneFits(off, 32);
    OrFits(word, Shl(1, off), 32);
    assert forall i: nat :: i < 32 ==> BitAt(Or(word, Shl(1, off)), i) == (BitAt(word, i) || i == off) by {
      forall i: nat | i < 32 {
        SetBit(word, i, off);
      }
    }
    Or(word, Shl(1, off))
  }

  /** C's `word & ~(1 << off)`. */
  function WithoutBit(word: uint32, off: nat): (r: uint32)
    requires off < 32
    ensures forall i: nat :: i < 32 ==> BitAt(r, i) == (BitAt(word, i) && i != off)
  {
    WordOnes();
    ShlOneFits(off, 32);
    AndFits(word, NO_FRAME - Shl(1, off));
    assert forall i: nat :: i < 32 ==> BitAt(And(word, NO_FRAME - Shl(1, off)), i) == (BitAt(word, i) && i != off) by {
      forall i: nat | i < 32 {
        ClearBit(word, i, off, 32);
      }
    }
    And(word, NO_FRAME - Shl(1, off))
  }

  /** Changing the bit of frame `f` adds or removes `f` alone. */
  lemma UsedUpdate(words: seq<uint32>, f: nat, on: bool)
    requires f < 32 * |words|
    ensures var word := if on then WithBit(words[f / 32], f % 32) else WithoutBit(words[f / 32], f % 32);
            Used(words[f / 32 := word]) == if on then Used(words) + {f} else Used(words) - {f}
  {
  }

  // ----- The bitmap -----

  class Bitmap {
    const words: array<uint32>

    ghost predicate Valid()
      reads this
    {
      words.Length == BITMAP_SIZE
    }

    ghost function Frames(): (used: set<nat>)
      requires Valid()
      reads this, words
      ensures forall f :: f in used ==> f < TOTAL_FRAMES
    {
      Used(words[..])
    }

    constructor ()
      ensures Valid() && fresh(words)
    {
      words := new uint32[BITMAP_SIZE];
    }

    /** memset(frame_bitmap, 0, sizeof(frame_bitmap)). */
    method Clear()
      requires Valid()
      modifies words
      ensures Frames() == {}
    {
      var i := 0;
      while i < BITMAP_SIZE
        invariant 0 <= i <= BITMAP_SIZE
        invariant forall k :: 0 <= k < i ==> words[k] == 0
      {
        words[i] := 0;
        i := i + 1;
      }
      forall f: nat | f < TOTAL_FRAMES
        ensures !IsUsed(words[..], f)
      {
        ZeroBits(f % 32);
      }
    }

    method SetFrame(frameAddr: uint32)
      requires Valid()
      modifies words
      ensures Frames() == old(Frames()) + (if frameAddr / PAGE_SIZE < TOTAL_FRAMES then {frameAddr / PAGE_SIZE} else {})
    {
      var frame := frameAddr / PAGE_SIZE;
      var idx, off := frame / 32, frame % 32;
      if idx >= BITMAP_SIZE {
        return;
      }
      UsedUpdate(words[..], frame, true);
      ghost var before := words[..];
      words[idx] := WithBit(words[idx], off);
      assert words[..] == before[idx := words[idx]];
    }

    method ClearFrame(frameAddr: uint32)
      requires Valid()
      modifies words
      ensures Frames() == old(Frames()) - {frameAddr / PAGE_SIZE}
    {
      var frame := frameAddr / PAGE_SIZE;
      var idx, off := frame / 32, frame % 32;
      if idx >= BITMAP_SIZE {
        assert frame !in Frames();
        return;
      }
      UsedUpdate(words[..], frame, false);
      ghost var before := words[..];
      words[idx] := WithoutBit(words[idx], off);
      assert words[..] == before[idx := words[idx]];
    }

    method TestFrame(frameAddr: uint32) returns (bit: uint32)
      requires Valid()
      ensures bit != 0 <==> frameAddr / PAGE_SIZE in Frames()
    {
      var frame := frameAddr / PAGE_SIZE;
      var idx, off := frame / 32, frame % 32;
      if idx >= BITMAP_SIZE {
        return 0;
      }
      assert frame in Frames() <==> IsUsed(words[..], frame);
      AndFits(words[idx], Shl(1, off));
      TestBit(words[idx], off);
      bit := And(words[idx], Shl(1, off));
    }

    /** The nested search of first_free_frame, which skips full words, finds what a linear scan finds. */
    method FirstFreeFrame() returns (frame: uint32)
      requires Valid()
      ensures frame == (match LowestFree(Frames()) case Some(f) => f case None => NO_FRAME)
    {
      var i := 0;
      while i < BITMAP_SIZE
        invariant 0 <= i <= BITMAP_SIZE
        invariant forall g: nat :: g < 32 * i ==> g in Frames()
      {
        if words[i] != 0xFFFF_FFFF {
          var j := 0;
          while j < 32
            invariant 0 <= j <= 32
            invariant forall g: nat :: g < 32 * i + j ==> g in Frames()
          {
            assert IsUsed(words[..], 32 * i + j) == BitAt(words[i], j);
            TestBit(words[i], j);
            if And(words[i], Shl(1, j)) == 0 {
              LowestFreeIs(Frames(), 32 * i + j);
              return i * 32 + j;
            }
            j := j + 1;
          }
        } else {
          WordOnes();
          AllBits(words[i], 32);
          forall g: nat | 32 * i <= g < 32 * (i + 1)
            ensures g in Frames()
          {
            assert g / 32 == i && g % 32 == g - 32 * i;
            assert BitAt(words[i], g - 32 * i);
          }
        }
        i := i + 1;
      }
      NoneFree(Frames());
      return NO_FRAME;
    }

    /** Marks the lowest free frame used and returns its address, or 0 when there is none. */
    method AllocFrame() returns (frameAddr: uint32)
      requires Valid()
      modifies words
      ensures match LowestFree(old(Frames()))
              case Some(f) => frameAddr == f * PAGE_SIZE && Frames() == old(Frames()) + {f}
              case None => frameAddr == 0 && Frames() == old(Frames())
    {
      var frame := FirstFreeFrame();
      if frame == NO_FRAME {
        return 0;
      }
      frameAddr := frame * PAGE_SIZE;
      SetFrame(frameAddr);
    }

    method FreeFrame(frameAddr: uint32)
      requires Valid()
      modifies words
      ensures Frames() == old(Frames()) - {frameAddr / PAGE_SIZE}
    {
      ClearFrame(frameAddr);
    }

    /** The counting loop of print_paging_info. */
    method CountUsed() returns (usedFrames: nat)
      requires Valid()
      ensures usedFrames == |Frames()|
      ensures usedFrames <= TOTAL_FRAMES
    {
      usedFrames := 0;
      assert Below(Frames(), 0) == {};
      for i := 0 to BITMAP_SIZE
        invariant usedFrames == |Below(Frames(), 32 * i)| <= 32 * i
      {
        for j := 0 to 32
          invariant usedFrames == |Below(Frames(), 32 * i + j)| <= 32 * i + j
        {
          BelowStep(Frames(), 32 * i + j);
          assert IsUsed(words[..], 32 * i + j) == BitAt(words[i], j);
          TestBit(words[i], j);
          if And(words[i], Shl(1, j)) != 0 {
            usedFrames := usedFrames + 1;
          }
        }
      }
      assert Below(Frames(), TOTAL_FRAMES) == Frames();
    }
  }
}
