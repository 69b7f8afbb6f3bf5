/** libc/string/memmove.c and libc/string/memset.c on one byte memory. */
module ByteMemory {

  type byte = b: int | 0 <= b < 256

  /** Memory after the bytes at [src, src+size) have been copied to [dst, dst+size). */
  function Moved(m: seq<byte>, dst: nat, src: nat, size: nat): (r: seq<byte>)
    requires dst + size <= |m| && src + size <= |m|
    ensures |r| == |m|
  {
    seq(|m|, i requires 0 <= i < |m| => if dst <= i < dst + size then m[src + i - dst] else m[i])
  }

  /** Memory after the bytes at [at, at+size) have been set to `value`. */
  function Filled(m: seq<byte>, at: nat, value: byte, size: nat): (r: seq<byte>)
    requires at + size <= |m|
    ensures |r| == |m|
  {
    seq(|m|, i requires 0 <= i < |m| => if at <= i < at + size then value else m[i])
  }

  /** The next byte of a forward copy has not been overwritten yet. */
  lemma ForwardStep(m: seq<byte>, r: seq<byte>, dst: nat, src: nat, i: nat)
    requires dst < src && src + i < |m| && r == Moved(m, dst, src, i)
    ensures r[dst + i := r[src + i]] == Moved(m, dst, src, i + 1)
  {
  }

  /** The next byte of a backward copy has not been overwritten yet. */
  lemma BackwardStep(m: seq<byte>, r: seq<byte>, dst: nat, src: nat, n: nat)
    requires src <= dst && n > 0 && dst + n <= |m| && r == Moved(m, dst + 1, src + 1, n - 1)
    ensures r[dst := r[src]] == Moved(m, dst, src, n)
  {
  }

  lemma NothingMoved(m: seq<byte>, dst: nat, src: nat)
    requires dst <= |m| && src <= |m|
    ensures Moved(m, dst, src, 0) == m
  {
  }

  /** The destination holds the old source, and everything else is as it was. */
  lemma MovedSlices(m: seq<byte>, dst: nat, src: nat, size: nat)
    requires dst + size <= |m| && src + size <= |m|
    ensures var r := Moved(m, dst, src, size);
            r[dst..dst + size] == m[src..src + size] && r[..dst] == m[..dst] && r[dst + size..] == m[dst + size..]
  {
  }

  /** One assignment of memmove. */
  method CopyByte(mem: array<byte>, to: nat, from: nat)
    requires to < mem.Length && from < mem.Length
    modifies mem
    ensures mem[..] == old(mem[..])[to := old(mem[..])[from]]
  {
    mem[to] := mem[from];
  }

  method CopyForwards(mem: array<byte>, dst: nat, src: nat, size: nat)
    requires dst < src && src + size <= mem.Length
    modifies mem
    ensures mem[..] == Moved(old(mem[..]), dst, src, size)
  {
    ghost var before := mem[..];
    NothingMoved(before, dst, src);
    var i := 0;
    while i < size
      invariant 0 <= i <= size && mem[..] == Moved(before, dst, src, i)
    {
      ForwardStep(before, mem[..], dst, src, i);
      CopyByte(mem, dst + i, src + i);
      i := i + 1;
    }
  }

  method CopyBackwards(mem: array<byte>, dst: nat, src: nat, size: nat)
    requires src <= dst && dst + size <= mem.Length
    modifies mem
    ensures mem[..] == Moved(old(mem[..]), dst, src, size)
  {
    ghost var before := mem[..];
    NothingMoved(before, dst + size, src + size);
    var i := size;
    while i != 0
      invariant 0 <= i <= size && mem[..] == Moved(before, dst + i, src + i, size - i)
    {
      i := i - 1;
      BackwardStep(before, mem[..], dst + i, src + i, size - i);
      CopyByte(mem, dst + i, src + i);
    }
  }

  /** Correct for every overlap: a copy to a lower address runs forwards, any other runs backwards. */
  method MemMove(mem: array<byte>, dst: nat, src: nat, size: nat)
    requires dst + size <= mem.Length && src + size <= mem.Length
    modifies mem
    ensures mem[..] == Moved(old(mem[..]), dst, src, size)
    ensures mem[dst..dst + size] == old(mem[src..src + size])
    ensures mem[..dst] == old(mem[..dst]) && mem[dst + size..] == old(mem[dst + size..])
  {
    ghost var before := mem[..];
    if dst < src {
      CopyForwards(mem, dst, src, size);
    } else {
      CopyBackwards(mem, dst, src, size);
    }
    MovedSlices(before, dst, src, size);
    assert mem[dst..dst + size] == mem[..][dst..dst + size] && old(mem[src..src + size]) == before[src..src + size];
  }

  method MemSet(mem: array<byte>, at: nat, value: int, size: nat)
    requires at + size <= mem.Length
    modifies mem
    ensures mem[..] == Filled(old(mem[..]), at, value % 256, size)
  {
    var i := 0;
    while i < size
      invariant 0 <= i <= size
      invariant forall k :: 0 <= k < mem.Length ==>
                  mem[k] == if at <= k < at + i then value % 256 else old(mem[k])
    {
      mem[at + i] := value % 256;
      i := i + 1;
    }
  }
}
