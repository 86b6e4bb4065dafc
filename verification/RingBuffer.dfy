/** The byte ring of ringbuffer.c: positions are 32-bit and run on over the end of the buffer. */
module RingBuffers {
  import Arithmetic
  import opened Bits

  newtype byte = x: int | 0 <= x < 256

  const TWO32: nat := 0x1_0000_0000
  /** What `return -1` gives as an unsigned number. */
  const FAILED: nat := 0xFFFF_FFFF
  /** Both positions after `rb_init`: UINT32_MAX - 2. */
  const START: nat := 0xFFFF_FFFD

  function Sub32(a: nat, b: nat): (r: nat)
    requires a < TWO32 && b < TWO32
    ensures r < TWO32
  {
    if a >= b then a - b else a + TWO32 - b
  }

  // ----- where byte number x of the stream lies -----

  ghost predicate IsSize(size: nat) {
    exists e: nat :: e <= 31 && size == Pow2(e)
  }

  /** A position counted on without end, as the 32-bit field holds it. */
  function Wrapped(x: nat): (pos: nat)
    ensures pos < TWO32
  {
    x % TWO32
  }

  /** The index in a buffer of `size` bytes after x steps around it. */
  function Slot(x: nat, size: nat): (i: nat)
    requires size > 0
    ensures i < size
  {
    x % size
  }

  /** The slot of the k-th byte from x on. */
  function Place(x: nat, k: nat, size: nat): (i: nat)
    requires size > 0
    ensures i < size
  {
    Slot(x + k, size)
  }

  lemma {:induction false} Pow2Sum(a: nat, b: nat)
    ensures Pow2(a + b) == Pow2(a) * Pow2(b)
  {
    if a > 0 {
      Pow2Sum(a - 1, b);
      Arithmetic.MulAssociates(2, Pow2(a - 1), Pow2(b));
    }
  }

  lemma SizeDivides(size: nat) returns (c: nat)
    requires IsSize(size)
    ensures c > 0 && size * c == TWO32 && 0 < size <= TWO32 / 2
  {
    var e: nat :| e <= 31 && size == Pow2(e);
    c := Pow2(32 - e);
    Pow2Sum(e, 32 - e);
    Pow2Of32();
    Pow2Bound(e);
  }

  lemma Pow2Of32()
    ensures Pow2(32) == TWO32 && Pow2(31) == TWO32 / 2
  {
    assert Pow2(8) == 256;
    Pow2Sum(8, 8);
    Pow2Sum(16, 16);
  }

  lemma {:induction false} Pow2Bound(e: nat)
    requires e <= 31
    ensures Pow2(e) <= TWO32 / 2
    decreases 31 - e
  {
    if e == 31 { Pow2Of32(); } else { Pow2Bound(e + 1); }
  }

  /** Masking the wrapped position gives the slot. */
  lemma MaskSlot(x: nat, size: nat)
    requires IsSize(size)
    ensures size > 0 && And(Wrapped(x), size - 1) == Slot(x, size)
  {
    var e: nat :| e <= 31 && size == Pow2(e);
    MaskIsRemainder(Wrapped(x), e);
    var c := SizeDivides(size);
    Arithmetic.RemainderOfProduct(x, size, c);
  }

  lemma SlotStep(x: nat, size: nat, k: nat)
    requires size > 0 && k < size
    ensures Slot(x + k, size) == if Slot(x, size) + k < size then Slot(x, size) + k else Slot(x, size) + k - size
  {
    var q, at := x / size, x % size;
    assert x == size * q + at;
    if at + k < size {
      Arithmetic.DivisionUnique(x + k, size, q, at + k);
    } else {
      Arithmetic.MulDistributes(size, q, 1);
      Arithmetic.DivisionUnique(x + k, size, q + 1, at + k - size);
    }
  }

  /** `size - pos & (size - 1)`: the room up to the end of the buffer, but 0 at its start. */
  lemma RoomToEnd(x: nat, size: nat)
    requires IsSize(size)
    ensures 0 < size <= TWO32 / 2
    ensures And(Sub32(size, Wrapped(x)), size - 1) == if Slot(x, size) == 0 then 0 else size - Slot(x, size)
  {
    var e: nat :| e <= 31 && size == Pow2(e);
    var c := SizeDivides(size);
    var pos, at := Wrapped(x), Slot(x, size);
    Arithmetic.RemainderOfProduct(x, size, c);
    MaskIsRemainder(Sub32(size, pos), e);
    Negated(pos, size, c, at);
  }

  lemma Negated(pos: nat, size: nat, c: nat, at: nat)
    requires 0 < size < TWO32 && pos < TWO32 && size * c == TWO32 && at == pos % size
    ensures Sub32(size, pos) % size == if at == 0 then 0 else size - at
  {
    var p := pos / size;
    assert pos == size * p + at;
    var m := if size >= pos then 1 else c + 1;
    Arithmetic.MulDistributes(size, c, 1);
    Arithmetic.MulDistributes(size, m, p);
    assert Sub32(size, pos) == size * (m - p) - at;
    Arithmetic.MulDistributes(size, m - p, 1);
    if at == 0 {
      Arithmetic.DivisionUnique(Sub32(size, pos), size, m - p, 0);
    } else {
      Arithmetic.DivisionUnique(Sub32(size, pos), size, m - p - 1, size - at);
    }
  }

  lemma Distance(x: nat, n: nat)
    requires n < TWO32
    ensures Sub32(Wrapped(x + n), Wrapped(x)) == n
  {
  }

  lemma SizeBound(size: nat)
    requires IsSize(size)
    ensures 0 < size <= TWO32 / 2
  {
    var c := SizeDivides(size);
  }

  lemma SlotsDiffer(x: nat, y: nat, size: nat)
    requires size > 0 && x < y < x + size
    ensures Slot(x, size) != Slot(y, size)
  {
    SlotStep(x, size, y - x);
  }

  /** Slot of byte k of a block of `n` bytes at x, when `right` of them fit up to the end of the buffer. */
  lemma BlockSlot(x: nat, size: nat, right: nat, n: nat, k: nat)
    requires size > 0 && k < n <= size && right == if Slot(x, size) == 0 then 0 else size - Slot(x, size)
    ensures var i := if n < right then n else right;
            Place(x, k, size) == if k < i then Slot(x, size) + k else k - i
  {
    SlotStep(x, size, k);
  }

  /** Index p holds none of the n bytes from x on. */
  ghost predicate Beside(p: nat, x: nat, n: nat, size: nat)
    requires size > 0
  {
    forall k | 0 <= k < n :: Place(x, k, size) != p
  }

  lemma Covered(x: nat, size: nat, right: nat, n: nat, p: nat)
    requires size > 0 && p < size && n <= size && right == if Slot(x, size) == 0 then 0 else size - Slot(x, size)
    requires var i := if n < right then n else right; Slot(x, size) <= p < Slot(x, size) + i || p < n - i
    ensures !Beside(p, x, n, size)
  {
    var i, at := if n < right then n else right, Slot(x, size);
    var k := if at <= p < at + i then p - at else p + i;
    BlockSlot(x, size, right, n, k);
  }

  lemma WrappedStep(x: nat, n: nat)
    ensures Wrapped(Wrapped(x) + n) == Wrapped(x + n)
  {
  }

  /** Copies `src` to the slots from x on: first up to the end of the buffer, then from its start. */
  method CopyIn(buf: array<byte>, ghost x: nat, at: nat, right: nat, src: seq<byte>)
    requires 0 < buf.Length && |src| <= buf.Length && at == Slot(x, buf.Length)
    requires right == if at == 0 then 0 else buf.Length - at
    modifies buf
    ensures forall k | 0 <= k < |src| :: buf[Place(x, k, buf.Length)] == src[k]
    ensures forall p | 0 <= p < buf.Length && Beside(p, x, |src|, buf.Length) :: buf[p] == old(buf[p])
  {
    var i := if |src| < right then |src| else right;
    forall k | 0 <= k < i { buf[at + k] := src[k]; }
    forall k | 0 <= k < |src| - i { buf[k] := src[i + k]; }
    forall k | 0 <= k < |src|
      ensures Place(x, k, buf.Length) == if k < i then at + k else k - i
    {
      BlockSlot(x, buf.Length, right, |src|, k);
    }
    forall p | 0 <= p < buf.Length && Beside(p, x, |src|, buf.Length)
      ensures buf[p] == old(buf[p])
    {
      if at <= p < at + i || p < |src| - i { Covered(x, buf.Length, right, |src|, p); }
    }
  }

  /** The bytes still in the buffer lie beside the next n ones, if these fit. */
  lemma StillBeside(start: nat, taken: nat, w: nat, x: nat, n: nat, size: nat)
    requires size > 0 && taken <= w && w + n <= taken + size && x == start + w
    ensures forall j | taken <= j < w :: Beside(Place(start, j, size), x, n, size)
  {
    forall j, k | taken <= j < w && 0 <= k < n
      ensures Place(start, j, size) != Place(x, k, size)
    {
      SlotsDiffer(start + j, x + k, size);
    }
  }

  lemma PlaceOn(start: nat, w: nat, k: nat, size: nat)
    requires size > 0
    ensures Place(start, w + k, size) == Place(start + w, k, size)
  {
  }

  ghost predicate Stored(buf: seq<byte>, start: nat, taken: nat, written: seq<byte>, size: nat) {
    |buf| == size > 0 && forall j | taken <= j < |written| :: buf[Place(start, j, size)] == written[j]
  }

  lemma Appended(buf: seq<byte>, start: nat, taken: nat, written: seq<byte>, src: seq<byte>, size: nat)
    requires Stored(buf, start, taken, written, size)
    requires forall k | 0 <= k < |src| :: buf[Place(start + |written|, k, size)] == src[k]
    ensures Stored(buf, start, taken, written + src, size)
  {
    forall j | taken <= j < |written + src|
      ensures buf[Place(start, j, size)] == (written + src)[j]
    {
      if j >= |written| { PlaceOn(start, |written|, j - |written|, size); }
    }
  }

  /** The next n bytes to be read. */
  lemma Following(buf: seq<byte>, start: nat, taken: nat, written: seq<byte>, n: nat, size: nat)
    requires Stored(buf, start, taken, written, size) && taken + n <= |written|
    ensures forall k | 0 <= k < n :: buf[Place(start + taken, k, size)] == written[taken..][..n][k]
  {
    forall k | 0 <= k < n
      ensures buf[Place(start + taken, k, size)] == written[taken..][..n][k]
    {
      PlaceOn(start, taken, k, size);
    }
  }

  /** Copies n bytes from the slots from x on. */
  method CopyOut(buf: array<byte>, ghost x: nat, at: nat, right: nat, n: nat, dst: array<byte>,
                 ghost bytes: seq<byte>)
    requires 0 < buf.Length && n <= buf.Length && n <= dst.Length && buf != dst && at == Slot(x, buf.Length)
    requires right == if at == 0 then 0 else buf.Length - at
    requires |bytes| == n && forall k | 0 <= k < n :: buf[Place(x, k, buf.Length)] == bytes[k]
    modifies dst
    ensures dst[..n] == bytes && dst[n..] == old(dst[n..])
  {
    var i := if n < right then n else right;
    forall k | 0 <= k < i { dst[k] := buf[at + k]; }
    forall k | 0 <= k < n - i { dst[i + k] := buf[k]; }
    forall k | 0 <= k < n
      ensures dst[k] == bytes[k]
    {
      BlockSlot(x, buf.Length, right, n, k);
      if k >= i { assert dst[i + (k - i)] == buf[k - i]; }
    }
  }

  class RingBuffer {
    const buf: array<byte>
    const size: nat
    var readPos: nat
    var writePos: nat
    /** Where byte number 0 went, all bytes written so far, and how many were read. */
    ghost const start: nat
    ghost var written: seq<byte>
    ghost var taken: nat

    ghost predicate Valid()
      reads this, buf
    {
      && IsSize(size) && buf.Length == size && taken <= |written| <= taken + size
      && readPos == Wrapped(start + taken) && writePos == Wrapped(start + |written|)
      && Stored(buf[..], start, taken, written, size)
    }

    /** The bytes in the buffer, in the order they were written. */
    ghost function Contents(): (bytes: seq<byte>)
      requires taken <= |written|
      reads this
    {
      written[taken..]
    }

    constructor (sz: nat)
      requires IsSize(sz)
      ensures Valid() && size == sz && written == [] && taken == 0 && readPos == writePos == START
    {
      buf := new byte[sz];
      size, readPos, writePos := sz, START, START;
      start, written, taken := START, [], 0;
    }

    /** The slot of a position and the room up to the end of the buffer, with C's precedence of - over &. */
    method Offsets(pos: nat, ghost x: nat) returns (at: nat, right: nat)
      requires IsSize(size) && pos == Wrapped(x)
      ensures 0 < size && at == Slot(x, size) && right == if at == 0 then 0 else size - at
    {
      MaskSlot(x, size);
      RoomToEnd(x, size);
      at, right := And(pos, size - 1), And(Sub32(size, pos), size - 1);
    }

    method Length() returns (n: nat)
      requires Valid()
      ensures n == |Contents()| <= size
    {
      SizeBound(size);
      Distance(start + taken, |written| - taken);
      n := Sub32(writePos, readPos);
    }

    method Remain() returns (n: nat)
      requires Valid()
      ensures n == size - |Contents()|
    {
      SizeBound(size);
      var length := Length();
      n := Sub32(size, length);
    }

    method IsEmpty() returns (empty: bool)
      requires Valid()
      ensures empty <==> Contents() == []
    {
      SizeBound(size);
      Distance(start + taken, |written| - taken);
      empty := readPos == writePos;
    }

    method IsFull() returns (full: bool)
      requires Valid()
      ensures full <==> |Contents()| == size
    {
      SizeBound(size);
      Distance(start + taken, |written| - taken);
      full := size == Sub32(writePos, readPos);
    }

    /** Copies the bytes behind those that are there. */
    method Store(src: seq<byte>)
      requires Valid() && |src| <= size - |Contents()|
      modifies buf
      ensures Stored(buf[..], start, taken, written + src, size)
    {
      ghost var x := start + |written|;
      var at, right := Offsets(writePos, x);
      StillBeside(start, taken, |written|, x, |src|, size);
      CopyIn(buf, x, at, right, src);
      Appended(buf[..], start, taken, written, src, size);
    }

    /** Appends all bytes, or none if there is no room for them. */
    method Write(src: seq<byte>) returns (r: nat)
      requires Valid() && |src| < TWO32
      modifies this, buf
      ensures Valid() && taken == old(taken)
      ensures if |src| <= size - |old(Contents())| then r == |src| && written == old(written) + src
              else r == FAILED && written == old(written)
    {
      var room := Remain();
      if |src| > room { return FAILED; }
      Store(src);
      WrappedStep(start + |written|, |src|);
      assert start + |written + src| == start + |written| + |src|;
      writePos := Wrapped(writePos + |src|);
      written := written + src;
      r := |src|;
    }

    /** Takes up to dstSz bytes off, in order; with an empty buffer it fails. */
    method Read(dst: array<byte>, dstSz: nat) returns (r: nat)
      requires Valid() && dstSz <= dst.Length && dst != buf
      modifies this, dst
      ensures Valid() && written == old(written)
      ensures if old(Contents()) == [] then r == FAILED && taken == old(taken) && dst[..] == old(dst[..])
              else r == (if dstSz < |old(Contents())| then dstSz else |old(Contents())|) && taken == old(taken) + r
                   && dst[..r] == old(Contents())[..r] && dst[r..] == old(dst[r..])
    {
      var empty := IsEmpty();
      if empty { return FAILED; }
      var length := Length();
      r := if dstSz < length then dstSz else length;
      ghost var x := start + taken;
      var at, right := Offsets(readPos, x);
      Following(buf[..], start, taken, written, r, size);
      CopyOut(buf, x, at, right, r, dst, written[taken..][..r]);
      WrappedStep(x, r);
      assert start + (taken + r) == x + r;
      readPos := Wrapped(readPos + r);
      taken := taken + r;
    }
  }
}
