/** The SSE2 and AVX2 checksum-and-copy forms. Their vector stores need an aligned destination,
    which only the source address is drained for. */
module VectorCopy {
  import opened Memory
  import opened OnesComplement
  import opened Accumulator
  import opened CopyChecksum
  import opened Lanes
  import opened VectorChecksum

  function Stride(wide: bool): nat
  {
    if wide then 0x20 else 0x10
  }

  /** Two addresses at the same distance from a vector boundary. */
  predicate Alike(wide: bool, addr: nat, dstAddr: nat)
  {
    if wide then (dstAddr - addr) % 0x20 == 0 else (dstAddr - addr) % 0x10 == 0
  }

  /** How much of a source the drain takes, the odd byte in front of it included. */
  function Boundary(wide: bool, addr: nat): nat
  {
    addr % 2 + Lead(wide, addr + addr % 2)
  }

  /** When a vector store faults: there is at least one whole stride behind the drained bytes, and
      source and destination are not on the same alignment. A caller can check this. */
  predicate StoreFaults(wide: bool, n: nat, addr: nat, dstAddr: nat)
  {
    n >= Boundary(wide, addr) + Stride(wide) && !Alike(wide, addr, dstAddr)
  }

  /** In addresses: the drain ends at the first multiple of 16 above the source's even address. */
  lemma {:induction false} Faults128(n: nat, addr: nat, dstAddr: nat)
    ensures StoreFaults(false, n, addr, dstAddr)
       <==> addr + n >= 0x10 * ((addr + addr % 2) / 0x10 + 1) + 0x10 && (dstAddr - addr) % 0x10 != 0
  {
    EvenUp(addr);
    LeadAligns(false, addr + addr % 2);
  }

  /** Or of 32. */
  lemma {:induction false} Faults256(n: nat, addr: nat, dstAddr: nat)
    ensures StoreFaults(true, n, addr, dstAddr)
       <==> addr + n >= 0x20 * ((addr + addr % 2) / 0x20 + 1) + 0x20 && (dstAddr - addr) % 0x20 != 0
  {
    EvenUp(addr);
    LeadAligns(true, addr + addr % 2);
  }

  lemma {:induction false} FaultOf(wide: bool, n: nat, addr: nat, dstAddr: nat, pos: nat)
    requires Drained(n, Boundary(wide, addr), pos)
    ensures StoreFaults(wide, n, addr, dstAddr) <==> pos + Stride(wide) <= n && !Aligned(wide, dstAddr + pos)
    ensures pos + 2 <= n ==> Aligned(wide, addr + pos)
  {
    BoundaryAligned(wide, addr);
    FaultAt(wide, n, addr, dstAddr, Boundary(wide, addr), pos);
  }

  lemma {:induction false} FaultAt(wide: bool, n: nat, addr: nat, dstAddr: nat, boundary: nat, pos: nat)
    requires Drained(n, boundary, pos) && Aligned(wide, addr + boundary)
    ensures n >= boundary + Stride(wide) && !Alike(wide, addr, dstAddr)
       <==> pos + Stride(wide) <= n && !Aligned(wide, dstAddr + pos)
    ensures pos + 2 <= n ==> Aligned(wide, addr + pos)
  {
    if pos == boundary {
      AlikeThere(wide, addr, dstAddr, pos);
    }
  }

  lemma {:induction false} BoundaryAligned(wide: bool, addr: nat)
    ensures Aligned(wide, addr + Boundary(wide, addr))
  {
    EvenUp(addr);
    LeadAligns(wide, addr + addr % 2);
    assert addr + Boundary(wide, addr) == addr + addr % 2 + Lead(wide, addr + addr % 2);
  }

  /** On the source's boundary the destination is aligned exactly if the two are alike. */
  lemma {:induction false} AlikeThere(wide: bool, addr: nat, dstAddr: nat, pos: nat)
    requires Aligned(wide, addr + pos)
    ensures Aligned(wide, dstAddr + pos) <==> Alike(wide, addr, dstAddr)
  {
    if wide {
      Alike256(addr + pos, dstAddr + pos, dstAddr - addr);
    } else {
      Alike128(addr + pos, dstAddr + pos, dstAddr - addr);
    }
  }

  lemma Alike128(a: nat, b: nat, distance: int)
    requires a % 0x10 == 0 && distance == b - a
    ensures b % 0x10 == 0 <==> distance % 0x10 == 0
  {
    ShiftBy16(b, a / 0x10);
  }

  lemma Alike256(a: nat, b: nat, distance: int)
    requires a % 0x20 == 0 && distance == b - a
    ensures b % 0x20 == 0 <==> distance % 0x20 == 0
  {
    ShiftBy32(b, a / 0x20);
  }

  lemma ShiftBy16(b: int, q: int)
    ensures (b - 0x10 * q) % 0x10 == b % 0x10
  {
  }

  lemma ShiftBy32(b: int, q: int)
    ensures (b - 0x20 * q) % 0x20 == b % 0x20
  {
  }

  /** The drain loop, copying. */
  method CopyDrain(src: seq<byte>, start: nat, count: nat, csum: uint32,
                   dst: array<byte>, to: nat, ghost was: seq<byte>)
    returns (pos: nat, acc: uint64)
    requires start <= |src| < 0x1_0000 && Copied(dst[..], was, to, src, start)
    modifies dst
    ensures Exact(src, start, pos, csum, acc) && Copied(dst[..], was, to, src, pos)
    ensures Drained(|src|, start + 2 * count, pos)
  {
    pos, acc := start, csum;
    var len, count2 := |src| - start, count;
    while len > 1 && count2 > 0
      invariant pos + len == |src| && 0 <= count2 && 0 <= len
      invariant pos + 2 * count2 == start + 2 * count
      invariant Exact(src, start, pos, csum, acc) && Copied(dst[..], was, to, src, pos)
    {
      Move16(false, src, pos, dst, to, was);
      acc := Word(src, pos, acc, start, csum);
      count2, pos, len := count2 - 1, pos + 2, len - 2;
    }
  }

  /** The words behind the last stride, copying. */
  method CopyTail(src: seq<byte>, from: nat, sum: uint64, ghost start: nat, ghost csum: uint32,
                  dst: array<byte>, to: nat, ghost was: seq<byte>)
    returns (pos: nat, acc: uint64)
    requires Exact(src, start, from, csum, sum) && Copied(dst[..], was, to, src, from)
    modifies dst
    ensures Exact(src, start, pos, csum, acc) && Copied(dst[..], was, to, src, pos) && |src| <= pos + 1
  {
    pos, acc := from, sum;
    var count2 := (|src| - from) / 2;
    while count2 > 0
      invariant 0 <= count2 && pos + 2 * count2 <= |src| <= pos + 2 * count2 + 1
      invariant Exact(src, start, pos, csum, acc) && Copied(dst[..], was, to, src, pos)
    {
      Move16(false, src, pos, dst, to, was);
      acc := Word(src, pos, acc, start, csum);
      count2, pos := count2 - 1, pos + 2;
    }
  }

  /** Stores the sixteen bytes a stride summed. */
  method Move128(src: seq<byte>, pos: nat, dst: array<byte>, to: nat, ghost was: seq<byte>)
    requires pos + 16 <= |src| && Copied(dst[..], was, to, src, pos)
    modifies dst
    ensures Copied(dst[..], was, to, src, pos + 16)
  {
    ghost var before := dst[..];
    Store128(dst, to + pos, Load128(src, pos));
    StoreOfLoad128(src, pos);
    CopiedMore(was, to, src, pos, pos + 16, before, dst[..]);
  }

  /** One 16-byte stride: the vector store faults unless its address is a multiple of 16. */
  method CopyStride128(src: seq<byte>, addr: nat, pos: nat, sum: M32, dst: array<byte>, to: nat, dstAddr: nat,
                       ghost from: nat, ghost was: seq<byte>)
    returns (ok: bool, sum': M32)
    requires Laned(src, from, pos, Total(sum)) && pos + 16 <= |src| && (addr + pos) % 0x10 == 0
    requires Copied(dst[..], was, to, src, pos)
    modifies dst
    ensures ok <==> (dstAddr + pos) % 0x10 == 0
    ensures ok ==> Laned(src, from, pos + 16, Total(sum')) && Copied(dst[..], was, to, src, pos + 16)
    ensures !ok ==> sum' == sum && Copied(dst[..], was, to, src, pos)
    ensures Aligned(false, addr + (pos + 16)) && (ok ==> Aligned(false, dstAddr + (pos + 16)))
  {
    ok, sum' := Aligned(false, dstAddr + pos), sum;
    if ok {
      sum' := StrideSse2(src, addr, pos, sum, from);
      Move128(src, pos, dst, to, was);
    }
  }

  /** The 16-byte strides; `ok` is false when a store faulted. */
  method CopyStrides128(src: seq<byte>, addr: nat, from: nat, dst: array<byte>, to: nat, dstAddr: nat,
                       ghost was: seq<byte>)
    returns (ok: bool, pos: nat, sum: M32)
    requires from <= |src| < 0x1_0000 && Copied(dst[..], was, to, src, from)
    requires |src| >= from + 16 ==> Aligned(false, addr + from)
    modifies dst
    ensures ok <==> |src| < from + 16 || Aligned(false, dstAddr + from)
    ensures Laned(src, from, pos, Total(sum)) && Copied(dst[..], was, to, src, pos)
  {
    ok, pos, sum := true, from, M32(0, 0, 0, 0);
    var count16 := (|src| - from) / 16;
    while count16 > 0 && ok
      invariant 0 <= count16 && pos + 16 * count16 <= |src| < pos + 16 * count16 + 16
      invariant Laned(src, from, pos, Total(sum)) && Copied(dst[..], was, to, src, pos)
      invariant count16 > 0 ==> Aligned(false, addr + pos)
      invariant pos > from ==> ok && Aligned(false, dstAddr + from) && Aligned(false, dstAddr + pos)
      invariant !ok ==> pos == from && count16 > 0 && !Aligned(false, dstAddr + from)
      decreases count16, ok
    {
      ok, sum := CopyStride128(src, addr, pos, sum, dst, to, dstAddr, from, was);
      if ok {
        pos, count16 := pos + 16, count16 - 1;
      }
    }
  }

  /** Everything up to the last stride, copying; `ok` is false when a store faulted. */
  method CopyBulk128(src: seq<byte>, addr: nat, start: nat, csum: uint32, dst: array<byte>, to: nat, dstAddr: nat,
                     ghost was: seq<byte>)
    returns (ok: bool, pos: nat, acc: uint64)
    requires start == addr % 2 && src != [] && |src| < 0x1_0000 && Copied(dst[..], was, to, src, start)
    modifies dst
    ensures ok <==> !StoreFaults(false, |src|, addr, dstAddr)
    ensures Exact(src, start, pos, csum, acc) && Copied(dst[..], was, to, src, pos)
  {
    LeadAligns(false, addr + start);
    var from, drained := CopyDrain(src, start, Lead(false, addr + start) / 2, csum, dst, to, was);
    FaultOf(false, |src|, addr, dstAddr, from);
    var done, end, sum := CopyStrides128(src, addr, from, dst, to, dstAddr, was);
    acc := AddLanes(src, from, end, sum, drained, start, csum);
    ok, pos := done, end;
  }

  /** do_csumcpy_sse2. None is an alignment fault in mid-copy. */
  method CsumCopySse2(src: seq<byte>, addr: nat, dst: array<byte>, to: nat, dstAddr: nat, csum: uint32)
    returns (r: Option<uint16>)
    requires |src| < 0x1_0000 && to + |src| <= dst.Length
    modifies dst
    ensures r.None? <==> StoreFaults(false, |src|, addr, dstAddr)
    ensures r.None?
       <==> addr + |src| >= 0x10 * ((addr + addr % 2) / 0x10 + 1) + 0x10 && (dstAddr - addr) % 0x10 != 0
    ensures r.Some? ==> dst[..] == Overwrite(old(dst[..]), to, src)
    ensures r.None? ==> exists n :: Copied(dst[..], old(dst[..]), to, src, n)
    ensures r.Some? && src != [] ==> r.value == Seeded(false, src, addr % 2 == 1, csum)
    ensures r.Some? && src == [] ==> r.value == csum % 0x1_0000
    ensures r.Some? && csum == 0 ==> r.value == Checksum(false, src)
  {
    Faults128(|src|, addr, dstAddr);
    if src == [] {
      assert dst[..] == Overwrite(dst[..], to, src);
      return Some(csum % 0x1_0000);
    }
    ghost var was := dst[..];
    var start := addr % 2;
    var first := MoveFirst(src, start, dst, to);
    var ok, pos, acc := CopyBulk128(src, addr, start, csum, dst, to, dstAddr, was);
    if !ok {
      return None;
    }
    pos, acc := CopyTail(src, pos, acc, start, csum, dst, to, was);
    var last := MoveLast(src, pos, dst, to, was);
    var value := Close(src, start, first, pos, acc, csum);
    r := Some(value);
  }

  /** One 32-byte stride: both accesses fault unless their addresses are multiples of 32. */
  method CopyStride256(src: seq<byte>, addr: nat, pos: nat, lo: M32, hi: M32, dst: array<byte>, to: nat, dstAddr: nat,
                       ghost from: nat, ghost was: seq<byte>)
    returns (ok: bool, lo': M32, hi': M32)
    requires Laned(src, from, pos, Total(lo) + Total(hi)) && pos + 32 <= |src| && (addr + pos) % 0x20 == 0
    requires Copied(dst[..], was, to, src, pos)
    modifies dst
    ensures ok <==> (dstAddr + pos) % 0x20 == 0
    ensures ok ==> Laned(src, from, pos + 32, Total(lo') + Total(hi')) && Copied(dst[..], was, to, src, pos + 32)
    ensures !ok ==> lo' == lo && hi' == hi && Copied(dst[..], was, to, src, pos)
    ensures Aligned(true, addr + (pos + 32)) && (ok ==> Aligned(true, dstAddr + (pos + 32)))
  {
    ok, lo', hi' := Aligned(true, dstAddr + pos), lo, hi;
    if ok {
      lo', hi' := StrideAvx2(src, pos, lo, hi, from);
      Move128(src, pos, dst, to, was);
      Move128(src, pos + 16, dst, to, was);
    }
  }

  /** The 32-byte strides; `ok` is false when a store faulted. */
  method CopyStrides256(src: seq<byte>, addr: nat, from: nat, dst: array<byte>, to: nat, dstAddr: nat,
                       ghost was: seq<byte>)
    returns (ok: bool, pos: nat, lo: M32, hi: M32)
    requires from <= |src| < 0x1_0000 && Copied(dst[..], was, to, src, from)
    requires |src| >= from + 32 ==> Aligned(true, addr + from)
    modifies dst
    ensures ok <==> |src| < from + 32 || Aligned(true, dstAddr + from)
    ensures Laned(src, from, pos, Total(lo) + Total(hi)) && Copied(dst[..], was, to, src, pos)
  {
    ok, pos, lo, hi := true, from, M32(0, 0, 0, 0), M32(0, 0, 0, 0);
    var count32 := (|src| - from) / 32;
    while count32 > 0 && ok
      invariant 0 <= count32 && pos + 32 * count32 <= |src| < pos + 32 * count32 + 32
      invariant Laned(src, from, pos, Total(lo) + Total(hi)) && Copied(dst[..], was, to, src, pos)
      invariant count32 > 0 ==> Aligned(true, addr + pos)
      invariant pos > from ==> ok && Aligned(true, dstAddr + from) && Aligned(true, dstAddr + pos)
      invariant !ok ==> pos == from && count32 > 0 && !Aligned(true, dstAddr + from)
      decreases count32, ok
    {
      ok, lo, hi := CopyStride256(src, addr, pos, lo, hi, dst, to, dstAddr, from, was);
      if ok {
        pos, count32 := pos + 32, count32 - 1;
      }
    }
  }

  /** Everything up to the last stride, copying; `ok` is false when a store faulted. */
  method CopyBulk256(src: seq<byte>, addr: nat, start: nat, csum: uint32, dst: array<byte>, to: nat, dstAddr: nat,
                     ghost was: seq<byte>)
    returns (ok: bool, pos: nat, acc: uint64)
    requires start == addr % 2 && src != [] && |src| < 0x1_0000 && Copied(dst[..], was, to, src, start)
    modifies dst
    ensures ok <==> !StoreFaults(true, |src|, addr, dstAddr)
    ensures Exact(src, start, pos, csum, acc) && Copied(dst[..], was, to, src, pos)
  {
    LeadAligns(true, addr + start);
    var from, drained := CopyDrain(src, start, Lead(true, addr + start) / 2, csum, dst, to, was);
    FaultOf(true, |src|, addr, dstAddr, from);
    var done, end, lo, hi := CopyStrides256(src, addr, from, dst, to, dstAddr, was);
    acc := AddLanes256(src, from, end, lo, hi, drained, start, csum);
    ok, pos := done, end;
  }

  /** do_csumcpy_avx2. None is an alignment fault in mid-copy. */
  method CsumCopyAvx2(src: seq<byte>, addr: nat, dst: array<byte>, to: nat, dstAddr: nat, csum: uint32)
    returns (r: Option<uint16>)
    requires |src| < 0x1_0000 && to + |src| <= dst.Length
    modifies dst
    ensures r.None? <==> StoreFaults(true, |src|, addr, dstAddr)
    ensures r.None?
       <==> addr + |src| >= 0x20 * ((addr + addr % 2) / 0x20 + 1) + 0x20 && (dstAddr - addr) % 0x20 != 0
    ensures r.Some? ==> dst[..] == Overwrite(old(dst[..]), to, src)
    ensures r.None? ==> exists n :: Copied(dst[..], old(dst[..]), to, src, n)
    ensures r.Some? && src != [] ==> r.value == Seeded(false, src, addr % 2 == 1, csum)
    ensures r.Some? && src == [] ==> r.value == csum % 0x1_0000
    ensures r.Some? && csum == 0 ==> r.value == Checksum(false, src)
  {
    Faults256(|src|, addr, dstAddr);
    if src == [] {
      assert dst[..] == Overwrite(dst[..], to, src);
      return Some(csum % 0x1_0000);
    }
    ghost var was := dst[..];
    var start := addr % 2;
    var first := MoveFirst(src, start, dst, to);
    var ok, pos, acc := CopyBulk256(src, addr, start, csum, dst, to, dstAddr, was);
    if !ok {
      return None;
    }
    pos, acc := CopyTail(src, pos, acc, start, csum, dst, to, was);
    var last := MoveLast(src, pos, dst, to, was);
    var value := Close(src, start, first, pos, acc, csum);
    r := Some(value);
  }
}
