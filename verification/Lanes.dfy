/** The vector instructions the SIMD forms use, on little-endian x86. */
module Lanes {
  import opened Memory
  import opened OnesComplement
  import opened Accumulator

  /** A 128-bit register seen as eight 16-bit lanes, lowest first. */
  datatype M16 = M16(w0: uint16, w1: uint16, w2: uint16, w3: uint16, w4: uint16, w5: uint16, w6: uint16, w7: uint16)

  /** A 128-bit register seen as four 32-bit lanes, lowest first. */
  datatype M32 = M32(d0: uint32, d1: uint32, d2: uint32, d3: uint32)

  const ZERO16 := M16(0, 0, 0, 0, 0, 0, 0, 0)

  /** _mm_load_si128 and _mm_lddqu_si128: the sixteen bytes at s[i..i+16]. */
  function Load128(s: seq<byte>, i: nat): M16
    requires i + 16 <= |s|
  {
    M16(Word16(false, s, i), Word16(false, s, i + 2), Word16(false, s, i + 4), Word16(false, s, i + 6),
        Word16(false, s, i + 8), Word16(false, s, i + 10), Word16(false, s, i + 12), Word16(false, s, i + 14))
  }

  /** The same bits read as 32-bit lanes. */
  function AsEpi32(m: M16): M32
  {
    M32(m.w0 + 0x1_0000 * m.w1 as int, m.w2 + 0x1_0000 * m.w3 as int,
        m.w4 + 0x1_0000 * m.w5 as int, m.w6 + 0x1_0000 * m.w7 as int)
  }

  /** _mm_unpacklo_epi16: interleave the low four words of a and b. */
  function UnpackLo(a: M16, b: M16): M16
  {
    M16(a.w0, b.w0, a.w1, b.w1, a.w2, b.w2, a.w3, b.w3)
  }

  /** _mm_unpackhi_epi16: interleave the high four words of a and b. */
  function UnpackHi(a: M16, b: M16): M16
  {
    M16(a.w4, b.w4, a.w5, b.w5, a.w6, b.w6, a.w7, b.w7)
  }

  /** _mm_cvtepu16_epi32: zero-extend the low four words. */
  function ZeroExtendLo(a: M16): M32
  {
    M32(a.w0, a.w1, a.w2, a.w3)
  }

  function Add32(x: uint32, y: uint32): uint32
  {
    var sum: int := x + y as int;
    if sum < 0x1_0000_0000 then sum else sum - 0x1_0000_0000
  }

  /** _mm_add_epi32: lane-wise addition that wraps. */
  function AddEpi32(x: M32, y: M32): M32
  {
    M32(Add32(x.d0, y.d0), Add32(x.d1, y.d1), Add32(x.d2, y.d2), Add32(x.d3, y.d3))
  }

  /** _mm_srli_si128(x, 8) and _mm_srli_si128(x, 4): whole-register right shifts by bytes. */
  function ShiftRight8(x: M32): M32
  {
    M32(x.d2, x.d3, 0, 0)
  }

  function ShiftRight4(x: M32): M32
  {
    M32(x.d1, x.d2, x.d3, 0)
  }

  /** _mm_cvtsi128_si32 and _mm_extract_epi32: a lane read as a signed 32-bit integer. */
  function Signed(x: uint32): int
  {
    if x < 0x8000_0000 then x else x - 0x1_0000_0000
  }

  /** Adds an int, sign-extended to the 64-bit accumulator. */
  function AddSigned(acc: uint64, x: int): uint64
    requires -0x8000_0000 <= x < 0x8000_0000
  {
    var sum := acc + x;
    if sum < 0 then sum + 0x1_0000_0000_0000_0000
    else if sum < 0x1_0000_0000_0000_0000 then sum
    else sum - 0x1_0000_0000_0000_0000
  }

  function Words(m: M16): nat
  {
    m.w0 + m.w1 as int + m.w2 as int + m.w3 as int + m.w4 as int + m.w5 as int + m.w6 as int + m.w7 as int
  }

  function Total(x: M32): nat
  {
    x.d0 + x.d1 as int + x.d2 as int + x.d3 as int
  }

  /** The two halves of a blob, widened with zeros, added to the running lanes: no lane wraps
      while the grand total stays below 2^32. */
  lemma AddBlob(sum: M32, m: M16)
    requires Total(sum) + Words(m) < 0x1_0000_0000
    ensures Total(AddEpi32(AddEpi32(sum, AsEpi32(UnpackLo(m, ZERO16))), AsEpi32(UnpackHi(m, ZERO16))))
         == Total(sum) + Words(m)
    ensures AsEpi32(UnpackLo(m, ZERO16)) == ZeroExtendLo(m)
  {
    assert AsEpi32(UnpackLo(m, ZERO16)) == ZeroExtendLo(m);
    assert AsEpi32(UnpackHi(m, ZERO16)) == M32(m.w4, m.w5, m.w6, m.w7);
  }

  /** Shift-and-add leaves the sum of the four lanes in lane 0, and that lane is positive when
      read as a signed integer. */
  lemma HorizontalSum(sum: M32)
    requires Total(sum) < 0x8000_0000
    ensures var once := AddEpi32(sum, ShiftRight8(sum));
            Signed(AddEpi32(once, ShiftRight4(once)).d0) == Total(sum)
  {
  }

  /** A blob counts for the sixteen bytes it was loaded from. */
  lemma PeelBlob(s: seq<byte>, i: nat)
    requires i + 16 <= |s|
    ensures Rest(s, i, false) == Words(Load128(s, i)) + Rest(s, i + 16, false)
  {
    Peel16(s, i, false);
    Peel16(s, i + 2, false);
    Peel16(s, i + 4, false);
    Peel16(s, i + 6, false);
    Peel16(s, i + 8, false);
    Peel16(s, i + 10, false);
    Peel16(s, i + 12, false);
    Peel16(s, i + 14, false);
  }

  /** _mm_store_si128 without its alignment requirement: the bytes of the eight words. */
  function Bytes128(m: M16): seq<byte>
  {
    Bytes16(false, m.w0) + Bytes16(false, m.w1) + Bytes16(false, m.w2) + Bytes16(false, m.w3)
    + Bytes16(false, m.w4) + Bytes16(false, m.w5) + Bytes16(false, m.w6) + Bytes16(false, m.w7)
  }

  lemma StoreOfLoad128(s: seq<byte>, i: nat)
    requires i + 16 <= |s|
    ensures Bytes128(Load128(s, i)) == s[i..i + 16]
  {
    StoreOfLoad16(false, s, i);
    StoreOfLoad16(false, s, i + 2);
    StoreOfLoad16(false, s, i + 4);
    StoreOfLoad16(false, s, i + 6);
    StoreOfLoad16(false, s, i + 8);
    StoreOfLoad16(false, s, i + 10);
    StoreOfLoad16(false, s, i + 12);
    StoreOfLoad16(false, s, i + 14);
  }

  method StoreNext(dst: array<byte>, i: nat, b: seq<byte>, k: nat, ghost was: seq<byte>)
    requires k < |b| && i + |b| <= |was| && dst[..] == Overwrite(was, i, b[..k])
    modifies dst
    ensures dst[..] == Overwrite(was, i, b[..k + 1])
  {
    Store8(dst, i + k, b[k]);
    assert [b[k]] == b[k..k + 1];
    OverwriteNext(was, i, b, k, k + 1);
  }

  method StoreBytes(dst: array<byte>, i: nat, b: seq<byte>)
    requires i + |b| <= dst.Length
    modifies dst
    ensures dst[..] == Overwrite(old(dst[..]), i, b)
  {
    ghost var was := dst[..];
    assert dst[..] == Overwrite(was, i, b[..0]);
    for k := 0 to |b|
      invariant dst[..] == Overwrite(was, i, b[..k])
    {
      StoreNext(dst, i, b, k, was);
    }
    assert b[..|b|] == b;
  }

  method Store128(dst: array<byte>, i: nat, m: M16)
    requires i + 16 <= dst.Length
    modifies dst
    ensures dst[..] == Overwrite(old(dst[..]), i, Bytes128(m))
  {
    StoreBytes(dst, i, Bytes128(m));
  }
}
