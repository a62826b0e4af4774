/** The SSE2, SSE3, SSE4.1 and AVX2 forms: sixteen or thirty-two bytes at a time into 32-bit
    lanes, the rest a word at a time. They exist on little-endian hosts only. */
module VectorChecksum {
  import opened Memory
  import opened OnesComplement
  import opened Accumulator
  import opened ScalarChecksum
  import opened Lanes

  // ---- steps the forms share ----

  /** Nothing has been lost from the 64-bit accumulator: it is the initial csum and the exact sum of
      the words of buf[start..pos]. */
  ghost predicate Exact(buf: seq<byte>, start: nat, pos: nat, csum: uint32, acc: nat)
  {
    start <= pos <= |buf| < 0x1_0000 && acc + Rest(buf, pos, false) == csum + Rest(buf, start, false)
  }

  lemma {:induction false} RestBound(buf: seq<byte>, i: nat)
    requires i <= |buf| < 0x1_0000
    ensures Rest(buf, i, false) <= 0x7fff_8000
  {
    RestIsSuffix(buf, i, false);
    WordSumBound(buf[i..], false);
  }

  predicate Aligned(wide: bool, a: nat)
  {
    if wide then a % 0x20 == 0 else a % 0x10 == 0
  }

  /** How far the drain loop has to go from address a: to the next multiple of 16 or 32, a whole
      stride when a is one already. */
  function Lead(wide: bool, a: nat): nat
  {
    if wide then 0x20 - a % 0x20 else 0x10 - a % 0x10
  }

  /** It ends on the first boundary above a. */
  lemma LeadAligns(wide: bool, a: nat)
    requires a % 2 == 0
    ensures Lead(wide, a) == 2 * (Lead(wide, a) / 2) && Lead(wide, a) >= 2 && Aligned(wide, a + Lead(wide, a))
    ensures a + Lead(wide, a) == if wide then 0x20 * (a / 0x20 + 1) else 0x10 * (a / 0x10 + 1)
  {
    if wide {
      Lead256(a);
    } else {
      Lead128(a);
    }
  }

  lemma Lead128(a: nat)
    requires a % 2 == 0
    ensures var lead := 0x10 - a % 0x10; lead == 2 * (lead / 2) && lead >= 2 && (a + lead) % 0x10 == 0
  {
    var h, q := a / 2, a / 0x10;
    assert 0x10 - a % 0x10 == 2 * (8 * q + 8 - h);
    Multiple128(q + 1);
  }

  lemma Multiple128(k: nat)
    ensures (0x10 * k) % 0x10 == 0
  {
  }

  lemma Lead256(a: nat)
    requires a % 2 == 0
    ensures var lead := 0x20 - a % 0x20; lead == 2 * (lead / 2) && lead >= 2 && (a + lead) % 0x20 == 0
  {
    var h, q := a / 2, a / 0x20;
    assert 0x20 - a % 0x20 == 2 * (16 * q + 16 - h);
    Multiple256(q + 1);
  }

  lemma Multiple256(k: nat)
    ensures (0x20 * k) % 0x20 == 0
  {
  }

  /** Adds one 16-bit word. */
  method Word(buf: seq<byte>, pos: nat, acc: uint64, ghost start: nat, ghost csum: uint32) returns (acc': uint64)
    requires pos + 2 <= |buf| && Exact(buf, start, pos, csum, acc)
    ensures Exact(buf, start, pos + 2, csum, acc')
  {
    Peel16(buf, pos, false);
    RestBound(buf, start);
    acc' := acc + Word16(false, buf, pos);
  }

  /** The drain loop: at most count words, to the next vector boundary if there are so many. */
  method Drain(buf: seq<byte>, start: nat, count: nat, csum: uint32) returns (pos: nat, acc: uint64)
    requires start <= |buf| < 0x1_0000
    ensures Exact(buf, start, pos, csum, acc)
    ensures Drained(|buf|, start + 2 * count, pos)
  {
    pos, acc := start, csum;
    var len, count2 := |buf| - start, count;
    while len > 1 && count2 > 0
      invariant pos + len == |buf| && 0 <= count2 && 0 <= len
      invariant pos + 2 * count2 == start + 2 * count
      invariant Exact(buf, start, pos, csum, acc)
    {
      acc := Word(buf, pos, acc, start, csum);
      count2, pos, len := count2 - 1, pos + 2, len - 2;
    }
  }

  /** The drain stops at the boundary, or short of it with less than a word left. */
  ghost predicate Drained(n: nat, boundary: nat, pos: nat)
  {
    pos == boundary || (pos < boundary && n < pos + 2)
  }

  /** The lanes collected over buf[from..pos]. */
  ghost predicate Laned(buf: seq<byte>, from: nat, pos: nat, total: nat)
  {
    from <= pos <= |buf| < 0x1_0000 && total + Rest(buf, pos, false) == Rest(buf, from, false)
  }

  /** All 32-bit components together, added to acc as a signed integer. */
  method AddLanes(buf: seq<byte>, from: nat, pos: nat, sum: M32, acc: uint64, ghost start: nat, ghost csum: uint32)
    returns (acc': uint64)
    requires Exact(buf, start, from, csum, acc) && Laned(buf, from, pos, Total(sum))
    ensures Exact(buf, start, pos, csum, acc')
  {
    RestBound(buf, from);
    HorizontalSum(sum);
    var once := AddEpi32(sum, ShiftRight8(sum));
    var twice := AddEpi32(once, ShiftRight4(once));
    acc' := AddSigned(acc, Signed(twice.d0));
    RestBound(buf, start);
  }

  /** The words behind the last stride. */
  method Tail(buf: seq<byte>, from: nat, sum: uint64, ghost start: nat, ghost csum: uint32)
    returns (pos: nat, acc: uint64)
    requires Exact(buf, start, from, csum, sum)
    ensures Exact(buf, start, pos, csum, acc) && |buf| <= pos + 1
  {
    pos, acc := from, sum;
    var count2 := (|buf| - from) / 2;
    while count2 > 0
      invariant 0 <= count2 && pos + 2 * count2 <= |buf| < pos + 2 * count2 + 2
      invariant Exact(buf, start, pos, csum, acc)
    {
      acc := Word(buf, pos, acc, start, csum);
      count2, pos := count2 - 1, pos + 2;
    }
  }

  /** The odd byte at the end, the remainder, the folds and the exchange. */
  method Close(buf: seq<byte>, start: nat, first: byte, pos: nat, acc: uint64, ghost csum: uint32) returns (r: uint16)
    requires start <= 1 && |buf| > 0 && |buf| <= pos + 1
    requires first == if start == 1 then buf[0] else 0
    requires Exact(buf, start, pos, csum, acc)
    ensures r == Seeded(false, buf, start == 1, csum)
  {
    var last := if pos < |buf| then buf[pos] else 0;
    RestBound(buf, start);
    r := Conclude64(false, buf, start, acc, first, last, pos, csum);
  }

  /** _mm_load_si128 faults unless its address is a multiple of 16. */
  function LoadAligned128(s: seq<byte>, addr: nat, i: nat): M16
    requires i + 16 <= |s| && (addr + i) % 0x10 == 0
  {
    Load128(s, i)
  }

  /** One 16-byte stride adds its words to the lanes and wraps none of them. */
  lemma LanedStep(buf: seq<byte>, from: nat, pos: nat, sum: M32)
    requires Laned(buf, from, pos, Total(sum)) && pos + 16 <= |buf|
    ensures var m := Load128(buf, pos);
            && Laned(buf, from, pos + 16, Total(AddEpi32(AddEpi32(sum, AsEpi32(UnpackLo(m, ZERO16))),
                                                         AsEpi32(UnpackHi(m, ZERO16)))))
            && AsEpi32(UnpackLo(m, ZERO16)) == ZeroExtendLo(m)
  {
    RestBound(buf, from);
    PeelBlob(buf, pos);
    AddBlob(sum, Load128(buf, pos));
  }

  // ---- the forms ----

  /** One stride: load, widen both halves, add. */
  method StrideSse2(buf: seq<byte>, addr: nat, pos: nat, sum: M32, ghost from: nat) returns (sum': M32)
    requires Laned(buf, from, pos, Total(sum)) && pos + 16 <= |buf| && (addr + pos) % 0x10 == 0
    ensures Laned(buf, from, pos + 16, Total(sum'))
  {
    LanedStep(buf, from, pos, sum);
    var tmp := LoadAligned128(buf, addr, pos);
    sum' := AddEpi32(sum, AsEpi32(UnpackLo(tmp, ZERO16)));
    sum' := AddEpi32(sum', AsEpi32(UnpackHi(tmp, ZERO16)));
  }

  /** The 16-byte strides over aligned loads. */
  method StridesSse2(buf: seq<byte>, addr: nat, from: nat) returns (pos: nat, sum: M32)
    requires from <= |buf| < 0x1_0000
    requires |buf| >= from + 16 ==> Aligned(false, addr + from)
    ensures Laned(buf, from, pos, Total(sum))
  {
    pos, sum := from, M32(0, 0, 0, 0);
    var count16 := (|buf| - from) / 16;
    while count16 > 0
      invariant 0 <= count16 && pos + 16 * count16 <= |buf| < pos + 16 * count16 + 16
      invariant Laned(buf, from, pos, Total(sum)) && (count16 > 0 ==> Aligned(false, addr + pos))
    {
      sum := StrideSse2(buf, addr, pos, sum, from);
      pos, count16 := pos + 16, count16 - 1;
    }
  }

  /** Everything up to the last stride. */
  method BulkSse2(buf: seq<byte>, addr: nat, start: nat, csum: uint32) returns (pos: nat, acc: uint64)
    requires start == addr % 2 && buf != [] && |buf| < 0x1_0000
    ensures Exact(buf, start, pos, csum, acc)
  {
    LeadAligns(false, addr + start);
    var from, drained := Drain(buf, start, Lead(false, addr + start) / 2, csum);
    var end, sum := StridesSse2(buf, addr, from);
    acc := AddLanes(buf, from, end, sum, drained, start, csum);
    pos := end;
  }

  /** do_csum_sse2: drained to a 16-byte boundary, aligned loads. */
  method CsumSse2(buf: seq<byte>, addr: nat, csum: uint32) returns (r: uint16)
    requires |buf| < 0x1_0000
    ensures buf == [] ==> r == csum % 0x1_0000
    ensures buf != [] ==> r == Seeded(false, buf, addr % 2 == 1, csum)
    ensures csum == 0 ==> r == Checksum(false, buf)
  {
    if buf == [] {
      return csum % 0x1_0000;
    }
    var start := addr % 2;
    var first := if start == 1 then buf[0] else 0;
    var pos, acc := BulkSse2(buf, addr, start, csum);
    pos, acc := Tail(buf, pos, acc, start, csum);
    r := Close(buf, start, first, pos, acc, csum);
  }

  /** One stride: load, widen both halves, add. */
  method StrideSse3(buf: seq<byte>, pos: nat, sum: M32, ghost from: nat) returns (sum': M32)
    requires Laned(buf, from, pos, Total(sum)) && pos + 16 <= |buf|
    ensures Laned(buf, from, pos + 16, Total(sum'))
  {
    LanedStep(buf, from, pos, sum);
    var tmp := Load128(buf, pos);
    sum' := AddEpi32(sum, AsEpi32(UnpackLo(tmp, ZERO16)));
    sum' := AddEpi32(sum', AsEpi32(UnpackHi(tmp, ZERO16)));
  }

  /** The 16-byte strides over unaligned loads. */
  method StridesSse3(buf: seq<byte>, from: nat) returns (pos: nat, sum: M32)
    requires from <= |buf| < 0x1_0000
    ensures Laned(buf, from, pos, Total(sum))
  {
    pos, sum := from, M32(0, 0, 0, 0);
    var count16 := (|buf| - from) / 16;
    while count16 > 0
      invariant 0 <= count16 && pos + 16 * count16 <= |buf| < pos + 16 * count16 + 16
      invariant Laned(buf, from, pos, Total(sum))
    {
      sum := StrideSse3(buf, pos, sum, from);
      pos, count16 := pos + 16, count16 - 1;
    }
  }

  /** do_csum_sse3: no drain, unaligned loads. */
  method CsumSse3(buf: seq<byte>, addr: nat, csum: uint32) returns (r: uint16)
    requires |buf| < 0x1_0000
    ensures buf == [] ==> r == csum % 0x1_0000
    ensures buf != [] ==> r == Seeded(false, buf, addr % 2 == 1, csum)
    ensures csum == 0 ==> r == Checksum(false, buf)
  {
    if buf == [] {
      return csum % 0x1_0000;
    }
    var start, acc: uint64 := addr % 2, csum;
    var first := if start == 1 then buf[0] else 0;
    var pos, sum := StridesSse3(buf, start);
    acc := AddLanes(buf, start, pos, sum, acc, start, csum);
    pos, acc := Tail(buf, pos, acc, start, csum);
    r := Close(buf, start, first, pos, acc, csum);
  }

  /** One stride: load, widen both halves, add. */
  method StrideSse41(buf: seq<byte>, pos: nat, sum: M32, ghost from: nat) returns (sum': M32)
    requires Laned(buf, from, pos, Total(sum)) && pos + 16 <= |buf|
    ensures Laned(buf, from, pos + 16, Total(sum'))
  {
    LanedStep(buf, from, pos, sum);
    var tmp := Load128(buf, pos);
    sum' := AddEpi32(sum, ZeroExtendLo(tmp));
    sum' := AddEpi32(sum', AsEpi32(UnpackHi(tmp, ZERO16)));
  }

  /** The same, the low half widened by zero extension. */
  method StridesSse41(buf: seq<byte>, from: nat) returns (pos: nat, sum: M32)
    requires from <= |buf| < 0x1_0000
    ensures Laned(buf, from, pos, Total(sum))
  {
    pos, sum := from, M32(0, 0, 0, 0);
    var count16 := (|buf| - from) / 16;
    while count16 > 0
      invariant 0 <= count16 && pos + 16 * count16 <= |buf| < pos + 16 * count16 + 16
      invariant Laned(buf, from, pos, Total(sum))
    {
      sum := StrideSse41(buf, pos, sum, from);
      pos, count16 := pos + 16, count16 - 1;
    }
  }

  /** do_csum_sse41: as SSE3, the low half widened by zero extension. */
  method CsumSse41(buf: seq<byte>, addr: nat, csum: uint32) returns (r: uint16)
    requires |buf| < 0x1_0000
    ensures buf == [] ==> r == csum % 0x1_0000
    ensures buf != [] ==> r == Seeded(false, buf, addr % 2 == 1, csum)
    ensures csum == 0 ==> r == Checksum(false, buf)
  {
    if buf == [] {
      return csum % 0x1_0000;
    }
    var start, acc: uint64 := addr % 2, csum;
    var first := if start == 1 then buf[0] else 0;
    var pos, sum := StridesSse41(buf, start);
    acc := AddLanes(buf, start, pos, sum, acc, start, csum);
    pos, acc := Tail(buf, pos, acc, start, csum);
    r := Close(buf, start, first, pos, acc, csum);
  }

  /** One 32-byte stride: AVX2 unpacks, adds and shifts within each 128-bit half. */
  lemma LanedStep256(buf: seq<byte>, from: nat, pos: nat, lo: M32, hi: M32)
    requires Laned(buf, from, pos, Total(lo) + Total(hi)) && pos + 32 <= |buf|
    ensures var m, n := Load128(buf, pos), Load128(buf, pos + 16);
            Laned(buf, from, pos + 32,
                  Total(AddEpi32(AddEpi32(lo, AsEpi32(UnpackLo(m, ZERO16))), AsEpi32(UnpackHi(m, ZERO16))))
                  + Total(AddEpi32(AddEpi32(hi, AsEpi32(UnpackLo(n, ZERO16))), AsEpi32(UnpackHi(n, ZERO16)))))
  {
    RestBound(buf, from);
    PeelBlob(buf, pos);
    PeelBlob(buf, pos + 16);
    AddBlob(lo, Load128(buf, pos));
    AddBlob(hi, Load128(buf, pos + 16));
  }

  method StrideAvx2(buf: seq<byte>, pos: nat, lo: M32, hi: M32, ghost from: nat) returns (lo': M32, hi': M32)
    requires Laned(buf, from, pos, Total(lo) + Total(hi)) && pos + 32 <= |buf|
    ensures Laned(buf, from, pos + 32, Total(lo') + Total(hi'))
  {
    LanedStep256(buf, from, pos, lo, hi);
    var m, n := Load128(buf, pos), Load128(buf, pos + 16);
    lo', hi' := AddEpi32(lo, AsEpi32(UnpackLo(m, ZERO16))), AddEpi32(hi, AsEpi32(UnpackLo(n, ZERO16)));
    lo', hi' := AddEpi32(lo', AsEpi32(UnpackHi(m, ZERO16))), AddEpi32(hi', AsEpi32(UnpackHi(n, ZERO16)));
  }

  /** The 32-byte strides over unaligned loads. */
  method StridesAvx2(buf: seq<byte>, from: nat) returns (pos: nat, lo: M32, hi: M32)
    requires from <= |buf| < 0x1_0000
    ensures Laned(buf, from, pos, Total(lo) + Total(hi))
  {
    pos, lo, hi := from, M32(0, 0, 0, 0), M32(0, 0, 0, 0);
    var count32 := (|buf| - from) / 32;
    while count32 > 0
      invariant 0 <= count32 && pos + 32 * count32 <= |buf| < pos + 32 * count32 + 32
      invariant Laned(buf, from, pos, Total(lo) + Total(hi))
    {
      lo, hi := StrideAvx2(buf, pos, lo, hi, from);
      pos, count32 := pos + 32, count32 - 1;
    }
  }

  /** Both halves summed, lanes 0 and 4 extracted and added as ints. */
  method AddLanes256(buf: seq<byte>, from: nat, pos: nat, lo: M32, hi: M32, acc: uint64,
                     ghost start: nat, ghost csum: uint32)
    returns (acc': uint64)
    requires Exact(buf, start, from, csum, acc) && Laned(buf, from, pos, Total(lo) + Total(hi))
    ensures Exact(buf, start, pos, csum, acc')
  {
    RestBound(buf, from);
    HorizontalSum(lo);
    HorizontalSum(hi);
    var lo1, hi1 := AddEpi32(lo, ShiftRight8(lo)), AddEpi32(hi, ShiftRight8(hi));
    var lo2, hi2 := AddEpi32(lo1, ShiftRight4(lo1)), AddEpi32(hi1, ShiftRight4(hi1));
    acc' := AddSigned(acc, Signed(lo2.d0) + Signed(hi2.d0));
    RestBound(buf, start);
  }

  /** do_csum_avx2: no drain, unaligned 32-byte loads. */
  method CsumAvx2(buf: seq<byte>, addr: nat, csum: uint32) returns (r: uint16)
    requires |buf| < 0x1_0000
    ensures buf == [] ==> r == csum % 0x1_0000
    ensures buf != [] ==> r == Seeded(false, buf, addr % 2 == 1, csum)
    ensures csum == 0 ==> r == Checksum(false, buf)
  {
    if buf == [] {
      return csum % 0x1_0000;
    }
    var start, acc: uint64 := addr % 2, csum;
    var first := if start == 1 then buf[0] else 0;
    var pos, lo, hi := StridesAvx2(buf, start);
    acc := AddLanes256(buf, start, pos, lo, hi, acc, start, csum);
    pos, acc := Tail(buf, pos, acc, start, csum);
    r := Close(buf, start, first, pos, acc, csum);
  }
}
