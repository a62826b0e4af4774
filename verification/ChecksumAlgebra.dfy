/** The public checksum operations: partial sums, their combination at an offset, and the final
    value sent in a packet. */
module ChecksumAlgebra {
  import opened Memory
  import opened OnesComplement
  import opened Accumulator
  import opened ScalarChecksum
  import opened CopyChecksum
  import opened VectorChecksum
  import opened VectorCopy

  /** The forms do_csum may stand for; pgm_checksum_init installs one of them. */
  datatype Engine = Scalar8 | Scalar16 | Scalar32 | Scalar64 | Sse2 | Sse3 | Sse41 | Avx2
  {
    predicate Vector()
    {
      Sse2? || Sse3? || Sse41? || Avx2?
    }
  }

  /** The forms do_csumcpy may stand for. */
  datatype CopyEngine = Copy8 | Copy16 | Copy32 | Copy64 | CopySse2 | CopyAvx2
  {
    predicate Vector()
    {
      CopySse2? || CopyAvx2?
    }

    predicate Faults(n: nat, addr: nat, dstAddr: nat)
    {
      Vector() && StoreFaults(CopyAvx2?, n, addr, dstAddr)
    }
  }

  /** do_csum with the initial csum of zero that partial sums pass: every form gives the one
      value, whatever the address. Vector forms exist on little-endian hosts only. */
  method DoCsum(engine: Engine, big: bool, width: Width, buf: seq<byte>, addr: nat) returns (r: uint16)
    requires |buf| < 0x1_0000 && (engine.Vector() ==> !big)
    ensures r == Checksum(big, buf)
  {
    match engine {
      case Scalar8 => r := Csum8(big, width, buf, 0);
      case Scalar16 => r := Csum16(big, width, buf, addr, 0);
      case Scalar32 => r := Csum32(big, width, buf, addr, 0);
      case Scalar64 => r := Csum64(big, buf, addr, 0);
      case Sse2 => r := CsumSse2(buf, addr, 0);
      case Sse3 => r := CsumSse3(buf, addr, 0);
      case Sse41 => r := CsumSse41(buf, addr, 0);
      case Avx2 => r := CsumAvx2(buf, addr, 0);
    }
  }

  /** What partial promises of a result that continues csum over the bytes s. */
  ghost predicate Continues(big: bool, csum: uint32, s: seq<byte>, r: uint32)
  {
    Ones(r) == Ones(csum + WordSum(s, big))
  }

  /** pgm_compat_csum_partial. */
  method Partial(engine: Engine, big: bool, width: Width, buf: seq<byte>, addr: nat, csum: uint32) returns (r: uint32)
    requires |buf| < 0x1_0000 && (engine.Vector() ==> !big)
    ensures r <= 0x1_0000 && Continues(big, csum, buf, r)
    ensures var acc := csum / 0x1_0000 + csum % 0x1_0000 + Checksum(big, buf); r == acc / 0x1_0000 + acc % 0x1_0000
    ensures csum == 0 ==> r == Checksum(big, buf)
  {
    var acc: nat := Fold16(csum);
    var c := DoCsum(engine, big, width, buf, addr);
    acc := acc + c;
    r := Fold16(acc);
    PartialOnes(big, buf, csum);
  }

  lemma {:induction false} PartialOnes(big: bool, buf: seq<byte>, csum: uint32)
    ensures Ones(Fold16(Fold16(csum) + Checksum(big, buf))) == Ones(csum + WordSum(buf, big))
  {
    FoldedSum(csum, WordSum(buf, big));
  }

  lemma {:induction false} FoldedSum(c: nat, n: nat)
    ensures Ones(Fold16(Fold16(c) + Ones(n))) == Ones(c + n)
  {
    var x: nat := Fold16(c);
    Fold16Ones(x + Ones(n));
    OnesIdempotent(n);
    OnesAdd(Ones(n), n, x);
    Fold16Ones(c);
    OnesAdd(x, c, n);
  }

  // ---- partial sums that copy ----

  /** What the copying forms return for an initial csum: 0 or not, it is handed to them as it is. */
  function CopyValue(engine: CopyEngine, big: bool, width: Width, s: seq<byte>, addr: nat, csum: uint32): uint16
  {
    var odd := addr % 2 == 1;
    if engine.Copy8? then Plain(big, width, s, !big, csum)
    else if s == [] then csum % 0x1_0000
    else if engine.Copy16? then Plain(big, width, s, odd, csum)
    else if engine.Copy32? then Value32(big, width, s, addr, csum)
    else Seeded(big, s, odd, csum)
  }

  /** Whether the form loses a carry of csum and the bytes of s. */
  predicate CopyLoses(engine: CopyEngine, big: bool, width: Width, s: seq<byte>, addr: nat, csum: uint32)
  {
    match engine
    case Copy8 => PlainLoses(big, width, s, !big, csum)
    case Copy16 => PlainLoses(big, width, s, addr % 2 == 1, csum)
    case Copy32 => Loses32(big, width, s, addr, csum)
    case _ => false
  }

  /** Whether the form exchanges the bytes of csum. */
  predicate CopyExchanges(engine: CopyEngine, big: bool, addr: nat)
  {
    if engine.Copy8? then !big else addr % 2 == 1
  }

  /** When a copying form makes of csum what pgm_compat_csum_partial makes of it. */
  predicate CsumAgrees(engine: CopyEngine, big: bool, width: Width, s: seq<byte>, addr: nat, csum: uint32)
  {
    if s == [] && !engine.Copy8? then csum < 0x1_0000 || csum > 0xffff_0000
    else
      && !CopyLoses(engine, big, width, s, addr, csum)
      && (CopyExchanges(engine, big, addr) ==> csum % 0x101 == 0)
  }

  /** pgm_compat_csum_partial_copy. None is the fault of an unaligned vector store; the caller can tell
      beforehand, and so it can when the value continues csum as that of Partial does. */
  method PartialCopy(engine: CopyEngine, big: bool, width: Width, src: seq<byte>, addr: nat,
                     dst: array<byte>, to: nat, dstAddr: nat, csum: uint32)
    returns (r: Option<uint32>)
    requires |src| < 0x1_0000 && to + |src| <= dst.Length && (engine.Vector() ==> !big)
    modifies dst
    ensures r.None? <==> engine.Faults(|src|, addr, dstAddr)
    ensures engine.CopySse2? ==>
              (r.None? <==> addr + |src| >= 0x10 * ((addr + addr % 2) / 0x10 + 1) + 0x10
                            && (dstAddr - addr) % 0x10 != 0)
    ensures engine.CopyAvx2? ==>
              (r.None? <==> addr + |src| >= 0x20 * ((addr + addr % 2) / 0x20 + 1) + 0x20
                            && (dstAddr - addr) % 0x20 != 0)
    ensures !engine.CopySse2? && !engine.CopyAvx2? ==> r.Some?
    ensures r.Some? ==> dst[..] == Overwrite(old(dst[..]), to, src)
    ensures r.Some? ==> r.value == CopyValue(engine, big, width, src, addr, csum)
    ensures r.Some? ==> (Continues(big, csum, src, r.value) <==> CsumAgrees(engine, big, width, src, addr, csum))
    ensures r.Some? && csum == 0 ==> r.value == Checksum(big, src)
  {
    CsumAgreesIff(engine, big, width, src, addr, csum);
    Faults128(|src|, addr, dstAddr);
    Faults256(|src|, addr, dstAddr);
    r := RunCopy(engine, big, width, src, addr, dst, to, dstAddr, csum);
  }

  method RunCopy(engine: CopyEngine, big: bool, width: Width, src: seq<byte>, addr: nat,
                 dst: array<byte>, to: nat, dstAddr: nat, csum: uint32)
    returns (r: Option<uint16>)
    requires |src| < 0x1_0000 && to + |src| <= dst.Length && (engine.Vector() ==> !big)
    modifies dst
    ensures r.None? <==> engine.Faults(|src|, addr, dstAddr)
    ensures r.Some? ==> dst[..] == Overwrite(old(dst[..]), to, src)
    ensures r.Some? ==> r.value == CopyValue(engine, big, width, src, addr, csum)
  {
    match engine {
      case Copy8 => var c := CsumCopy8(big, width, src, dst, to, csum); r := Some(c);
      case Copy16 => var c := CsumCopy16(big, width, src, addr, dst, to, csum); r := Some(c);
      case Copy32 => var c := CsumCopy32(big, width, src, addr, dst, to, csum); r := Some(c);
      case Copy64 => var c := CsumCopy64(big, src, addr, dst, to, csum); r := Some(c);
      case CopySse2 => r := CsumCopySse2(src, addr, dst, to, dstAddr, csum);
      case CopyAvx2 => r := CsumCopyAvx2(src, addr, dst, to, dstAddr, csum);
    }
  }

  /** The exact condition, for every form, host, width, address, content and csum. */
  lemma {:induction false} CsumAgreesIff(engine: CopyEngine, big: bool, width: Width, s: seq<byte>, addr: nat,
                                         csum: uint32)
    requires |s| < 0x1_0000
    ensures Continues(big, csum, s, CopyValue(engine, big, width, s, addr, csum))
       <==> CsumAgrees(engine, big, width, s, addr, csum)
    ensures csum == 0 ==> CopyValue(engine, big, width, s, addr, csum) == Checksum(big, s)
  {
    var odd := CopyExchanges(engine, big, addr);
    if s == [] && !engine.Copy8? {
      EmptyAgrees(csum);
    } else if engine.Copy32? {
      Agrees32(big, width, s, addr, csum);
    } else if engine.Copy8? || engine.Copy16? {
      PlainAgrees(big, width, s, odd, csum);
    } else {
      SeededAgrees(big, s, odd, csum);
    }
  }

  lemma {:induction false} EmptyAgrees(csum: uint32)
    ensures Ones(csum % 0x1_0000) == Ones(csum) <==> csum < 0x1_0000 || csum > 0xffff_0000
  {
    var h, l := csum / 0x1_0000, csum % 0x1_0000;
    assert csum == l + h + 0xffff * h;
    OnesEqual(csum, l);
    CastOut(l + h, h);
    if h < 0xffff {
      ResidueMoves(l, h);
    } else {
      CastOut(l, 1);
    }
  }

  /** Without a lost carry all that matters is the exchange of csum's bytes. */
  lemma {:induction false} SeededAgrees(big: bool, s: seq<byte>, odd: bool, csum: uint32)
    ensures Continues(big, csum, s, Seeded(big, s, odd, csum)) <==> (odd ==> csum % 0x101 == 0)
    ensures csum == 0 ==> Seeded(big, s, odd, csum) == Checksum(big, s)
  {
    OnesIdempotent((if odd then 0x100 * csum as int else csum) + WordSum(s, big));
    if odd {
      TimesAgrees(csum, WordSum(s, big));
    }
  }

  lemma {:induction false} TimesAgrees(n: nat, m: nat)
    ensures Ones(0x100 * n + m) == Ones(n + m) <==> n % 0x101 == 0
  {
    OnesEqual(0x100 * n + m, n + m);
    var q, t := n / 0x101, n % 0x101;
    assert 0x100 * n + m == n + m + 0xff * t + 0xffff * q;
    CastOut(n + m + 0xff * t, q);
    ResidueMoves(n + m, 0xff * t);
  }

  lemma {:induction false} PlainAgrees(big: bool, width: Width, s: seq<byte>, odd: bool, csum: uint32)
    requires |s| < 0x1_0000
    ensures Continues(big, csum, s, Plain(big, width, s, odd, csum))
       <==> !PlainLoses(big, width, s, odd, csum) && (odd ==> csum % 0x101 == 0)
    ensures csum == 0 ==> Plain(big, width, s, odd, csum) == Checksum(big, s)
  {
    PlainIff(big, width, s, odd, csum);
    SeededAgrees(big, s, odd, csum);
    if PlainLoses(big, width, s, odd, csum) {
      UnguardedIff(width, csum + WordSum(s, big != odd));
      if width.Bits32? {
        LostDiffers(big, s, odd, csum);
      } else {
        assert csum > 0 by { WordSumBound(s, big != odd); }
        OnesEqual(csum + WordSum(s, big), 0);
      }
    }
  }

  lemma {:induction false} Agrees32(big: bool, width: Width, s: seq<byte>, addr: nat, csum: uint32)
    requires |s| < 0x1_0000
    ensures Continues(big, csum, s, Value32(big, width, s, addr, csum))
       <==> !Loses32(big, width, s, addr, csum) && (addr % 2 == 1 ==> csum % 0x101 == 0)
    ensures csum == 0 ==> Value32(big, width, s, addr, csum) == Checksum(big, s)
  {
    var start, lead := addr % 2, Leads(|s|, addr, addr % 2);
    if HasWords32(|s|, start, lead) {
      WordsAgree(big, width, s, start, lead, csum);
    } else {
      PlainAgrees(big, width, s, start == 1, csum);
    }
  }

  lemma {:induction false} WordsAgree(big: bool, width: Width, s: seq<byte>, start: nat, lead: bool, csum: uint32)
    requires start <= 1 && (lead ==> start + 2 <= |s|) && HasWords32(|s|, start, lead)
    ensures var r := Turn(start == 1, Folded32(big, width, s, start, lead, csum));
            && (Continues(big, csum, s, r)
                <==> !FirstLost(big, width, s, start, lead, csum) && (start == 1 ==> csum % 0x101 == 0))
            && (csum == 0 ==> r == Checksum(big, s))
  {
    if FirstLost(big, width, s, start, lead, csum) {
      WordsLost(big, width, s, start, lead, csum);
    } else {
      WordsKept(big, width, s, start, lead, csum);
      SeededAgrees(big, s, start == 1, csum);
    }
  }

  lemma {:induction false} WordsKept(big: bool, width: Width, s: seq<byte>, start: nat, lead: bool, csum: uint32)
    requires start <= 1 && (lead ==> start + 2 <= |s|) && HasWords32(|s|, start, lead)
    requires !FirstLost(big, width, s, start, lead, csum)
    ensures Turn(start == 1, Folded32(big, width, s, start, lead, csum)) == Seeded(big, s, start == 1, csum)
  {
    TurnSum(big, s, start == 1, csum);
  }

  lemma {:induction false} WordsLost(big: bool, width: Width, s: seq<byte>, start: nat, lead: bool, csum: uint32)
    requires start <= 1 && (lead ==> start + 2 <= |s|) && HasWords32(|s|, start, lead)
    requires FirstLost(big, width, s, start, lead, csum)
    ensures csum != 0 && !Continues(big, csum, s, Turn(start == 1, Folded32(big, width, s, start, lead, csum)))
  {
    LeadWithin(big, s, start, lead);
    LostDiffers(big, s, start == 1, csum);
  }

  /** A lost carry is never made up for by the exchange: 255 does not divide 256. */
  lemma {:induction false} LostDiffers(big: bool, s: seq<byte>, odd: bool, csum: uint32)
    requires csum + WordSum(s, big != odd) >= 0x1_0000_0000
    ensures var total := csum + WordSum(s, big != odd);
            Ones(Turn(odd, Ones(total - 0x1_0000_0000))) != Ones(csum + WordSum(s, big))
  {
    var total := csum + WordSum(s, big != odd);
    if odd {
      var rest: nat := total - 0x1_0000_0000;
      TurnedLoss(big, s, csum, rest);
    } else {
      LostCarry(total);
      OnesIdempotent(total - 0x1_0000_0000);
    }
  }

  lemma {:induction false} TurnedLoss(big: bool, s: seq<byte>, csum: uint32, rest: nat)
    requires csum + WordSum(s, !big) == rest + 0x1_0000_0000
    ensures Ones(Ones(0x100 * Ones(rest) as int)) != Ones(csum + WordSum(s, big))
  {
    var n := WordSum(s, big);
    assert Ones(0x100 * Ones(rest) as int) == Ones(0x100 * rest) by {
      OnesIdempotent(rest);
      OnesTimes(Ones(rest), rest);
    }
    OnesIdempotent(0x100 * rest);
    assert Ones(0x100 * rest + 0x100) == Ones(0x100 * csum + n) by {
      OnesCast(rest + 1, 0x1_0001);
      OnesTimes(rest + 0x1_0000_0000, rest + 1);
      WordSumSwap(s, !big);
      OnesAdd(0x100 * WordSum(s, !big), n, 0x100 * csum);
    }
    NotMadeUp(0x100 * rest, csum, n);
  }

  lemma {:induction false} NotMadeUp(x: nat, c: nat, n: nat)
    requires Ones(x + 0x100) == Ones(0x100 * c + n)
    ensures Ones(x) != Ones(c + n)
  {
    OnesEqual(x + 0x100, 0x100 * c + n);
    OnesEqual(x, c + n);
    var j := Quotient(x + 0x100, 0x100 * c + n);
    if x % 0xffff == (c + n) % 0xffff {
      var k := Quotient(x, c + n);
      NotDivisible(c, j - k);
    }
  }

  lemma Quotient(x: int, y: int) returns (k: int)
    requires x % 0xffff == y % 0xffff
    ensures y - x == 0xffff * k
  {
    k := y / 0xffff - x / 0xffff;
  }

  lemma NotDivisible(c: int, k: int)
    ensures 0xff * c - 0x100 != 0xffff * k
  {
    assert 0xff * (c - 0x101 * k) != 0x100;
  }

  lemma {:induction false} ResidueMoves(n: nat, d: nat)
    requires d < 0xffff
    ensures (n + d) % 0xffff == n % 0xffff <==> d == 0
  {
    var q, r := n / 0xffff, n % 0xffff;
    CastOut(r + d, q);
  }

  // ---- combining partial sums ----

  /** The bytes of both halves of a 32-bit accumulator exchanged. */
  function SwapHalves(c: uint32): uint32
  {
    0x1_0000 * Swap16(c / 0x1_0000) as int + Swap16(c % 0x1_0000)
  }

  /** That is, in memory the first byte and the second, and the third and the fourth. */
  lemma {:induction false} SwapHalvesBytes(big: bool, c: uint32)
    ensures var b := Bytes32(big, c); Bytes32(big, SwapHalves(c)) == [b[1], b[0], b[3], b[2]]
  {
    var hi, lo := c / 0x1_0000, c % 0x1_0000;
    Split32(Swap16(lo), Swap16(hi));
    SwapBytes(big, lo);
    SwapBytes(big, hi);
  }

  lemma SwapBytes(big: bool, x: uint16)
    ensures var b := Bytes16(big, x); Bytes16(big, Swap16(x)) == [b[1], b[0]]
  {
    Digits(x / 0x100, x % 0x100);
    Digits(x % 0x100, x / 0x100);
  }

  /** Two accumulators combined, the second belonging to bytes that start at `offset`. */
  function BlockSum(csum: uint32, csum2: uint32, offset: nat): uint32
  {
    AddCarry(Bits32, csum, if offset % 2 == 1 then SwapHalves(csum2) else csum2)
  }

  /** pgm_csum_block_add. */
  method BlockAdd(csum: uint32, csum2: uint32, offset: nat) returns (r: uint32)
    ensures r == BlockSum(csum, csum2, offset)
  {
    var other := csum2;
    if offset % 2 == 1 {
      MaskedBytes(csum2);
      // the even bytes a place up, the odd bytes a place down
      other := 0x100 * EvenBytes(csum2) + EvenBytes(csum2 / 0x100);
    }
    r := Accumulate(Bits32, csum, other);
  }

  /** The even bytes of c, where they are. */
  function EvenBytes(c: uint32): uint32
  {
    c % 0x100 + 0x1_0000 * (c / 0x1_0000 % 0x100)
  }

  lemma MaskedBytes(c: uint32)
    ensures 0x100 * EvenBytes(c) as int + EvenBytes(c / 0x100) == SwapHalves(c)
  {
    var h, l := c / 0x1_0000, c % 0x1_0000;
    assert c % 0x100 == l % 0x100;
    assert c / 0x100 % 0x100 == l / 0x100;
    assert c / 0x100 / 0x1_0000 == h / 0x100;
  }

  lemma {:induction false} SwapHalvesOnes(c: uint32)
    ensures Ones(SwapHalves(c)) == Ones(0x100 * c as int)
  {
    var h, l := c / 0x1_0000, c % 0x1_0000;
    var n: int := SwapHalves(c);
    assert 0x100 * h == Swap16(h) + 0xffff * (h / 0x100);
    assert 0x100 * l == Swap16(l) + 0xffff * (l / 0x100);
    assert 0x100 * c as int == n + 0xffff * (0x1_0000 * (h / 0x100) + l / 0x100);
    if n > 0 {
      OnesCast(n, 0x1_0000 * (h / 0x100) + l / 0x100);
    }
  }

  /** Byte offsets: the second sum counts 256-fold when its bytes start at an odd offset. */
  lemma {:induction false} BlockSumOnes(csum: uint32, csum2: uint32, offset: nat)
    ensures Ones(BlockSum(csum, csum2, offset))
         == Ones(csum + (if offset % 2 == 1 then 0x100 * csum2 as int else csum2))
  {
    var other := if offset % 2 == 1 then SwapHalves(csum2) else csum2;
    AddCarryOnes(Bits32, csum, other, 0);
    if offset % 2 == 1 {
      SwapHalvesOnes(csum2);
      OnesAdd(SwapHalves(csum2), 0x100 * csum2 as int, csum);
    }
  }

  /** If csum stands for the bytes a, and csum2 for the bytes b, their combination at offset |a|
      stands for a + b. */
  lemma {:induction false} BlockSumConcat(big: bool, a: seq<byte>, b: seq<byte>, csum: uint32, csum2: uint32)
    requires Ones(csum) == Checksum(big, a) && Ones(csum2) == Checksum(big, b)
    ensures Ones(BlockSum(csum, csum2, |a|)) == Checksum(big, a + b)
  {
    var n, m := WordSum(a, big), WordSum(b, big);
    WordSumConcat(a, b, big);
    BlockSumOnes(csum, csum2, |a|);
    if |a| % 2 == 1 {
      OnesTimes(csum2, m);
      WordSumSwap(b, big);
      OnesAdd(0x100 * csum2 as int, WordSum(b, !big), csum);
      OnesAdd(csum, n, WordSum(b, !big));
    } else {
      OnesAdd(csum2, m, csum);
      OnesAdd(csum, n, m);
    }
  }

  // ---- fragments ----

  function Flat(pieces: seq<seq<byte>>): seq<byte>
  {
    if pieces == [] then [] else Flat(pieces[..|pieces| - 1]) + pieces[|pieces| - 1]
  }

  /** The pieces' partial sums combined left to right, each at its byte offset. */
  function Chain(big: bool, pieces: seq<seq<byte>>): uint32
  {
    if pieces == [] then 0 else
      var before := pieces[..|pieces| - 1];
      BlockSum(Chain(big, before), Checksum(big, pieces[|pieces| - 1]), |Flat(before)|)
  }

  /** However a message is cut, the combination stands for the whole message. */
  lemma {:induction false} ChainSum(big: bool, pieces: seq<seq<byte>>)
    ensures Ones(Chain(big, pieces)) == Checksum(big, Flat(pieces))
  {
    if pieces != [] {
      var before, last := pieces[..|pieces| - 1], pieces[|pieces| - 1];
      ChainSum(big, before);
      OnesIdempotent(WordSum(last, big));
      BlockSumConcat(big, Flat(before), last, Chain(big, before), Checksum(big, last));
    }
  }

  lemma {:induction false} OnesIdempotent(n: nat)
    ensures Ones(Ones(n)) == Ones(n)
  {
    OnesExact(n, Ones(n));
    OnesEqual(Ones(n), n);
  }

  /** Within 65535 bytes the accumulator never reaches the one value that folds to zero. */
  lemma {:induction false} ChainBound(big: bool, pieces: seq<seq<byte>>)
    requires |Flat(pieces)| < 0x1_0000
    ensures Chain(big, pieces) <= 0xffff * |Flat(pieces)|
  {
    if pieces != [] {
      var before, last := pieces[..|pieces| - 1], pieces[|pieces| - 1];
      ChainBound(big, before);
      PieceBound(big, last);
    }
  }

  lemma {:induction false} PieceBound(big: bool, s: seq<byte>)
    ensures Checksum(big, s) <= 0xffff * |s| && SwapHalves(Checksum(big, s)) <= 0xffff * |s|
  {
    assert s == [] ==> Checksum(big, s) == 0;
    HalfBound(Checksum(big, s), |s|);
  }

  lemma {:induction false} HalfBound(c: uint16, n: nat)
    requires n == 0 ==> c == 0
    ensures c <= 0xffff * n && SwapHalves(c) <= 0xffff * n
  {
    SwapHalvesSmall(c);
  }

  lemma {:induction false} SwapHalvesSmall(c: uint16)
    ensures SwapHalves(c) == Swap16(c) && (c == 0 ==> SwapHalves(c) == 0)
  {
    assert c / 0x1_0000 == 0 && c % 0x1_0000 == c;
  }

  /** The operations themselves, each piece with a form and an address of its own. */
  method ChainPieces(engine: nat -> Engine, addr: nat -> nat, big: bool, width: Width, pieces: seq<seq<byte>>)
    returns (csum: uint32)
    requires |Flat(pieces)| < 0x1_0000 && forall k :: engine(k).Vector() ==> !big
    ensures csum == Chain(big, pieces)
  {
    csum := 0;
    var offset := 0;
    assert pieces[..0] == [] && pieces[..|pieces|] == pieces;
    for i := 0 to |pieces|
      invariant csum == Chain(big, pieces[..i]) && offset == |Flat(pieces[..i])|
    {
      NextPiece(big, pieces, i);
      var c := Partial(engine(i), big, width, pieces[i], addr(i), 0);
      csum := BlockAdd(csum, c, offset);
      offset := offset + |pieces[i]|;
    }
  }

  lemma {:induction false} NextPiece(big: bool, pieces: seq<seq<byte>>, i: nat)
    requires i < |pieces|
    ensures Flat(pieces[..i + 1]) == Flat(pieces[..i]) + pieces[i]
    ensures Chain(big, pieces[..i + 1])
         == BlockSum(Chain(big, pieces[..i]), Checksum(big, pieces[i]), |Flat(pieces[..i])|)
    ensures |pieces[i]| <= |Flat(pieces)|
  {
    assert pieces[..i + 1][..i] == pieces[..i];
    PieceWithin(pieces, i);
  }

  lemma {:induction false} PieceWithin(pieces: seq<seq<byte>>, i: nat)
    requires i < |pieces|
    ensures |pieces[i]| <= |Flat(pieces)|
  {
    if i < |pieces| - 1 {
      PieceWithin(pieces[..|pieces| - 1], i);
    }
  }

  // ---- running partial sums ----

  /** Partial sums may be chained over fragments of even length (only the last may be odd): the
      last of a run of results stands for the initial csum and the whole message. */
  lemma {:induction false} ChainedPartials(big: bool, pieces: seq<seq<byte>>, sums: seq<uint32>)
    requires |sums| == |pieces| + 1
    requires forall i :: 0 <= i < |pieces| ==> Continues(big, sums[i], pieces[i], sums[i + 1])
    requires forall i :: 0 <= i < |pieces| - 1 ==> |pieces[i]| % 2 == 0
    ensures Continues(big, sums[0], Flat(pieces), sums[|pieces|])
  {
    if pieces != [] {
      var n := |pieces| - 1;
      var before, last := pieces[..n], pieces[n];
      ChainedPartials(big, before, sums[..n + 1]);
      EvenFlat(before);
      WordSumConcat(Flat(before), last, big);
      OnesAdd(sums[n], sums[0] + WordSum(Flat(before), big), WordSum(last, big));
    }
  }

  lemma {:induction false} EvenFlat(pieces: seq<seq<byte>>)
    requires forall i :: 0 <= i < |pieces| ==> |pieces[i]| % 2 == 0
    ensures |Flat(pieces)| % 2 == 0
  {
    if pieces != [] {
      EvenFlat(pieces[..|pieces| - 1]);
    }
  }

  // ---- the value sent ----

  /** The 16-bit ones' complement of the sum, with all ones instead of zero. */
  function FinalSum(csum: uint32): uint16
  {
    if csum == 0xffff_ffff then 0
    else if csum % 0xffff == 0 then 0xffff
    else 0xffff - csum % 0xffff
  }

  /** pgm_csum_fold: added back to the accumulator the result makes zero modulo 0xffff, and it
      is zero itself for one accumulator alone. */
  method Fold(csum: uint32) returns (r: uint16)
    ensures (r + csum as int) % 0xffff == 0
    ensures r == 0 <==> csum == 0xffff_ffff
    ensures r == FinalSum(csum)
  {
    var acc: nat := csum;
    acc := acc / 0x1_0000 + acc % 0x1_0000;
    acc := acc + acc / 0x1_0000;
    r := if acc == 0xffff then acc else 0xffff - acc % 0x1_0000;
    FoldedOnes(csum, r);
  }

  lemma {:induction false} FoldedOnes(csum: uint32, r: uint16)
    requires var acc := Fold16(csum) + Fold16(csum) / 0x1_0000;
             r == if acc == 0xffff then acc else 0xffff - acc % 0x1_0000
    ensures (r + csum as int) % 0xffff == 0 && (r == 0 <==> csum == 0xffff_ffff) && r == FinalSum(csum)
  {
    var x, h := Fold16(csum), csum / 0x1_0000;
    assert csum == x + 0xffff * h;
    SmallFold(x, r);
    CastOut(x, h);
    CastOut(r + x, h);
    assert csum == 0xffff_ffff <==> x == 0x1_fffe;
  }

  lemma {:induction false} SmallFold(x: nat, r: uint16)
    requires x <= 0x1_fffe
    requires var acc := x + x / 0x1_0000; r == if acc == 0xffff then acc else 0xffff - acc % 0x1_0000
    ensures r == if x == 0x1_fffe then 0 else if x % 0xffff == 0 then 0xffff else 0xffff - x % 0xffff
    ensures (r + x) % 0xffff == 0 && (r == 0 <==> x == 0x1_fffe)
  {
    if x > 0xffff {
      assert r == 0x1_fffe - x;
    }
  }

  /** The value sent depends on the accumulator's residue only, whatever carries it still holds. */
  lemma FinalSumResidue(a: uint32, b: uint32)
    requires a != 0xffff_ffff && b != 0xffff_ffff
    ensures FinalSum(a) == FinalSum(b) <==> a % 0xffff == b % 0xffff
  {
  }

  /** Fragmentation does not show in the packet: any cut of a message of up to 65535 bytes gives
      the value of the one-shot sum, which is never the "no checksum" zero. */
  lemma {:induction false} FragmentationInvisible(big: bool, pieces: seq<seq<byte>>)
    requires |Flat(pieces)| < 0x1_0000
    ensures FinalSum(Chain(big, pieces)) == FinalSum(Checksum(big, Flat(pieces)))
    ensures FinalSum(Chain(big, pieces)) != 0
  {
    ChainSum(big, pieces);
    ChainBound(big, pieces);
    var c := Chain(big, pieces);
    assert c < 0xffff_ffff;
    OnesExact(c, Ones(c));
    FinalSumResidue(c, Checksum(big, Flat(pieces)));
  }

  /** What is sent for a message in pieces: however it is cut, whatever forms sum the pieces and wherever
      they are, it is the value of the message in one piece. */
  method FragmentSum(engine: nat -> Engine, addr: nat -> nat, big: bool, width: Width, pieces: seq<seq<byte>>)
    returns (r: uint16)
    requires |Flat(pieces)| < 0x1_0000 && forall k :: engine(k).Vector() ==> !big
    ensures r == FinalSum(Checksum(big, Flat(pieces))) != 0
  {
    var csum := ChainPieces(engine, addr, big, width, pieces);
    r := Fold(csum);
    FragmentationInvisible(big, pieces);
  }
}
