/** The scalar checksum forms. A buffer is its bytes `buf` and its start address `addr`;
    every index below is checked against the buffer, so no form reads outside it. */
module ScalarChecksum {
  import opened Memory
  import opened OnesComplement
  import opened Accumulator

  // ---- steps the forms share ----

  /** The 16-bit `remainder` that collects the odd bytes at both ends: `last` at its
      address 0 and `first` at its address 1. */
  function Remainder(big: bool, first: byte, last: byte): uint16
  {
    Word16(big, [last, first], 0)
  }

  /** `done` is the exact sum of the words of buf[start..pos]. */
  ghost predicate Summed(big: bool, buf: seq<byte>, start: nat, pos: nat, done: nat)
  {
    start <= pos <= |buf| && done + Rest(buf, pos, big) == Rest(buf, start, big)
  }

  /** Adds one 16-bit word. */
  method Add16(big: bool, width: Width, buf: seq<byte>, pos: nat, acc: nat,
               ghost start: nat, ghost csum: nat, ghost done: nat)
    returns (acc': nat, ghost done': nat)
    requires pos + 2 <= |buf| && Summed(big, buf, start, pos, done) && acc == Wrap(width, csum + done)
    ensures Summed(big, buf, start, pos + 2, done') && acc' == Wrap(width, csum + done')
    ensures done' == done + Word16(big, buf, pos) && acc' == Wrap(width, acc + Word16(big, buf, pos))
  {
    Peel16(buf, pos, big);
    WrapAdd(width, csum + done, Word16(big, buf, pos));
    acc' := Wrap(width, acc + Word16(big, buf, pos));
    done' := done + Word16(big, buf, pos);
  }

  /** Adds one 16-bit word, loaded from an even address. */
  method AddLoaded16(big: bool, width: Width, buf: seq<byte>, ghost addr: nat, pos: nat, acc: nat,
                     ghost start: nat, ghost csum: nat, ghost done: nat)
    returns (acc': nat, ghost done': nat)
    requires pos + 2 <= |buf| && OnBoundary(2, addr + pos)
    requires Summed(big, buf, start, pos, done) && acc == Wrap(width, csum + done)
    ensures OnBoundary(2, addr + (pos + 2))
    ensures Summed(big, buf, start, pos + 2, done') && acc' == Wrap(width, csum + done')
    ensures done' == done + Word16(big, buf, pos)
  {
    OneFurther(2, addr + pos);
    acc', done' := Add16(big, width, buf, pos, acc, start, csum, done);
  }

  /** The bytes gathered in `remainder` complete the sum, which is taken with the far parity
      when the buffer starts at an odd address. */
  lemma {:induction false} EndsSum(big: bool, buf: seq<byte>, start: nat, pos: nat, first: byte, last: byte)
    requires start <= pos <= |buf| <= pos + 1 && start <= 1 && |buf| > 0
    requires first == if start == 1 then buf[0] else 0
    requires last == if pos < |buf| then buf[pos] else 0
    ensures Rest(buf, start, big) + Remainder(big, first, last)
         == Rest(buf, pos, big) + WordSum(buf, big != (start == 1))
  {
    if pos < |buf| {
      Peel8(buf, pos, big);
    }
    RestIsAll(buf, big != (start == 1));
  }

  /** Adds the odd bytes. */
  method AddEnds(big: bool, width: Width, buf: seq<byte>, acc: nat, first: byte, last: byte,
                 ghost start: nat, ghost pos: nat, ghost csum: nat, ghost done: nat)
    returns (acc': nat)
    requires start <= 1 && |buf| > 0 && |buf| <= pos + 1
    requires Summed(big, buf, start, pos, done) && acc == Wrap(width, csum + done)
    requires first == if start == 1 then buf[0] else 0
    requires last == if pos < |buf| then buf[pos] else 0
    ensures acc' == Wrap(width, csum + WordSum(buf, big != (start == 1)))
  {
    EndsSum(big, buf, start, pos, first, last);
    WrapAdd(width, csum + done, Remainder(big, first, last));
    acc' := Wrap(width, acc + Remainder(big, first, last));
  }

  /** The value of the 8- and 16-bit forms: nothing guards the carry out of the accumulator. */
  function Plain(big: bool, width: Width, buf: seq<byte>, odd: bool, csum: uint32): uint16
  {
    Turn(odd, Unguarded(width, csum + WordSum(buf, big != odd)))
  }

  predicate PlainLoses(big: bool, width: Width, buf: seq<byte>, odd: bool, csum: uint32)
  {
    Loses(width, csum + WordSum(buf, big != odd))
  }

  /** It is the checksum with its initial csum exactly if no carry is lost, and none is for csum 0. */
  lemma {:induction false} PlainIff(big: bool, width: Width, buf: seq<byte>, odd: bool, csum: uint32)
    requires |buf| < 0x1_0000
    ensures Plain(big, width, buf, odd, csum) == Seeded(big, buf, odd, csum)
       <==> !PlainLoses(big, width, buf, odd, csum)
    ensures csum <= 0x8000_0000 ==> !PlainLoses(big, width, buf, odd, csum)
    ensures csum == 0 ==> Seeded(big, buf, odd, csum) == Checksum(big, buf)
  {
    var total := csum + WordSum(buf, big != odd);
    assert csum <= 0x8000_0000 ==> total < 0x1_0000_0000 by { WordSumBound(buf, big != odd); }
    UnguardedIff(width, total);
    TurnSum(big, buf, odd, csum);
    TurnOnce(odd, Unguarded(width, total), Ones(total));
  }

  ghost predicate Delivers(big: bool, width: Width, buf: seq<byte>, odd: bool, csum: uint32, r: uint16)
  {
    && r == Plain(big, width, buf, odd, csum)
    && (r == Seeded(big, buf, odd, csum) <==> !PlainLoses(big, width, buf, odd, csum))
    && (csum == 0 ==> r == Checksum(big, buf))
  }

  method Finish(big: bool, width: Width, buf: seq<byte>, odd: bool, ghost csum: uint32, acc: nat) returns (r: uint16)
    requires |buf| < 0x1_0000 && acc == Wrap(width, csum + WordSum(buf, big != odd))
    ensures Delivers(big, width, buf, odd, csum, r)
  {
    PlainIff(big, width, buf, odd, csum);
    WordSumBound(buf, big != odd);
    var folded := FoldDown(width, acc, csum + WordSum(buf, big != odd));
    r := Exchange(odd, folded);
  }

  // ---- steps of the forms that detect carries ----

  /** What is accumulated and what is left to sum make the same ones'-complement value as the
      initial csum and the whole: the invariant under which carries may go round the end. */
  ghost predicate Tracks(big: bool, buf: seq<byte>, start: nat, pos: nat, csum: nat, acc: nat)
  {
    && start <= pos <= |buf|
    && Ones(acc + Rest(buf, pos, big)) == Ones(csum + Rest(buf, start, big))
  }

  /** Adds one 16-bit word, with no look at the carry. */
  method Take16(big: bool, width: Width, buf: seq<byte>, ghost addr: nat, pos: nat, acc: nat,
                ghost start: nat, ghost csum: nat)
    returns (acc': nat)
    requires pos + 2 <= |buf| && OnBoundary(2, addr + pos)
    requires acc < Modulus(width)
    ensures OnBoundary(2, addr + (pos + 2))
    ensures acc' < Modulus(width)
    ensures acc + 0xffff < Modulus(width) ==> acc' <= acc + 0xffff
    ensures acc + 0xffff < Modulus(width) && Tracks(big, buf, start, pos, csum, acc)
            ==> Tracks(big, buf, start, pos + 2, csum, acc')
  {
    OneFurther(2, addr + pos);
    Peel16(buf, pos, big);
    acc' := Wrap(width, acc + Word16(big, buf, pos));
  }

  /** Adds one 32-bit word, with no look at the carry. */
  method Take32(big: bool, buf: seq<byte>, ghost addr: nat, pos: nat, acc: uint64, ghost start: nat, ghost csum: nat)
    returns (acc': uint64)
    requires pos + 4 <= |buf| && OnBoundary(4, addr + pos)
    requires acc <= 0x4_0000_0000 && Tracks(big, buf, start, pos, csum, acc)
    ensures OnBoundary(4, addr + (pos + 4))
    ensures acc' <= acc + 0xffff_ffff && Tracks(big, buf, start, pos + 4, csum, acc')
  {
    OneFurther(4, addr + pos);
    Peel32(buf, pos, big, acc);
    acc' := acc + Word32(big, buf, pos);
  }

  /** Adds one 32-bit word and the carry it causes. */
  method Take32Carry(big: bool, width: Width, buf: seq<byte>, ghost addr: nat, pos: nat, acc: nat,
                     ghost start: nat, ghost csum: nat)
    returns (acc': nat)
    requires pos + 4 <= |buf| && OnBoundary(4, addr + pos)
    requires acc < Modulus(width)
    ensures acc' < Modulus(width) && acc' <= acc + 0xffff_ffff
    ensures Tracks(big, buf, start, pos, csum, acc) ==> Tracks(big, buf, start, pos + 4, csum, acc')
  {
    var word32: nat := Word32(big, buf, pos);
    AddCarryOnes(width, acc, word32, Rest(buf, pos + 4, big));
    Peel32(buf, pos, big, acc);
    acc' := Accumulate(width, acc, word32);
  }

  /** Adds one 64-bit word and the carry it causes. */
  method Take64Carry(big: bool, buf: seq<byte>, ghost addr: nat, pos: nat, acc: uint64,
                     ghost start: nat, ghost csum: nat)
    returns (acc': uint64)
    requires pos + 8 <= |buf| && OnBoundary(8, addr + pos)
    requires Tracks(big, buf, start, pos, csum, acc)
    ensures Tracks(big, buf, start, pos + 8, csum, acc')
  {
    var word64: nat := Word64(big, buf, pos);
    AddCarryOnes(Bits64, acc, word64, Rest(buf, pos + 8, big));
    Peel64(buf, pos, big, acc);
    acc' := Accumulate(Bits64, acc, word64);
  }

  lemma {:induction false} TracksFold(big: bool, buf: seq<byte>, start: nat, pos: nat, csum: nat, acc: nat, folded: nat)
    requires Tracks(big, buf, start, pos, csum, acc) && Ones(folded) == Ones(acc)
    ensures Tracks(big, buf, start, pos, csum, folded)
  {
    OnesAdd(folded, acc, Rest(buf, pos, big));
  }

  /** Adding the remainder leaves the value of the whole buffer. */
  lemma {:induction false} TracksEnds(big: bool, buf: seq<byte>, start: nat, pos: nat, csum: uint32, acc: nat,
                                      first: byte, last: byte, total: nat)
    requires start <= 1 && |buf| > 0 && |buf| <= pos + 1 && Tracks(big, buf, start, pos, csum, acc)
    requires first == if start == 1 then buf[0] else 0
    requires last == if pos < |buf| then buf[pos] else 0
    requires Ones(total) == Ones(acc + Remainder(big, first, last))
    ensures Turn(start == 1, Ones(total)) == Seeded(big, buf, start == 1, csum)
  {
    EndsSum(big, buf, start, pos, first, last);
    assert WordSum(buf, big != (start == 1)) >= Rest(buf, start, big) by { RestIsAll(buf, big != (start == 1)); }
    OnesAdd(acc + Rest(buf, pos, big), csum + Rest(buf, start, big),
            WordSum(buf, big != (start == 1)) - Rest(buf, start, big));
    TurnSum(big, buf, start == 1, csum);
  }

  /** The odd bytes, the four-step fold and the final exchange. */
  method Conclude64(big: bool, buf: seq<byte>, start: nat, acc: nat, first: byte, last: byte,
                    ghost pos: nat, ghost csum: uint32)
    returns (r: uint16)
    requires start <= 1 && |buf| > 0 && |buf| <= pos + 1
    requires first == if start == 1 then buf[0] else 0
    requires last == if pos < |buf| then buf[pos] else 0
    requires acc <= 0xffff_ffff_ffff_0000 && Tracks(big, buf, start, pos, csum, acc)
    ensures r == Seeded(big, buf, start == 1, csum)
  {
    var total: uint64 := acc + Remainder(big, first, last);
    var folded := FoldDown64(total);
    r := Exchange(start == 1, folded);
    TracksEnds(big, buf, start, pos, csum, acc, first, last, total);
  }

  // ---- the forms ----

  /** do_csum_8bit: words in network order, put into host order at the end. */
  method Csum8(big: bool, width: Width, buf: seq<byte>, csum: uint32) returns (r: uint16)
    requires |buf| < 0x1_0000
    ensures Delivers(big, width, buf, !big, csum, r)
  {
    var acc: nat := csum;
    var pos: nat, len: nat := 0, |buf|;
    ghost var done: nat := 0;
    while len >= 2
      invariant pos + len == |buf|
      invariant Summed(true, buf, 0, pos, done) && acc == Wrap(width, csum + done)
    {
      acc, done := Add16(true, width, buf, pos, acc, 0, csum, done);
      pos, len := pos + 2, len - 2;
    }
    if len > 0 {
      acc := AddEnds(true, width, buf, acc, 0, buf[pos], 0, pos, csum, done);
    }
    RestIsAll(buf, true);
    r := Finish(big, width, buf, !big, csum, acc);
  }

  lemma {:induction false} EvenStart(addr: nat)
    ensures OnBoundary(2, addr + addr % 2)
  {
    EvenUp(addr);
    OnBoundaryMod(2, addr + addr % 2);
  }

  method Block16(big: bool, width: Width, buf: seq<byte>, ghost addr: nat, pos: nat, sum: nat,
                 ghost start: nat, ghost csum: nat, ghost sofar: nat)
    returns (acc: nat, ghost done: nat)
    requires pos + 8 <= |buf| && OnBoundary(2, addr + pos)
    requires Summed(big, buf, start, pos, sofar) && sum == Wrap(width, csum + sofar)
    ensures OnBoundary(2, addr + (pos + 8))
    ensures Summed(big, buf, start, pos + 8, done) && acc == Wrap(width, csum + done)
  {
    acc, done := AddLoaded16(big, width, buf, addr, pos, sum, start, csum, sofar);
    acc, done := AddLoaded16(big, width, buf, addr, pos + 2, acc, start, csum, done);
    acc, done := AddLoaded16(big, width, buf, addr, pos + 4, acc, start, csum, done);
    acc, done := AddLoaded16(big, width, buf, addr, pos + 6, acc, start, csum, done);
  }

  /** The 8-byte unrolls. */
  method Blocks16(big: bool, width: Width, buf: seq<byte>, ghost addr: nat, start: nat, n: nat, csum: uint32)
    returns (pos: nat, acc: nat, ghost done: nat)
    requires start + 8 * n <= |buf| && OnBoundary(2, addr + start)
    ensures pos == start + 8 * n && OnBoundary(2, addr + pos)
    ensures Summed(big, buf, start, pos, done) && acc == Wrap(width, csum + done)
  {
    pos, acc, done := start, csum, 0;
    var count8 := n;
    while count8 > 0
      invariant pos + 8 * count8 == start + 8 * n && 0 <= count8 && OnBoundary(2, addr + pos)
      invariant Summed(big, buf, start, pos, done) && acc == Wrap(width, csum + done)
    {
      acc, done := Block16(big, width, buf, addr, pos, acc, start, csum, done);
      pos, count8 := pos + 8, count8 - 1;
    }
  }

  /** The final 7 bytes: words while two bytes are left. */
  method Tail16(big: bool, width: Width, buf: seq<byte>, ghost addr: nat, from: nat, sum: nat,
                ghost start: nat, ghost csum: uint32, ghost sofar: nat)
    returns (pos: nat, acc: nat, ghost done: nat)
    requires from <= |buf| && OnBoundary(2, addr + from)
    requires Summed(big, buf, start, from, sofar) && sum == Wrap(width, csum + sofar)
    ensures pos <= |buf| <= pos + 1 && Summed(big, buf, start, pos, done) && acc == Wrap(width, csum + done)
  {
    pos, acc, done := from, sum, sofar;
    var len := |buf| - from;
    while len >= 2
      invariant pos + len == |buf| && OnBoundary(2, addr + pos)
      invariant Summed(big, buf, start, pos, done) && acc == Wrap(width, csum + done)
    {
      acc, done := AddLoaded16(big, width, buf, addr, pos, acc, start, csum, done);
      pos, len := pos + 2, len - 2;
    }
  }

  /** do_csum_16bit. */
  method Csum16(big: bool, width: Width, buf: seq<byte>, addr: nat, csum: uint32) returns (r: uint16)
    requires |buf| < 0x1_0000
    ensures buf == [] ==> r == csum % 0x1_0000
    ensures buf != [] ==> Delivers(big, width, buf, addr % 2 == 1, csum, r)
  {
    if buf == [] {
      return csum % 0x1_0000;
    }
    var start := addr % 2;
    EvenStart(addr);
    var first := if start == 1 then buf[0] else 0;
    var pos, acc, done := Blocks16(big, width, buf, addr, start, (|buf| - start) / 8, csum);
    pos, acc, done := Tail16(big, width, buf, addr, pos, acc, start, csum, done);
    var last := if pos < |buf| then buf[pos] else 0;
    acc := AddEnds(big, width, buf, acc, first, last, start, pos, csum, done);
    r := Finish(big, width, buf, start == 1, csum, acc);
  }

  // ---- the 32-bit form ----

  /** Whether a 16-bit word is taken first, to reach a 4-byte boundary. */
  predicate Leads(n: nat, addr: nat, start: nat)
  {
    n >= start + 2 && (addr + start) / 2 % 2 == 1
  }

  /** Where the 32-bit words start. */
  function From32(start: nat, lead: bool): nat
  {
    if lead then start + 2 else start
  }

  /** That boundary: from the first even address on at most one word is taken before it. */
  lemma {:induction false} WordsAligned(n: nat, addr: nat)
    ensures var from := From32(addr % 2, Leads(n, addr, addr % 2));
            && addr % 2 <= from <= addr % 2 + 2
            && (n >= addr % 2 + 2 ==> (addr + from) % 4 == 0 && from <= n)
            && (n < addr % 2 + 2 ==> from == addr % 2)
  {
    Quarter((addr + addr % 2) / 2 / 2, (addr + addr % 2) / 2 % 2);
  }

  lemma Quarter(q: nat, r: nat)
    requires r < 2
    ensures (4 * q + 2 * r) % 4 == 2 * r && (4 * q + 4) % 4 == 0
  {
  }

  /** Whether there are any. */
  predicate HasWords32(n: nat, start: nat, lead: bool)
  {
    n >= From32(start, lead) + 4
  }

  function Lead16(big: bool, buf: seq<byte>, start: nat, lead: bool): uint16
    requires lead ==> start + 2 <= |buf|
  {
    if lead then Word16(big, buf, start) else 0
  }

  /** The first 16-bit word is added without a look at the carry. */
  predicate FirstLost(big: bool, width: Width, buf: seq<byte>, start: nat, lead: bool, csum: uint32)
    requires lead ==> start + 2 <= |buf|
  {
    width.Bits32? && csum + Lead16(big, buf, start, lead) >= 0x1_0000_0000
  }

  /** When the 32-bit form loses a carry: at that first word; or anywhere, in a buffer that is too short
      for a 32-bit word. What comes with and after 32-bit words loses nothing. */
  predicate Loses32(big: bool, width: Width, buf: seq<byte>, addr: nat, csum: uint32)
  {
    var start, lead := addr % 2, Leads(|buf|, addr, addr % 2);
    if HasWords32(|buf|, start, lead) then FirstLost(big, width, buf, start, lead, csum)
    else PlainLoses(big, width, buf, start == 1, csum)
  }

  /** The folded value of the 32-bit form. */
  function Folded32(big: bool, width: Width, buf: seq<byte>, start: nat, lead: bool, csum: uint32): uint16
    requires start <= 1 && (lead ==> start + 2 <= |buf|)
  {
    var total := csum + WordSum(buf, big != (start == 1));
    if !HasWords32(|buf|, start, lead) then Unguarded(width, total)
    else
      LeadWithin(big, buf, start, lead);
      LostFirst(width, csum, Lead16(big, buf, start, lead), total)
  }

  /** The ones'-complement total, but for a carry that the first word may have lost. */
  function LostFirst(width: Width, csum: uint32, first: uint16, total: nat): uint16
    requires csum + first <= total
  {
    Ones(if width.Bits32? && csum + first >= 0x1_0000_0000 then total - 0x1_0000_0000 else total)
  }

  /** The value of the 32-bit form. */
  function Value32(big: bool, width: Width, buf: seq<byte>, addr: nat, csum: uint32): uint16
  {
    Turn(addr % 2 == 1, Folded32(big, width, buf, addr % 2, Leads(|buf|, addr, addr % 2), csum))
  }

  lemma {:induction false} LeadWithin(big: bool, buf: seq<byte>, start: nat, lead: bool)
    requires start <= 1 && (lead ==> start + 2 <= |buf|)
    ensures Lead16(big, buf, start, lead) + Rest(buf, From32(start, lead), big) == Rest(buf, start, big)
    ensures Rest(buf, start, big) <= WordSum(buf, big != (start == 1))
    ensures Lead16(big, buf, start, lead) <= WordSum(buf, big != (start == 1))
  {
    RestIsAll(buf, big != (start == 1));
    if lead {
      Peel16(buf, start, big);
    }
  }

  lemma {:induction false} Folded32Iff(big: bool, width: Width, buf: seq<byte>, start: nat, lead: bool, csum: uint32)
    requires start <= 1 && (lead ==> start + 2 <= |buf|)
    ensures Folded32(big, width, buf, start, lead, csum) == Ones(csum + WordSum(buf, big != (start == 1)))
       <==> !(if HasWords32(|buf|, start, lead) then FirstLost(big, width, buf, start, lead, csum)
              else PlainLoses(big, width, buf, start == 1, csum))
  {
    if !HasWords32(|buf|, start, lead) {
      UnguardedIff(width, csum + WordSum(buf, big != (start == 1)));
    } else if FirstLost(big, width, buf, start, lead, csum) {
      LeadWithin(big, buf, start, lead);
      LostCarry(csum + WordSum(buf, big != (start == 1)));
    }
  }

  /** It is the checksum with its initial csum exactly if no carry is lost. */
  lemma {:induction false} Value32Iff(big: bool, width: Width, buf: seq<byte>, addr: nat, csum: uint32)
    requires |buf| < 0x1_0000
    ensures Value32(big, width, buf, addr, csum) == Seeded(big, buf, addr % 2 == 1, csum)
       <==> !Loses32(big, width, buf, addr, csum)
    ensures csum <= 0xfffd_0002 ==> !Loses32(big, width, buf, addr, csum)
  {
    var start, lead := addr % 2, Leads(|buf|, addr, addr % 2);
    Folded32Iff(big, width, buf, start, lead, csum);
    TurnSum(big, buf, start == 1, csum);
    TurnOnce(start == 1, Folded32(big, width, buf, start, lead, csum), Ones(csum + WordSum(buf, big != (start == 1))));
    if csum <= 0xfffd_0002 && !HasWords32(|buf|, start, lead) {
      ShortSum(big, width, buf, start == 1, csum);
    }
  }

  lemma {:induction false} ShortSum(big: bool, width: Width, buf: seq<byte>, odd: bool, csum: uint32)
    requires |buf| <= 6 && csum <= 0xfffd_0002
    ensures !PlainLoses(big, width, buf, odd, csum)
  {
    var total := csum + WordSum(buf, big != odd);
    assert total < 0x1_0000_0000 by { WordSumBound(buf, big != odd); }
    UnguardedIff(width, total);
  }

  /** Where the 32-bit form stands before the odd bytes are added: acc is the plain wrapped sum of `base` and of
      the words from `mark` on, `done`. Without 32-bit words nothing has been folded yet; with them,
      base is what their loop and its fold left at mark. */
  ghost predicate Based32(big: bool, width: Width, buf: seq<byte>, from: nat, whole: nat,
                          mark: nat, base: nat, done: nat)
  {
    if |buf| >= from + 4 then
      base <= 0x4005_0000 && done <= 0xffff && Tracks(big, buf, from, mark, Wrap(width, whole), base)
    else mark == from && base == whole
  }

  /** The 32-bit words, followed by a fold to make room for what is left. */
  method Words32(big: bool, width: Width, buf: seq<byte>, ghost addr: nat, from: nat, n: nat, sum: nat)
    returns (pos: nat, acc: nat)
    requires |buf| < 0x1_0000 && from + 4 * n <= |buf| && sum < Modulus(width) && sum <= 0x1_0000_fffe
    requires OnBoundary(4, addr + from)
    ensures OnBoundary(2, addr + pos)
    ensures pos == from + 4 * n && acc < Modulus(width)
    ensures acc <= 0x4005_0000 && Tracks(big, buf, from, pos, sum, acc)
  {
    pos, acc := from, sum;
    var count := n;
    while count > 0
      invariant 0 <= count && pos + 4 * count == from + 4 * n && OnBoundary(4, addr + pos)
      invariant acc < Modulus(width) && acc <= 0x4000_0000 * (pos + 5)
      invariant Tracks(big, buf, from, pos, sum, acc)
    {
      OneFurther(4, addr + pos);
      acc := Take32Carry(big, width, buf, addr, pos, acc, from, sum);
      pos, count := pos + 4, count - 1;
    }
    HalfBoundary(2, addr + pos);
    Fold16Ones(acc);
    TracksFold(big, buf, from, pos, sum, acc, Fold16(acc));
    acc := Fold16(acc);
  }

  /** A length in words of 32 and 16 bits and an odd byte. */
  lemma Halves(len: nat)
    ensures len == 4 * (len / 2 / 2) + (if len / 2 % 2 == 1 then 2 else 0) + len % 2
  {
  }

  function Load16(big: bool, buf: seq<byte>, addr: nat, pos: nat): uint16
    requires pos + 2 <= |buf| && OnBoundary(2, addr + pos)
  {
    Word16(big, buf, pos)
  }

  /** A 16-bit word up to a 4-byte boundary. */
  method Head32(big: bool, width: Width, buf: seq<byte>, addr: nat, start: nat, csum: uint32)
    returns (pos: nat, acc: nat)
    requires start <= |buf| && OnBoundary(2, addr + start)
    ensures var lead := Leads(|buf|, addr, start);
            pos == From32(start, lead) && acc == Wrap(width, csum + Lead16(big, buf, start, lead))
    ensures OnBoundary(2, addr + pos) && (|buf| >= pos + 4 ==> OnBoundary(4, addr + pos))
  {
    pos, acc := start, csum;
    DoubleBoundary(2, addr + start);
    OneFurther(2, addr + start);
    if |buf| - pos >= 2 && (addr + pos) / 2 % 2 == 1 {
      acc := Wrap(width, acc + Load16(big, buf, addr, pos));
      pos := pos + 2;
    }
  }

  /** 32-bit words, and a 16-bit word that may be left. */
  method Bulk32(big: bool, width: Width, buf: seq<byte>, ghost addr: nat, from: nat, sum: nat, ghost whole: nat)
    returns (pos: nat, acc: nat, ghost mark: nat, ghost base: nat, ghost done: nat)
    requires from <= |buf| < 0x1_0000 && sum == Wrap(width, whole) && whole <= 0x1_0000_fffe
    requires OnBoundary(2, addr + from) && (|buf| >= from + 4 ==> OnBoundary(4, addr + from))
    ensures Based32(big, width, buf, from, whole, mark, base, done)
    ensures Summed(big, buf, mark, pos, done) && acc == Wrap(width, base + done) && |buf| <= pos + 1
  {
    pos, acc := from, sum;
    mark, base, done := from, whole, 0;
    var len := |buf| - pos;
    Halves(len);
    var count := len / 2 / 2;
    if count > 0 {
      pos, acc := Words32(big, width, buf, addr, pos, count, acc);
      mark, base := pos, acc;
    }
    if len / 2 % 2 == 1 {
      acc, done := AddLoaded16(big, width, buf, addr, pos, acc, mark, base, done);
      pos := pos + 2;
    }
  }

  ghost predicate Delivers32(big: bool, width: Width, buf: seq<byte>, addr: nat, csum: uint32, r: uint16)
  {
    && r == Value32(big, width, buf, addr, csum)
    && (r == Seeded(big, buf, addr % 2 == 1, csum) <==> !Loses32(big, width, buf, addr, csum))
    && (csum <= 0xfffd_0002 ==> r == Seeded(big, buf, addr % 2 == 1, csum))
  }

  /** The odd bytes, the two-step fold and the final exchange. */
  method Conclude32(big: bool, width: Width, odd: bool, acc: nat, first: byte, last: byte, ghost total: nat)
    returns (r: uint16)
    requires acc == Wrap(width, total) && total + Remainder(big, first, last) < 0x1_8000_0000
    ensures r == Turn(odd, Unguarded(width, total + Remainder(big, first, last)))
  {
    var ends := Remainder(big, first, last);
    WrapAdd(width, total, ends);
    var folded := FoldDown(width, Wrap(width, acc + ends), total + ends);
    r := Exchange(odd, folded);
  }

  lemma {:induction false} Ends32(big: bool, width: Width, buf: seq<byte>, start: nat, lead: bool, csum: uint32,
                                  mark: nat, base: nat, done: nat, ends: uint16)
    requires start <= 1 && |buf| < 0x1_0000 && (lead ==> start + 2 <= |buf|)
    requires Based32(big, width, buf, From32(start, lead), csum + Lead16(big, buf, start, lead), mark, base, done)
    requires Rest(buf, start, big) + done + ends == Rest(buf, mark, big) + WordSum(buf, big != (start == 1))
    ensures base + done + ends < 0x1_8000_0000
    ensures Unguarded(width, base + done + ends) == Folded32(big, width, buf, start, lead, csum)
  {
    if HasWords32(|buf|, start, lead) {
      WordsEnds(big, width, buf, start, lead, csum, mark, base, done + ends);
    } else {
      PlainEnds(big, width, buf, start, lead, csum, base + done + ends);
    }
  }

  lemma {:induction false} WordsEnds(big: bool, width: Width, buf: seq<byte>, start: nat, lead: bool, csum: uint32,
                                     mark: nat, base: nat, more: nat)
    requires start <= 1 && (lead ==> start + 2 <= |buf|) && HasWords32(|buf|, start, lead)
    requires base <= 0x4005_0000 && more <= 0x1_fffe
    requires Tracks(big, buf, From32(start, lead), mark, Wrap(width, csum + Lead16(big, buf, start, lead)), base)
    requires Rest(buf, start, big) + more == Rest(buf, mark, big) + WordSum(buf, big != (start == 1))
    ensures var first, sum := Lead16(big, buf, start, lead), WordSum(buf, big != (start == 1));
            first <= sum && Unguarded(width, base + more) == LostFirst(width, csum, first, csum + sum)
  {
    WordsNumbers(big, buf, start, lead, mark, more);
    EndsOnes(width, csum, Lead16(big, buf, start, lead), base, more, Rest(buf, mark, big),
             Rest(buf, From32(start, lead), big), WordSum(buf, big != (start == 1)));
  }

  lemma {:induction false} WordsNumbers(big: bool, buf: seq<byte>, start: nat, lead: bool, mark: nat, more: nat)
    requires start <= 1 && (lead ==> start + 2 <= |buf|)
    requires Rest(buf, start, big) + more == Rest(buf, mark, big) + WordSum(buf, big != (start == 1))
    ensures var first, words, sum := Lead16(big, buf, start, lead), Rest(buf, From32(start, lead), big),
                                     WordSum(buf, big != (start == 1));
            first + words + more == Rest(buf, mark, big) + sum && first + words <= sum
  {
    LeadWithin(big, buf, start, lead);
  }

  lemma {:induction false} PlainEnds(big: bool, width: Width, buf: seq<byte>, start: nat, lead: bool, csum: uint32,
                                     total: nat)
    requires start <= 1 && |buf| < 0x1_0000 && (lead ==> start + 2 <= |buf|) && !HasWords32(|buf|, start, lead)
    requires Rest(buf, start, big) + total
          == csum + Lead16(big, buf, start, lead) + Rest(buf, From32(start, lead), big)
             + WordSum(buf, big != (start == 1))
    ensures total < 0x1_8000_0000 && Unguarded(width, total) == Folded32(big, width, buf, start, lead, csum)
  {
    LeadWithin(big, buf, start, lead);
    WordSumBound(buf, big != (start == 1));
  }

  /** The ends added to what tracks the words: with the first word and the carry it may have lost. */
  lemma {:induction false} EndsOnes(width: Width, csum: uint32, first: uint16, base: nat, more: nat,
                                    left: nat, words: nat, sum: nat)
    requires base <= 0x4005_0000 && Ones(base + left) == Ones(Wrap(width, csum + first) + words)
    requires first + words + more == left + sum && first + words <= sum && more <= 0x1_fffe
    ensures Unguarded(width, base + more) == LostFirst(width, csum, first, csum + sum)
  {
    OnesAdd(base + left, Wrap(width, csum + first) + words, sum - first - words);
    WrapOnce(width, csum, first);
  }

  lemma {:induction false} WrapOnce(width: Width, csum: uint32, x: uint16)
    ensures Wrap(width, csum + x)
         == if width.Bits32? && csum + x >= 0x1_0000_0000 then csum + x - 0x1_0000_0000 else csum + x
  {
  }

  /** With the odd bytes the sum is whole. */
  lemma {:induction false} Whole32(big: bool, width: Width, buf: seq<byte>, addr: nat, csum: uint32,
                                   mark: nat, base: nat, done: nat, pos: nat, first: byte, last: byte)
    requires 0 < |buf| < 0x1_0000 && |buf| <= pos + 1 && Summed(big, buf, mark, pos, done)
    requires var start, lead := addr % 2, Leads(|buf|, addr, addr % 2);
             && Based32(big, width, buf, From32(start, lead), csum + Lead16(big, buf, start, lead), mark, base, done)
             && first == (if start == 1 then buf[0] else 0)
    requires last == if pos < |buf| then buf[pos] else 0
    ensures var total := base + done + Remainder(big, first, last);
            && total < 0x1_8000_0000
            && Turn(addr % 2 == 1, Unguarded(width, total)) == Value32(big, width, buf, addr, csum)
  {
    var start, lead := addr % 2, Leads(|buf|, addr, addr % 2);
    assert From32(start, lead) <= mark;
    EndsSum(big, buf, start, pos, first, last);
    Ends32(big, width, buf, start, lead, csum, mark, base, done, Remainder(big, first, last));
  }

  /** Everything between the odd bytes. */
  method Body32(big: bool, width: Width, buf: seq<byte>, addr: nat, start: nat, csum: uint32)
    returns (pos: nat, acc: nat, ghost mark: nat, ghost base: nat, ghost done: nat)
    requires start == addr % 2 <= |buf| < 0x1_0000
    ensures var lead := Leads(|buf|, addr, start);
            Based32(big, width, buf, From32(start, lead), csum + Lead16(big, buf, start, lead), mark, base, done)
    ensures Summed(big, buf, mark, pos, done) && acc == Wrap(width, base + done) && |buf| <= pos + 1
  {
    EvenStart(addr);
    ghost var lead := Leads(|buf|, addr, start);
    var from, sum := Head32(big, width, buf, addr, start, csum);
    pos, acc, mark, base, done := Bulk32(big, width, buf, addr, from, sum, csum + Lead16(big, buf, start, lead));
  }

  /** A buffer that is not empty. */
  method Sum32(big: bool, width: Width, buf: seq<byte>, addr: nat, csum: uint32) returns (r: uint16)
    requires 0 < |buf| < 0x1_0000
    ensures r == Value32(big, width, buf, addr, csum)
  {
    var start := addr % 2;
    var first := if start == 1 then buf[0] else 0;
    var pos, acc, mark, base, done := Body32(big, width, buf, addr, start, csum);
    var last := if pos < |buf| then buf[pos] else 0;
    Whole32(big, width, buf, addr, csum, mark, base, done, pos, first, last);
    r := Conclude32(big, width, start == 1, acc, first, last, base + done);
  }

  /** do_csum_32bit. */
  method Csum32(big: bool, width: Width, buf: seq<byte>, addr: nat, csum: uint32) returns (r: uint16)
    requires |buf| < 0x1_0000
    ensures buf == [] ==> r == csum % 0x1_0000
    ensures buf != [] ==> Delivers32(big, width, buf, addr, csum, r)
    ensures csum == 0 ==> r == Checksum(big, buf)
  {
    if buf == [] {
      return csum % 0x1_0000;
    }
    Value32Iff(big, width, buf, addr, csum);
    r := Sum32(big, width, buf, addr, csum);
  }

  /** A 64-bit accumulator is not right for every csum either: the two-step fold makes 0 of a sum
      whose halves add up to 0x1ffff. */
  lemma {:induction false} WideFoldLoses()
    ensures var buf: seq<byte> := [0xff, 0xff, 1, 0];
            && Value32(false, Bits64, buf, 2, 0xffff_ffff) == Plain(false, Bits64, buf, false, 0xffff_ffff) == 0
            && Seeded(false, buf, false, 0xffff_ffff) == 1
  {
    var buf: seq<byte> := [0xff, 0xff, 1, 0];
    assert WordSum(buf, false) == 0x1_0000 by {
      RestIsAll(buf, false);
      Peel16(buf, 0, false);
      Peel16(buf, 2, false);
    }
    OnesCast(1, 0x1_0002);
  }

  /** The 64-bit words, followed by a fold to make room for what is left. */
  method Words64(big: bool, buf: seq<byte>, ghost addr: nat, from: nat, n: nat, sum: uint64,
                 ghost start: nat, ghost csum: nat)
    returns (pos: nat, acc: uint64)
    requires OnBoundary(8, addr + from)
    requires from + 8 * n <= |buf| && Tracks(big, buf, start, from, csum, sum)
    ensures pos == from + 8 * n && OnBoundary(8, addr + pos)
    ensures Tracks(big, buf, start, pos, csum, acc) && acc <= 0x1_ffff_fffe
  {
    pos, acc := from, sum;
    var count := n;
    while count > 0
      invariant 0 <= count && pos + 8 * count == from + 8 * n && OnBoundary(8, addr + pos)
      invariant Tracks(big, buf, start, pos, csum, acc)
    {
      OneFurther(8, addr + pos);
      acc := Take64Carry(big, buf, addr, pos, acc, start, csum);
      count, pos := count - 1, pos + 8;
    }
    Fold32Ones(acc);
    TracksFold(big, buf, start, pos, csum, acc, Fold32(acc));
    acc := Fold32(acc);
  }

  /** A 32-bit word up to an 8-byte boundary. */
  method Head64(big: bool, buf: seq<byte>, addr: nat, from: nat, n: nat, sum: uint64,
                ghost start: nat, ghost csum: nat)
    returns (count: nat, pos: nat, acc: uint64)
    requires 0 < n && from + 4 * n <= |buf| && OnBoundary(4, addr + from)
    requires Tracks(big, buf, start, from, csum, sum) && sum <= 0x1_0000_fffe
    ensures pos + 4 * count == from + 4 * n && OnBoundary(8, addr + pos)
    ensures Tracks(big, buf, start, pos, csum, acc) && acc <= 0x2_0000_fffd
  {
    count, pos, acc := n, from, sum;
    DoubleBoundary(4, addr + pos);
    if (addr + pos) / 4 % 2 == 1 {
      acc := Take32(big, buf, addr, pos, acc, start, csum);
      count, pos := count - 1, pos + 4;
    }
  }

  /** From a 4-byte boundary: a 32-bit word up to an 8-byte boundary, 64-bit words, and a 32-bit
      word that may be left. n is the number of 32-bit words. */
  method Quads64(big: bool, buf: seq<byte>, addr: nat, from: nat, n: nat, sum: uint64,
                 ghost start: nat, ghost csum: nat)
    returns (pos: nat, acc: uint64)
    requires OnBoundary(2, addr + from) && (n > 0 ==> OnBoundary(4, addr + from))
    requires from + 4 * n <= |buf| && Tracks(big, buf, start, from, csum, sum) && sum <= 0x1_0000_fffe
    ensures pos == from + 4 * n && OnBoundary(2, addr + pos)
    ensures Tracks(big, buf, start, pos, csum, acc) && acc <= 0x3_0000_fffd
  {
    pos, acc := from, sum;
    var count := n;
    if count > 0 {
      count, pos, acc := Head64(big, buf, addr, pos, count, acc, start, csum);
      var left := count % 2;
      count := count / 2;
      if count > 0 {
        pos, acc := Words64(big, buf, addr, pos, count, acc, start, csum);
      }
      HalfBoundary(4, addr + pos);
      if left == 1 {
        acc := Take32(big, buf, addr, pos, acc, start, csum);
        pos := pos + 4;
      }
      HalfBoundary(2, addr + pos);
    }
  }

  /** do_csum_64bit: exact for every initial csum. */
  method Csum64(big: bool, buf: seq<byte>, addr: nat, csum: uint32) returns (r: uint16)
    requires |buf| < 0x1_0000
    ensures buf == [] ==> r == csum % 0x1_0000
    ensures buf != [] ==> r == Seeded(big, buf, addr % 2 == 1, csum)
    ensures csum == 0 ==> r == Checksum(big, buf)
  {
    if buf == [] {
      return csum % 0x1_0000;
    }
    var start := addr % 2;
    var first := if start == 1 then buf[0] else 0;
    var pos, acc := Body64(big, buf, addr, start, csum);
    var last := if pos < |buf| then buf[pos] else 0;
    r := Conclude64(big, buf, start, acc, first, last, pos, csum);
  }

  method Body64(big: bool, buf: seq<byte>, addr: nat, start: nat, csum: uint32) returns (pos: nat, acc: uint64)
    requires start == addr % 2 <= |buf|
    ensures pos <= |buf| <= pos + 1
    ensures Tracks(big, buf, start, pos, csum, acc) && acc <= 0x3_0002_fffc
  {
    pos, acc := start, csum;
    EvenStart(addr);
    DoubleBoundary(2, addr + start);
    OneFurther(2, addr + start);
    if |buf| - pos >= 2 && (addr + pos) / 2 % 2 == 1 {
      acc := Take16(big, Bits64, buf, addr, pos, acc, start, csum);
      pos := pos + 2;
    }
    var len := |buf| - pos;
    Halves(len);
    pos, acc := Quads64(big, buf, addr, pos, len / 2 / 2, acc, start, csum);
    if len / 2 % 2 == 1 {
      acc := Take16(big, Bits64, buf, addr, pos, acc, start, csum);
      pos := pos + 2;
    }
  }
}
