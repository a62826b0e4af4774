/** The checksum-and-copy forms: each stores every word it sums. The destination is
    dst[to..to + |src|]; `was` is what dst held before the call. */
module CopyChecksum {
  import opened Memory
  import opened OnesComplement
  import opened Accumulator
  import opened ScalarChecksum

  /** dst holds src[..pos] from `to` on and is otherwise as it was. */
  ghost predicate Copied(dst: seq<byte>, was: seq<byte>, to: nat, src: seq<byte>, pos: nat)
  {
    pos <= |src| && to + |src| <= |was| && dst == Overwrite(was, to, src[..pos])
  }

  lemma CopiedMore(was: seq<byte>, to: nat, src: seq<byte>, pos: nat, next: nat, before: seq<byte>, after: seq<byte>)
    requires Copied(before, was, to, src, pos) && pos <= next <= |src|
    requires after == Overwrite(before, to + pos, src[pos..next])
    ensures Copied(after, was, to, src, next)
  {
    OverwriteNext(was, to, src, pos, next);
  }

  // ---- storing what the next step sums ----

  method Move8(src: seq<byte>, pos: nat, dst: array<byte>, to: nat, ghost was: seq<byte>) returns (x: byte)
    requires pos < |src| && Copied(dst[..], was, to, src, pos)
    modifies dst
    ensures x == src[pos] && Copied(dst[..], was, to, src, pos + 1)
  {
    ghost var before := dst[..];
    x := src[pos];
    Store8(dst, to + pos, x);
    assert [x] == src[pos..pos + 1];
    CopiedMore(was, to, src, pos, pos + 1, before, dst[..]);
  }

  method Move16(big: bool, src: seq<byte>, pos: nat, dst: array<byte>, to: nat, ghost was: seq<byte>)
    requires pos + 2 <= |src| && Copied(dst[..], was, to, src, pos)
    modifies dst
    ensures Copied(dst[..], was, to, src, pos + 2)
  {
    ghost var before := dst[..];
    Store16(big, dst, to + pos, Word16(big, src, pos));
    StoreOfLoad16(big, src, pos);
    CopiedMore(was, to, src, pos, pos + 2, before, dst[..]);
  }

  method Move32(big: bool, src: seq<byte>, pos: nat, dst: array<byte>, to: nat, ghost was: seq<byte>)
    requires pos + 4 <= |src| && Copied(dst[..], was, to, src, pos)
    modifies dst
    ensures Copied(dst[..], was, to, src, pos + 4)
  {
    ghost var before := dst[..];
    Store32(big, dst, to + pos, Word32(big, src, pos));
    StoreOfLoad32(big, src, pos);
    CopiedMore(was, to, src, pos, pos + 4, before, dst[..]);
  }

  method Move64(big: bool, src: seq<byte>, pos: nat, dst: array<byte>, to: nat, ghost was: seq<byte>)
    requires pos + 8 <= |src| && Copied(dst[..], was, to, src, pos)
    modifies dst
    ensures Copied(dst[..], was, to, src, pos + 8)
  {
    ghost var before := dst[..];
    Store64(big, dst, to + pos, Word64(big, src, pos));
    StoreOfLoad64(big, src, pos);
    CopiedMore(was, to, src, pos, pos + 8, before, dst[..]);
  }

  lemma CopyDone(now: seq<byte>, was: seq<byte>, to: nat, src: seq<byte>)
    requires Copied(now, was, to, src, |src|)
    ensures now == Overwrite(was, to, src)
  {
    assert src[..|src|] == src;
  }

  /** Aligns the first byte: takes it alone when the source starts at an odd address. */
  method MoveFirst(src: seq<byte>, start: nat, dst: array<byte>, to: nat) returns (first: byte)
    requires start <= 1 && src != [] && to + |src| <= dst.Length
    modifies dst
    ensures first == if start == 1 then src[0] else 0
    ensures Copied(dst[..], old(dst[..]), to, src, start)
  {
    first := 0;
    ghost var was := dst[..];
    assert dst[..] == Overwrite(was, to, src[..0]);
    if start == 1 {
      first := Move8(src, 0, dst, to, was);
    }
  }

  /** The trailing odd byte, if there is one. */
  method MoveLast(src: seq<byte>, pos: nat, dst: array<byte>, to: nat, ghost was: seq<byte>) returns (last: byte)
    requires pos <= |src| <= pos + 1 && Copied(dst[..], was, to, src, pos)
    modifies dst
    ensures last == if pos < |src| then src[pos] else 0
    ensures dst[..] == Overwrite(was, to, src)
  {
    last := 0;
    if pos < |src| {
      last := Move8(src, pos, dst, to, was);
    }
    CopyDone(dst[..], was, to, src);
  }

  // ---- the forms ----

  /** do_csumcpy_8bit. */
  method CsumCopy8(big: bool, width: Width, src: seq<byte>, dst: array<byte>, to: nat, csum: uint32) returns (r: uint16)
    requires |src| < 0x1_0000 && to + |src| <= dst.Length
    modifies dst
    ensures dst[..] == Overwrite(old(dst[..]), to, src)
    ensures Delivers(big, width, src, !big, csum, r)
  {
    ghost var was := dst[..];
    var acc: nat := csum;
    var pos: nat, len: nat := 0, |src|;
    ghost var done: nat := 0;
    assert dst[..] == Overwrite(was, to, src[..0]);
    while len >= 2
      invariant pos + len == |src|
      invariant Copied(dst[..], was, to, src, pos)
      invariant Summed(true, src, 0, pos, done) && acc == Wrap(width, csum + done)
    {
      var x := Move8(src, pos, dst, to, was);
      var y := Move8(src, pos + 1, dst, to, was);
      acc, done := Add16(true, width, src, pos, acc, 0, csum, done);
      pos, len := pos + 2, len - 2;
    }
    var last := MoveLast(src, pos, dst, to, was);
    if len > 0 {
      acc := AddEnds(true, width, src, acc, 0, last, 0, pos, csum, done);
    }
    RestIsAll(src, true);
    r := Finish(big, width, src, !big, csum, acc);
  }

  method CopyAdd16(big: bool, width: Width, src: seq<byte>, ghost addr: nat, pos: nat, acc: nat,
                   ghost start: nat, ghost csum: nat, ghost done: nat,
                   dst: array<byte>, to: nat, ghost was: seq<byte>)
    returns (acc': nat, ghost done': nat)
    requires pos + 2 <= |src| && OnBoundary(2, addr + pos)
    requires Summed(big, src, start, pos, done) && acc == Wrap(width, csum + done)
    requires Copied(dst[..], was, to, src, pos)
    modifies dst
    ensures OnBoundary(2, addr + (pos + 2))
    ensures Summed(big, src, start, pos + 2, done') && acc' == Wrap(width, csum + done')
    ensures done' == done + Word16(big, src, pos)
    ensures Copied(dst[..], was, to, src, pos + 2)
  {
    Move16(big, src, pos, dst, to, was);
    acc', done' := AddLoaded16(big, width, src, addr, pos, acc, start, csum, done);
  }

  method CopyBlock16(big: bool, width: Width, src: seq<byte>, ghost addr: nat, pos: nat, sum: nat,
                     ghost start: nat, ghost csum: nat, ghost sofar: nat,
                     dst: array<byte>, to: nat, ghost was: seq<byte>)
    returns (acc: nat, ghost done: nat)
    requires pos + 8 <= |src| && OnBoundary(2, addr + pos)
    requires Summed(big, src, start, pos, sofar) && sum == Wrap(width, csum + sofar)
    requires Copied(dst[..], was, to, src, pos)
    modifies dst
    ensures OnBoundary(2, addr + (pos + 8))
    ensures Summed(big, src, start, pos + 8, done) && acc == Wrap(width, csum + done)
    ensures Copied(dst[..], was, to, src, pos + 8)
  {
    acc, done := CopyAdd16(big, width, src, addr, pos, sum, start, csum, sofar, dst, to, was);
    acc, done := CopyAdd16(big, width, src, addr, pos + 2, acc, start, csum, done, dst, to, was);
    acc, done := CopyAdd16(big, width, src, addr, pos + 4, acc, start, csum, done, dst, to, was);
    acc, done := CopyAdd16(big, width, src, addr, pos + 6, acc, start, csum, done, dst, to, was);
  }

  /** The 8-byte unrolls. */
  method CopyBlocks16(big: bool, width: Width, src: seq<byte>, ghost addr: nat, from: nat, n: nat, sum: nat,
                      ghost start: nat, ghost csum: nat, ghost sofar: nat,
                      dst: array<byte>, to: nat, ghost was: seq<byte>)
    returns (pos: nat, acc: nat, ghost done: nat)
    requires from + 8 * n <= |src| && OnBoundary(2, addr + from)
    requires Summed(big, src, start, from, sofar) && sum == Wrap(width, csum + sofar)
    requires Copied(dst[..], was, to, src, from)
    modifies dst
    ensures pos == from + 8 * n && OnBoundary(2, addr + pos)
    ensures Summed(big, src, start, pos, done) && acc == Wrap(width, csum + done)
    ensures Copied(dst[..], was, to, src, pos)
  {
    pos, acc, done := from, sum, sofar;
    var count8 := n;
    while count8 > 0
      invariant pos + 8 * count8 == from + 8 * n && 0 <= count8 && OnBoundary(2, addr + pos)
      invariant Copied(dst[..], was, to, src, pos)
      invariant Summed(big, src, start, pos, done) && acc == Wrap(width, csum + done)
    {
      acc, done := CopyBlock16(big, width, src, addr, pos, acc, start, csum, done, dst, to, was);
      pos, count8 := pos + 8, count8 - 1;
    }
  }

  /** The final 7 bytes: words while two bytes are left. */
  method CopyTail16(big: bool, width: Width, src: seq<byte>, ghost addr: nat, from: nat, sum: nat,
                    ghost start: nat, ghost csum: nat, ghost sofar: nat,
                    dst: array<byte>, to: nat, ghost was: seq<byte>)
    returns (pos: nat, acc: nat, ghost done: nat)
    requires from <= |src| && OnBoundary(2, addr + from)
    requires Summed(big, src, start, from, sofar) && sum == Wrap(width, csum + sofar)
    requires Copied(dst[..], was, to, src, from)
    modifies dst
    ensures pos <= |src| <= pos + 1 && Summed(big, src, start, pos, done) && acc == Wrap(width, csum + done)
    ensures Copied(dst[..], was, to, src, pos)
  {
    pos, acc, done := from, sum, sofar;
    var len := |src| - from;
    while len >= 2
      invariant pos + len == |src| && OnBoundary(2, addr + pos)
      invariant Copied(dst[..], was, to, src, pos)
      invariant Summed(big, src, start, pos, done) && acc == Wrap(width, csum + done)
    {
      acc, done := CopyAdd16(big, width, src, addr, pos, acc, start, csum, done, dst, to, was);
      pos, len := pos + 2, len - 2;
    }
  }

  /** do_csumcpy_16bit. */
  method CsumCopy16(big: bool, width: Width, src: seq<byte>, addr: nat, dst: array<byte>, to: nat, csum: uint32)
    returns (r: uint16)
    requires |src| < 0x1_0000 && to + |src| <= dst.Length
    modifies dst
    ensures dst[..] == Overwrite(old(dst[..]), to, src)
    ensures src == [] ==> r == csum % 0x1_0000
    ensures src != [] ==> Delivers(big, width, src, addr % 2 == 1, csum, r)
  {
    if src == [] {
      assert dst[..] == Overwrite(dst[..], to, src);
      return csum % 0x1_0000;
    }
    ghost var was := dst[..];
    var start := addr % 2;
    EvenStart(addr);
    var first := MoveFirst(src, start, dst, to);
    var pos, acc, done := CopyBlocks16(big, width, src, addr, start, (|src| - start) / 8, csum, start, csum, 0,
                                       dst, to, was);
    pos, acc, done := CopyTail16(big, width, src, addr, pos, acc, start, csum, done, dst, to, was);
    var last := MoveLast(src, pos, dst, to, was);
    acc := AddEnds(big, width, src, acc, first, last, start, pos, csum, done);
    r := Finish(big, width, src, start == 1, csum, acc);
  }

  method CopyWords32(big: bool, width: Width, src: seq<byte>, ghost addr: nat, from: nat, n: nat, sum: nat,
                     dst: array<byte>, to: nat, ghost was: seq<byte>)
    returns (pos: nat, acc: nat)
    requires |src| < 0x1_0000 && from + 4 * n <= |src| && sum < Modulus(width) && sum <= 0x1_0000_fffe
    requires OnBoundary(4, addr + from) && Copied(dst[..], was, to, src, from)
    modifies dst
    ensures OnBoundary(2, addr + pos)
    ensures pos == from + 4 * n && acc < Modulus(width)
    ensures acc <= 0x4005_0000 && Tracks(big, src, from, pos, sum, acc)
    ensures Copied(dst[..], was, to, src, pos)
  {
    pos, acc := from, sum;
    var count := n;
    while count > 0
      invariant 0 <= count && pos + 4 * count == from + 4 * n && OnBoundary(4, addr + pos)
      invariant acc < Modulus(width) && acc <= 0x4000_0000 * (pos + 5)
      invariant Tracks(big, src, from, pos, sum, acc)
      invariant Copied(dst[..], was, to, src, pos)
    {
      Move32(big, src, pos, dst, to, was);
      OneFurther(4, addr + pos);
      acc := Take32Carry(big, width, src, addr, pos, acc, from, sum);
      pos, count := pos + 4, count - 1;
    }
    HalfBoundary(2, addr + pos);
    Fold16Ones(acc);
    TracksFold(big, src, from, pos, sum, acc, Fold16(acc));
    acc := Fold16(acc);
  }

  method CopyHead32(big: bool, width: Width, src: seq<byte>, addr: nat, start: nat, csum: uint32,
                    dst: array<byte>, to: nat, ghost was: seq<byte>)
    returns (pos: nat, acc: nat)
    requires start <= |src| && OnBoundary(2, addr + start) && Copied(dst[..], was, to, src, start)
    modifies dst
    ensures var lead := Leads(|src|, addr, start);
            pos == From32(start, lead) && acc == Wrap(width, csum + Lead16(big, src, start, lead))
    ensures OnBoundary(2, addr + pos) && (|src| >= pos + 4 ==> OnBoundary(4, addr + pos))
    ensures Copied(dst[..], was, to, src, pos)
  {
    pos, acc := start, csum;
    DoubleBoundary(2, addr + start);
    OneFurther(2, addr + start);
    if |src| - pos >= 2 && (addr + pos) / 2 % 2 == 1 {
      Move16(big, src, pos, dst, to, was);
      acc := Wrap(width, acc + Load16(big, src, addr, pos));
      pos := pos + 2;
    }
  }

  method CopyBulk32(big: bool, width: Width, src: seq<byte>, ghost addr: nat, from: nat, sum: nat, ghost whole: nat,
                    dst: array<byte>, to: nat, ghost was: seq<byte>)
    returns (pos: nat, acc: nat, ghost mark: nat, ghost base: nat, ghost done: nat)
    requires from <= |src| < 0x1_0000 && sum == Wrap(width, whole) && whole <= 0x1_0000_fffe
    requires OnBoundary(2, addr + from) && (|src| >= from + 4 ==> OnBoundary(4, addr + from))
    requires Copied(dst[..], was, to, src, from)
    modifies dst
    ensures Based32(big, width, src, from, whole, mark, base, done)
    ensures Summed(big, src, mark, pos, done) && acc == Wrap(width, base + done) && |src| <= pos + 1
    ensures Copied(dst[..], was, to, src, pos)
  {
    pos, acc := from, sum;
    mark, base, done := from, whole, 0;
    var len := |src| - pos;
    Halves(len);
    var count := len / 2 / 2;
    if count > 0 {
      pos, acc := CopyWords32(big, width, src, addr, pos, count, acc, dst, to, was);
      mark, base := pos, acc;
    }
    if len / 2 % 2 == 1 {
      acc, done := CopyAdd16(big, width, src, addr, pos, acc, mark, base, done, dst, to, was);
      pos := pos + 2;
    }
  }

  method CopyBody32(big: bool, width: Width, src: seq<byte>, addr: nat, start: nat, csum: uint32,
                    dst: array<byte>, to: nat, ghost was: seq<byte>)
    returns (pos: nat, acc: nat, ghost mark: nat, ghost base: nat, ghost done: nat)
    requires start == addr % 2 <= |src| < 0x1_0000 && Copied(dst[..], was, to, src, start)
    modifies dst
    ensures var lead := Leads(|src|, addr, start);
            Based32(big, width, src, From32(start, lead), csum + Lead16(big, src, start, lead), mark, base, done)
    ensures Summed(big, src, mark, pos, done) && acc == Wrap(width, base + done) && |src| <= pos + 1
    ensures Copied(dst[..], was, to, src, pos)
  {
    EvenStart(addr);
    ghost var lead := Leads(|src|, addr, start);
    var from, sum := CopyHead32(big, width, src, addr, start, csum, dst, to, was);
    pos, acc, mark, base, done := CopyBulk32(big, width, src, addr, from, sum, csum + Lead16(big, src, start, lead),
                                             dst, to, was);
  }

  method CopySum32(big: bool, width: Width, src: seq<byte>, addr: nat, dst: array<byte>, to: nat, csum: uint32)
    returns (r: uint16)
    requires 0 < |src| < 0x1_0000 && to + |src| <= dst.Length
    modifies dst
    ensures dst[..] == Overwrite(old(dst[..]), to, src)
    ensures r == Value32(big, width, src, addr, csum)
  {
    ghost var was := dst[..];
    var start := addr % 2;
    var first := MoveFirst(src, start, dst, to);
    var pos, acc, mark, base, done := CopyBody32(big, width, src, addr, start, csum, dst, to, was);
    var last := MoveLast(src, pos, dst, to, was);
    Whole32(big, width, src, addr, csum, mark, base, done, pos, first, last);
    r := Conclude32(big, width, start == 1, acc, first, last, base + done);
  }

  /** do_csumcpy_32bit. */
  method CsumCopy32(big: bool, width: Width, src: seq<byte>, addr: nat, dst: array<byte>, to: nat, csum: uint32)
    returns (r: uint16)
    requires |src| < 0x1_0000 && to + |src| <= dst.Length
    modifies dst
    ensures dst[..] == Overwrite(old(dst[..]), to, src)
    ensures src == [] ==> r == csum % 0x1_0000
    ensures src != [] ==> Delivers32(big, width, src, addr, csum, r)
    ensures csum == 0 ==> r == Checksum(big, src)
  {
    if src == [] {
      assert dst[..] == Overwrite(dst[..], to, src);
      return csum % 0x1_0000;
    }
    Value32Iff(big, width, src, addr, csum);
    r := CopySum32(big, width, src, addr, dst, to, csum);
  }

  /** One 64-bit word: stored, and added with the carry it causes. */
  method Copy64Carry(big: bool, src: seq<byte>, ghost addr: nat, pos: nat, acc: uint64,
                     ghost start: nat, ghost csum: nat, dst: array<byte>, to: nat, ghost was: seq<byte>)
    returns (acc': uint64)
    requires pos + 8 <= |src| && OnBoundary(8, addr + pos)
    requires Tracks(big, src, start, pos, csum, acc) && Copied(dst[..], was, to, src, pos)
    modifies dst
    ensures OnBoundary(8, addr + (pos + 8))
    ensures Tracks(big, src, start, pos + 8, csum, acc') && Copied(dst[..], was, to, src, pos + 8)
  {
    Move64(big, src, pos, dst, to, was);
    OneFurther(8, addr + pos);
    acc' := Take64Carry(big, src, addr, pos, acc, start, csum);
  }

  /** A 64-byte block. */
  method CopyBlock64(big: bool, src: seq<byte>, ghost addr: nat, pos: nat, sum: uint64,
                     ghost start: nat, ghost csum: nat, dst: array<byte>, to: nat, ghost was: seq<byte>)
    returns (acc: uint64)
    requires pos + 64 <= |src| && OnBoundary(8, addr + pos)
    requires Tracks(big, src, start, pos, csum, sum) && Copied(dst[..], was, to, src, pos)
    modifies dst
    ensures OnBoundary(8, addr + (pos + 64))
    ensures Tracks(big, src, start, pos + 64, csum, acc) && Copied(dst[..], was, to, src, pos + 64)
  {
    acc := Copy64Carry(big, src, addr, pos, sum, start, csum, dst, to, was);
    acc := Copy64Carry(big, src, addr, pos + 8, acc, start, csum, dst, to, was);
    acc := Copy64Carry(big, src, addr, pos + 16, acc, start, csum, dst, to, was);
    acc := Copy64Carry(big, src, addr, pos + 24, acc, start, csum, dst, to, was);
    acc := Copy64Carry(big, src, addr, pos + 32, acc, start, csum, dst, to, was);
    acc := Copy64Carry(big, src, addr, pos + 40, acc, start, csum, dst, to, was);
    acc := Copy64Carry(big, src, addr, pos + 48, acc, start, csum, dst, to, was);
    acc := Copy64Carry(big, src, addr, pos + 56, acc, start, csum, dst, to, was);
  }

  /** The 64-byte blocks. */
  method CopyBlocks64(big: bool, src: seq<byte>, ghost addr: nat, from: nat, n: nat, sum: uint64,
                      ghost start: nat, ghost csum: nat, dst: array<byte>, to: nat, ghost was: seq<byte>)
    returns (pos: nat, acc: uint64)
    requires from + 64 * n <= |src| && OnBoundary(8, addr + from)
    requires Tracks(big, src, start, from, csum, sum) && Copied(dst[..], was, to, src, from)
    modifies dst
    ensures pos == from + 64 * n && OnBoundary(8, addr + pos)
    ensures Tracks(big, src, start, pos, csum, acc) && Copied(dst[..], was, to, src, pos)
  {
    pos, acc := from, sum;
    var count64 := n;
    while count64 > 0
      invariant 0 <= count64 && pos + 64 * count64 == from + 64 * n && OnBoundary(8, addr + pos)
      invariant Tracks(big, src, start, pos, csum, acc) && Copied(dst[..], was, to, src, pos)
    {
      acc := CopyBlock64(big, src, addr, pos, acc, start, csum, dst, to, was);
      count64, pos := count64 - 1, pos + 64;
    }
  }

  /** The last words, and a fold. */
  method CopyLast64(big: bool, src: seq<byte>, ghost addr: nat, from: nat, n: nat, sum: uint64,
                    ghost start: nat, ghost csum: nat, dst: array<byte>, to: nat, ghost was: seq<byte>)
    returns (pos: nat, acc: uint64)
    requires from + 8 * n <= |src| && OnBoundary(8, addr + from)
    requires Tracks(big, src, start, from, csum, sum) && Copied(dst[..], was, to, src, from)
    modifies dst
    ensures pos == from + 8 * n && OnBoundary(8, addr + pos)
    ensures Tracks(big, src, start, pos, csum, acc) && acc <= 0x1_ffff_fffe
    ensures Copied(dst[..], was, to, src, pos)
  {
    pos, acc := from, sum;
    var count := n;
    while count > 0
      invariant 0 <= count && pos + 8 * count == from + 8 * n && OnBoundary(8, addr + pos)
      invariant Tracks(big, src, start, pos, csum, acc) && Copied(dst[..], was, to, src, pos)
    {
      acc := Copy64Carry(big, src, addr, pos, acc, start, csum, dst, to, was);
      count, pos := count - 1, pos + 8;
    }
    Fold32Ones(acc);
    TracksFold(big, src, start, pos, csum, acc, Fold32(acc));
    acc := Fold32(acc);
  }

  /** 64-byte blocks, a fold if there were any, then the last words up to 56 bytes and a fold. */
  method CopyWords64(big: bool, src: seq<byte>, ghost addr: nat, from: nat, n: nat, sum: uint64,
                     ghost start: nat, ghost csum: nat, dst: array<byte>, to: nat, ghost was: seq<byte>)
    returns (pos: nat, acc: uint64)
    requires from + 8 * n <= |src| && OnBoundary(8, addr + from)
    requires Tracks(big, src, start, from, csum, sum) && Copied(dst[..], was, to, src, from)
    modifies dst
    ensures pos == from + 8 * n && OnBoundary(8, addr + pos)
    ensures Tracks(big, src, start, pos, csum, acc) && acc <= 0x1_ffff_fffe
    ensures Copied(dst[..], was, to, src, pos)
  {
    pos, acc := from, sum;
    var count := n;
    var count64 := count / 8;
    if count64 > 0 {
      pos, acc := CopyBlocks64(big, src, addr, pos, count64, acc, start, csum, dst, to, was);
      Fold32Ones(acc);
      TracksFold(big, src, start, pos, csum, acc, Fold32(acc));
      acc := Fold32(acc);
      count := count % 8;
    }
    pos, acc := CopyLast64(big, src, addr, pos, count, acc, start, csum, dst, to, was);
  }

  /** A 32-bit word up to an 8-byte boundary. */
  method CopyHead64(big: bool, src: seq<byte>, addr: nat, from: nat, n: nat, sum: uint64,
                    ghost start: nat, ghost csum: nat, dst: array<byte>, to: nat, ghost was: seq<byte>)
    returns (count: nat, pos: nat, acc: uint64)
    requires 0 < n && from + 4 * n <= |src| && OnBoundary(4, addr + from)
    requires Tracks(big, src, start, from, csum, sum) && sum <= 0x1_0000_fffe
    requires Copied(dst[..], was, to, src, from)
    modifies dst
    ensures pos + 4 * count == from + 4 * n && OnBoundary(8, addr + pos)
    ensures Tracks(big, src, start, pos, csum, acc) && acc <= 0x2_0000_fffd
    ensures Copied(dst[..], was, to, src, pos)
  {
    count, pos, acc := n, from, sum;
    DoubleBoundary(4, addr + pos);
    if (addr + pos) / 4 % 2 == 1 {
      Move32(big, src, pos, dst, to, was);
      acc := Take32(big, src, addr, pos, acc, start, csum);
      count, pos := count - 1, pos + 4;
    }
  }

  method CopyQuads64(big: bool, src: seq<byte>, addr: nat, from: nat, n: nat, sum: uint64, ghost start: nat,
                     ghost csum: nat, dst: array<byte>, to: nat, ghost was: seq<byte>)
    returns (pos: nat, acc: uint64)
    requires OnBoundary(2, addr + from) && (n > 0 ==> OnBoundary(4, addr + from))
    requires from + 4 * n <= |src| && Tracks(big, src, start, from, csum, sum) && sum <= 0x1_0000_fffe
    requires Copied(dst[..], was, to, src, from)
    modifies dst
    ensures pos == from + 4 * n && OnBoundary(2, addr + pos)
    ensures Tracks(big, src, start, pos, csum, acc) && acc <= 0x3_0000_fffd
    ensures Copied(dst[..], was, to, src, pos)
  {
    pos, acc := from, sum;
    var count := n;
    if count > 0 {
      count, pos, acc := CopyHead64(big, src, addr, pos, count, acc, start, csum, dst, to, was);
      var left := count % 2;
      count := count / 2;
      if count > 0 {
        pos, acc := CopyWords64(big, src, addr, pos, count, acc, start, csum, dst, to, was);
      }
      HalfBoundary(4, addr + pos);
      if left == 1 {
        Move32(big, src, pos, dst, to, was);
        acc := Take32(big, src, addr, pos, acc, start, csum);
        pos := pos + 4;
      }
      HalfBoundary(2, addr + pos);
    }
  }

  /** The 16-bit word at either end. */
  method CopyTake16(big: bool, src: seq<byte>, ghost addr: nat, pos: nat, acc: uint64,
                    ghost start: nat, ghost csum: nat, dst: array<byte>, to: nat, ghost was: seq<byte>)
    returns (acc': uint64)
    requires pos + 2 <= |src| && OnBoundary(2, addr + pos)
    requires acc <= 0x3_0001_fffd && Tracks(big, src, start, pos, csum, acc)
    requires Copied(dst[..], was, to, src, pos)
    modifies dst
    ensures OnBoundary(2, addr + (pos + 2))
    ensures acc' <= acc + 0xffff && Tracks(big, src, start, pos + 2, csum, acc')
    ensures Copied(dst[..], was, to, src, pos + 2)
  {
    Move16(big, src, pos, dst, to, was);
    acc' := Take16(big, Bits64, src, addr, pos, acc, start, csum);
  }

  method CopyBody64(big: bool, src: seq<byte>, addr: nat, start: nat, csum: uint32,
                    dst: array<byte>, to: nat, ghost was: seq<byte>)
    returns (pos: nat, acc: uint64)
    requires start == addr % 2 <= |src| && Copied(dst[..], was, to, src, start)
    modifies dst
    ensures pos <= |src| <= pos + 1
    ensures Tracks(big, src, start, pos, csum, acc) && acc <= 0x3_0002_fffc
    ensures Copied(dst[..], was, to, src, pos)
  {
    pos, acc := start, csum;
    EvenStart(addr);
    DoubleBoundary(2, addr + start);
    OneFurther(2, addr + start);
    if |src| - pos >= 2 && (addr + pos) / 2 % 2 == 1 {
      acc := CopyTake16(big, src, addr, pos, acc, start, csum, dst, to, was);
      pos := pos + 2;
    }
    var len := |src| - pos;
    Halves(len);
    pos, acc := CopyQuads64(big, src, addr, pos, len / 2 / 2, acc, start, csum, dst, to, was);
    if len / 2 % 2 == 1 {
      acc := CopyTake16(big, src, addr, pos, acc, start, csum, dst, to, was);
      pos := pos + 2;
    }
  }

  /** do_csumcpy_64bit. */
  method CsumCopy64(big: bool, src: seq<byte>, addr: nat, dst: array<byte>, to: nat, csum: uint32) returns (r: uint16)
    requires |src| < 0x1_0000 && to + |src| <= dst.Length
    modifies dst
    ensures dst[..] == Overwrite(old(dst[..]), to, src)
    ensures src == [] ==> r == csum % 0x1_0000
    ensures src != [] ==> r == Seeded(big, src, addr % 2 == 1, csum)
    ensures csum == 0 ==> r == Checksum(big, src)
  {
    if src == [] {
      assert dst[..] == Overwrite(dst[..], to, src);
      return csum % 0x1_0000;
    }
    ghost var was := dst[..];
    var start := addr % 2;
    var first := MoveFirst(src, start, dst, to);
    var pos, acc := CopyBody64(big, src, addr, start, csum, dst, to, was);
    var last := MoveLast(src, pos, dst, to, was);
    r := Conclude64(big, src, start, acc, first, last, pos, csum);
  }
}
