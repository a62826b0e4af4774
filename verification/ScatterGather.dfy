/** The sender's checksum-and-copy over an application's scatter/gather vector. */
module ScatterGather {
  import opened Memory
  import opened OnesComplement
  import opened Accumulator
  import opened ChecksumAlgebra

  lemma {:induction false} FlatAppend(vector: seq<seq<byte>>, i: nat)
    requires i < |vector|
    ensures Flat(vector[..i + 1]) == Flat(vector[..i]) + vector[i]
  {
    assert vector[..i + 1][..i] == vector[..i];
  }

  lemma {:induction false} FlatMonotone(vector: seq<seq<byte>>, i: nat, j: nat)
    requires i <= j <= |vector|
    ensures Flat(vector[..i]) <= Flat(vector[..j])
    decreases j
  {
    if i < j {
      FlatMonotone(vector, i, j - 1);
      FlatAppend(vector, j - 1);
    }
  }

  /** A payload accumulator combined with the header's sum and folded. */
  function Sent(big: bool, header: seq<byte>, odata: uint32): uint16
  {
    FinalSum(BlockSum(Checksum(big, header), odata, |header|))
  }

  /** If the accumulator stands for the payload, the value sent is the one-shot value of the packet. */
  lemma {:induction false} SentIsOneShot(big: bool, header: seq<byte>, payload: seq<byte>, odata: uint32)
    requires Ones(odata) == Checksum(big, payload) && odata <= 0xffff * |payload|
    requires |header| + |payload| < 0x1_0000
    ensures Sent(big, header, odata) == FinalSum(Checksum(big, header + payload))
  {
    var c := Checksum(big, header);
    OnesIdempotent(WordSum(header, big));
    BlockSumConcat(big, header, payload, c, odata);
    OnesIdempotent(WordSum(header + payload, big));
    SentBound(big, header, payload, odata);
    SameFinal(BlockSum(c, odata, |header|), Checksum(big, header + payload));
  }

  lemma {:induction false} SameFinal(a: uint32, b: uint32)
    requires Ones(a) == Ones(b) && a != 0xffff_ffff && b != 0xffff_ffff
    ensures FinalSum(a) == FinalSum(b)
  {
    OnesEqual(a, b);
    FinalSumResidue(a, b);
  }

  lemma {:induction false} SentBound(big: bool, header: seq<byte>, payload: seq<byte>, odata: uint32)
    requires odata <= 0xffff * |payload| && |header| + |payload| < 0x1_0000
    ensures BlockSum(Checksum(big, header), odata, |header|) < 0xffff_ffff
  {
    PieceBound(big, header);
    var other := if |header| % 2 == 1 then SwapHalves(odata) else odata;
    if |header| % 2 == 1 {
      SwapHalvesBound(odata);
    }
  }

  lemma SwapHalvesBound(c: uint32)
    requires c <= 0xfffe_0001
    ensures SwapHalves(c) <= 0xfffe_ffff
  {
  }

  // ---- send_odatav: each element is combined at the length of the element before it ----

  function VectorChain(big: bool, vector: seq<seq<byte>>): uint32
  {
    var n := |vector|;
    if n == 0 then 0
    else if n == 1 then Checksum(big, vector[0])
    else BlockSum(VectorChain(big, vector[..n - 1]), Checksum(big, vector[n - 1]), |vector[n - 2]|)
  }

  /** The first i elements have been copied and summed. */
  ghost predicate Gathered(big: bool, vector: seq<seq<byte>>, i: nat, payload: seq<byte>, was: seq<byte>, odata: uint32)
  {
    && i <= |vector| && |Flat(vector[..i])| <= |was|
    && payload == Flat(vector[..i]) + was[|Flat(vector[..i])|..]
    && odata == VectorChain(big, vector[..i])
  }

  /** The copy of element i faults, from where it is to where it goes. */
  ghost predicate ElementFaults(copyEngine: CopyEngine, vector: seq<seq<byte>>, addrs: seq<nat>, i: nat,
                                payloadAddr: nat)
    requires i < |vector| == |addrs|
  {
    copyEngine.Faults(|vector[i]|, addrs[i], payloadAddr + |Flat(vector[..i])|)
  }

  /** The first k elements are copied without a fault. */
  ghost predicate ElementsClear(copyEngine: CopyEngine, vector: seq<seq<byte>>, addrs: seq<nat>, k: nat,
                                payloadAddr: nat)
    requires k <= |vector| == |addrs|
  {
    forall i :: 0 <= i < k ==> !ElementFaults(copyEngine, vector, addrs, i, payloadAddr)
  }

  lemma {:induction false} OneMoreClear(copyEngine: CopyEngine, vector: seq<seq<byte>>, addrs: seq<nat>, i: nat,
                                        dst: nat, payloadAddr: nat)
    requires i < |vector| == |addrs| && dst == |Flat(vector[..i])|
    ensures ElementsClear(copyEngine, vector, addrs, i + 1, payloadAddr)
       <==> ElementsClear(copyEngine, vector, addrs, i, payloadAddr)
            && !copyEngine.Faults(|vector[i]|, addrs[i], payloadAddr + dst)
  {
    assert copyEngine.Faults(|vector[i]|, addrs[i], payloadAddr + dst)
        == ElementFaults(copyEngine, vector, addrs, i, payloadAddr);
  }

  /** One element: copied to dst, behind the others, and combined at the length of the one before. */
  method Gather(copyEngine: CopyEngine, big: bool, width: Width, vector: seq<seq<byte>>, addrs: seq<nat>, i: nat,
                payload: array<byte>, dst: nat, payloadAddr: nat, odata: uint32, ghost was: seq<byte>)
    returns (ok: bool, odata': uint32)
    requires copyEngine.Vector() ==> !big
    requires i < |vector| == |addrs| && ElementsClear(copyEngine, vector, addrs, i, payloadAddr)
    requires Gathered(big, vector, i, payload[..], was, odata)
    requires dst == |Flat(vector[..i])| && |Flat(vector)| <= |was| && |Flat(vector)| < 0x1_0000
    modifies payload
    ensures ok <==> !copyEngine.Faults(|vector[i]|, addrs[i], payloadAddr + dst)
    ensures ok <==> ElementsClear(copyEngine, vector, addrs, i + 1, payloadAddr)
    ensures ok ==> Gathered(big, vector, i + 1, payload[..], was, odata')
    ensures !copyEngine.Vector() ==> ok
  {
    ghost var before := payload[..];
    FlatAppend(vector, i);
    ElementFits(vector, i);
    OneMoreClear(copyEngine, vector, addrs, i, dst, payloadAddr);
    BehindFlat(before, was, Flat(vector[..i]), vector[i]);
    assert vector[..i + 1][..i] == vector[..i];
    var element := PartialCopy(copyEngine, big, width, vector[i], addrs[i], payload, dst, payloadAddr + dst, 0);
    ok, odata' := element.Some?, odata;
    if ok && i == 0 {
      odata' := element.value;
    } else if ok {
      odata' := BlockAdd(odata, element.value, |vector[i - 1]|);
    }
  }

  /** The scatter/gather part of send_odatav: every element is copied behind the one before and
      the accumulator is sealed with the header's sum. */
  method SendOdatav(engine: Engine, copyEngine: CopyEngine, big: bool, width: Width,
                    header: seq<byte>, headerAddr: nat, vector: seq<seq<byte>>, addrs: seq<nat>,
                    payload: array<byte>, payloadAddr: nat)
    returns (checksum: Option<uint16>, odata: uint32)
    requires (engine.Vector() || copyEngine.Vector()) ==> !big
    requires vector != [] && |addrs| == |vector|
    requires |header| + |Flat(vector)| < 0x1_0000 && |Flat(vector)| <= payload.Length
    modifies payload
    ensures checksum.None?
       <==> exists i :: 0 <= i < |vector| && ElementFaults(copyEngine, vector, addrs, i, payloadAddr)
    ensures checksum.Some? ==> payload[..] == Flat(vector) + old(payload[..])[|Flat(vector)|..]
    ensures checksum.Some? ==> odata == VectorChain(big, vector) && checksum.value == Sent(big, header, odata)
    ensures !copyEngine.Vector() ==> checksum.Some?
  {
    var unfoldedHeader := Partial(engine, big, width, header, headerAddr, 0);
    var ok;
    ok, odata := GatherAll(copyEngine, big, width, vector, addrs, payload, payloadAddr);
    assert vector[..|vector|] == vector;
    if !ok {
      return None, 0;
    }
    var sum := BlockAdd(unfoldedHeader, odata, |header|);
    var value := Fold(sum);
    checksum := Some(value);
  }

  /** Its loop: `ok` is false when a store faulted. */
  method GatherAll(copyEngine: CopyEngine, big: bool, width: Width, vector: seq<seq<byte>>, addrs: seq<nat>,
                   payload: array<byte>, payloadAddr: nat)
    returns (ok: bool, odata: uint32)
    requires copyEngine.Vector() ==> !big
    requires vector != [] && |addrs| == |vector|
    requires |Flat(vector)| < 0x1_0000 && |Flat(vector)| <= payload.Length
    modifies payload
    ensures ok <==> ElementsClear(copyEngine, vector, addrs, |vector|, payloadAddr)
    ensures ok ==> Gathered(big, vector, |vector|, payload[..], old(payload[..]), odata)
    ensures !copyEngine.Vector() ==> ok
  {
    ghost var was := payload[..];
    var dst: nat := 0;
    ok, odata := Gather(copyEngine, big, width, vector, addrs, 0, payload, dst, payloadAddr, 0, was);
    var i := 1;
    while i < |vector| && ok
      invariant 1 <= i <= |vector| && dst == |Flat(vector[..i - 1])|
      invariant ok ==> Gathered(big, vector, i, payload[..], was, odata)
      invariant ok <==> ElementsClear(copyEngine, vector, addrs, i, payloadAddr)
      invariant !copyEngine.Vector() ==> ok
    {
      FlatAppend(vector, i - 1);
      dst := dst + |vector[i - 1]|;
      ok, odata := Gather(copyEngine, big, width, vector, addrs, i, payload, dst, payloadAddr, odata, was);
      i := i + 1;
    }
  }

  lemma {:induction false} ElementFits(vector: seq<seq<byte>>, i: nat)
    requires i < |vector|
    ensures |Flat(vector[..i])| + |vector[i]| == |Flat(vector[..i + 1])| <= |Flat(vector)|
  {
    FlatAppend(vector, i);
    FlatMonotone(vector, i + 1, |vector|);
    assert vector[..|vector|] == vector;
  }

  lemma BehindFlat(before: seq<byte>, was: seq<byte>, flat: seq<byte>, piece: seq<byte>)
    requires |flat| + |piece| <= |was| && before == flat + was[|flat|..]
    ensures Overwrite(before, |flat|, piece) == (flat + piece) + was[|flat + piece|..]
  {
  }

  function Lengths(vector: seq<seq<byte>>): seq<nat>
  {
    seq(|vector|, i requires 0 <= i < |vector| => |vector[i]|)
  }

  function Sum(lens: seq<nat>): nat
  {
    if lens == [] then 0 else Sum(lens[..|lens| - 1]) + lens[|lens| - 1]
  }

  /** Every nonempty element from the third on has an even number of bytes before its predecessor:
      then its predecessor's length has the parity of its own offset. */
  predicate SafeLengths(lens: seq<nat>)
  {
    forall i :: 2 <= i < |lens| && lens[i] > 0 ==> Sum(lens[..i - 1]) % 2 == 0
  }

  lemma {:induction false} FlatLength(vector: seq<seq<byte>>)
    ensures |Flat(vector)| == Sum(Lengths(vector))
  {
    if vector != [] {
      var n := |vector| - 1;
      FlatLength(vector[..n]);
      assert Lengths(vector)[..n] == Lengths(vector[..n]);
    }
  }

  lemma {:induction false} SafePrefix(lens: seq<nat>)
    requires SafeLengths(lens) && lens != []
    ensures SafeLengths(lens[..|lens| - 1])
  {
    var n := |lens| - 1;
    forall i | 2 <= i < n && lens[i] > 0
      ensures Sum(lens[..n][..i - 1]) % 2 == 0
    {
      assert lens[..n][..i - 1] == lens[..i - 1];
    }
  }

  lemma {:induction false} BlockSumEmpty(csum: uint32, offset: nat)
    ensures BlockSum(csum, 0, offset) == csum
  {
  }

  /** With safe lengths the element-wise combination stands for the whole payload. */
  lemma {:induction false} SafeVector(big: bool, vector: seq<seq<byte>>)
    requires SafeLengths(Lengths(vector)) && |Flat(vector)| < 0x1_0000
    ensures Ones(VectorChain(big, vector)) == Checksum(big, Flat(vector))
    ensures VectorChain(big, vector) <= 0xffff * |Flat(vector)|
  {
    var n := |vector| - 1;
    if n == 0 {
      OnesIdempotent(WordSum(vector[0], big));
      PieceBound(big, vector[0]);
      assert vector[..0] == [] && Flat(vector) == [] + vector[0] == vector[0];
    } else if n > 0 {
      var before, last := vector[..n], vector[n];
      assert Lengths(vector)[..n] == Lengths(before);
      SafePrefix(Lengths(vector));
      SafeVector(big, before);
      OnesIdempotent(WordSum(last, big));
      BlockSumConcat(big, Flat(before), last, VectorChain(big, before), Checksum(big, last));
      PieceBound(big, last);
      ElementBound(VectorChain(big, before), Checksum(big, last), |vector[n - 1]|);
      if last == [] {
        BlockSumEmpty(VectorChain(big, before), |vector[n - 1]|);
        BlockSumEmpty(VectorChain(big, before), |Flat(before)|);
      } else {
        SafeOffset(vector, n);
        SameParity(VectorChain(big, before), Checksum(big, last), |vector[n - 1]|, |Flat(before)|);
      }
    }
  }

  lemma {:induction false} ElementBound(csum: uint32, csum2: uint32, offset: nat)
    requires csum + csum2 < 0x1_0000_0000 && csum + SwapHalves(csum2) < 0x1_0000_0000
    ensures BlockSum(csum, csum2, offset) == csum + if offset % 2 == 1 then SwapHalves(csum2) else csum2
  {
  }

  lemma SameParity(csum: uint32, csum2: uint32, a: nat, b: nat)
    requires a % 2 == b % 2
    ensures BlockSum(csum, csum2, a) == BlockSum(csum, csum2, b)
  {
  }

  lemma {:induction false} SafeOffset(vector: seq<seq<byte>>, n: nat)
    requires 1 <= n < |vector| && vector[n] != [] && SafeLengths(Lengths(vector))
    ensures |vector[n - 1]| % 2 == |Flat(vector[..n])| % 2
  {
    FlatAppend(vector, n - 1);
    EvenBefore(vector, n);
    EvenPlus(|Flat(vector[..n - 1])|, |vector[n - 1]|);
  }

  lemma {:induction false} EvenBefore(vector: seq<seq<byte>>, n: nat)
    requires 1 <= n < |vector| && vector[n] != [] && SafeLengths(Lengths(vector))
    ensures |Flat(vector[..n - 1])| % 2 == 0
  {
    var lens := Lengths(vector);
    FlatLength(vector[..n - 1]);
    assert Lengths(vector[..n - 1]) == lens[..n - 1];
    if n > 1 {
      assert lens[n] > 0;
    }
  }

  lemma EvenPlus(a: nat, b: nat)
    requires a % 2 == 0
    ensures b % 2 == (a + b) % 2
  {
  }

  // ---- and without them it does not ----

  /** All elements are zero but for a 1 at the front of element k. */
  ghost predicate Marked(vector: seq<seq<byte>>, k: nat)
  {
    && k < |vector| && vector[k] != [] && vector[k][0] == 1
    && (forall j :: 1 <= j < |vector[k]| ==> vector[k][j] == 0)
    && (forall i :: 0 <= i < |vector| && i != k ==> Blank(vector[i]))
  }

  ghost predicate Blank(s: seq<byte>)
  {
    forall j :: 0 <= j < |s| ==> s[j] == 0
  }

  /** The marked byte's weight in a word that does or does not start with it. */
  function Weight(high: bool): uint16
  {
    if high then 0x100 else 1
  }

  lemma {:induction false} MarkSum(s: seq<byte>, high: bool)
    requires s != [] && s[0] == 1 && forall j :: 1 <= j < |s| ==> s[j] == 0
    ensures WordSum(s, high) == Weight(high)
  {
    WordSumZero(s[1..], !high);
  }

  lemma {:induction false} MarkBlock(csum: uint32, high: bool, offset: nat)
    requires csum <= 0xffff
    ensures BlockSum(csum, Weight(high), offset) == csum + Weight(high != (offset % 2 == 1))
  {
    WeightSwaps(high);
    ElementBound(csum, Weight(high), offset);
  }

  lemma {:induction false} WeightSwaps(high: bool)
    ensures SwapHalves(Weight(high)) == Weight(!high)
  {
    SwapHalvesSmall(Weight(high));
  }

  lemma {:induction false} ChainStep(big: bool, vector: seq<seq<byte>>, n: nat)
    requires 1 <= n < |vector|
    ensures VectorChain(big, vector[..n + 1])
         == BlockSum(VectorChain(big, vector[..n]), Checksum(big, vector[n]), |vector[n - 1]|)
  {
    assert vector[..n + 1][..n] == vector[..n];
  }

  lemma {:induction false} BlankElement(big: bool, vector: seq<seq<byte>>, k: nat, i: nat)
    requires Marked(vector, k) && i < |vector| && i != k
    ensures Checksum(big, vector[i]) == 0
  {
    assert Blank(vector[i]);
    WordSumZero(vector[i], big);
  }

  lemma ChainOne(big: bool, vector: seq<seq<byte>>)
    requires vector != []
    ensures VectorChain(big, vector[..1]) == Checksum(big, vector[0])
  {
  }

  /** A blank element changes nothing. */
  lemma {:induction false} BlankStep(big: bool, vector: seq<seq<byte>>, k: nat, n: nat)
    requires Marked(vector, k) && 1 <= n < |vector| && n != k
    ensures VectorChain(big, vector[..n + 1]) == VectorChain(big, vector[..n])
  {
    BlankElement(big, vector, k, n);
    ChainStep(big, vector, n);
    BlockSumEmpty(VectorChain(big, vector[..n]), |vector[n - 1]|);
  }

  /** Before the marked element there is nothing. */
  lemma {:induction false} BlankChain(big: bool, vector: seq<seq<byte>>, k: nat, n: nat)
    requires Marked(vector, k) && n <= k
    ensures VectorChain(big, vector[..n]) == 0
  {
    if n == 1 {
      BlankElement(big, vector, k, 0);
      ChainOne(big, vector);
    } else if n > 1 {
      BlankChain(big, vector, k, n - 1);
      BlankStep(big, vector, k, n - 1);
    }
  }

  lemma {:induction false} MarkedHere(big: bool, vector: seq<seq<byte>>, k: nat)
    requires Marked(vector, k) && 1 <= k
    ensures VectorChain(big, vector[..k + 1]) == Weight(big != (|vector[k - 1]| % 2 == 1))
  {
    BlankChain(big, vector, k, k);
    assert Checksum(big, vector[k]) == Weight(big) by { MarkSum(vector[k], big); }
    ChainStep(big, vector, k);
    MarkBlock(0, big, |vector[k - 1]|);
  }

  /** What the element-wise combination makes of the marked byte. */
  lemma {:induction false} MarkedChain(big: bool, vector: seq<seq<byte>>, k: nat, n: nat)
    requires Marked(vector, k) && 1 <= k < n <= |vector|
    ensures VectorChain(big, vector[..n]) == Weight(big != (|vector[k - 1]| % 2 == 1))
  {
    if n == k + 1 {
      MarkedHere(big, vector, k);
    } else {
      MarkedChain(big, vector, k, n - 1);
      BlankStep(big, vector, k, n - 1);
    }
  }

  /** And what the payload's word sum really is. */
  lemma {:induction false} MarkedFlat(high: bool, vector: seq<seq<byte>>, k: nat, n: nat)
    requires Marked(vector, k) && n <= |vector|
    ensures WordSum(Flat(vector[..n]), high) == if n <= k then 0 else Weight(high != (|Flat(vector[..k])| % 2 == 1))
  {
    if n > 0 {
      MarkedFlat(high, vector, k, n - 1);
      var before := Flat(vector[..n - 1]);
      FlatAppend(vector, n - 1);
      WordSumConcat(before, vector[n - 1], high);
      if n - 1 == k {
        MarkSum(vector[k], high != (|before| % 2 == 1));
      } else {
        WordSumZero(vector[n - 1], high != (|before| % 2 == 1));
      }
    }
  }

  /** A marked element behind an odd number of bytes before its predecessor is put in the wrong half
      of its word. */
  lemma {:induction false} MarkedWrong(big: bool, header: seq<byte>, vector: seq<seq<byte>>, k: nat)
    requires Marked(vector, k) && 2 <= k && |Flat(vector[..k - 1])| % 2 == 1
    requires |header| + |Flat(vector)| < 0x1_0000
    ensures Sent(big, header, VectorChain(big, vector)) != FinalSum(Checksum(big, header + Flat(vector)))
  {
    assert vector[..|vector|] == vector;
    MarkedChain(big, vector, k, |vector|);
    MarkedFlat(big != (|header| % 2 == 1), vector, k, |vector|);
    FlatAppend(vector, k - 1);
    OddPlus(|Flat(vector[..k - 1])|, |vector[k - 1]|);
    WrongHalf(big, header, Flat(vector), big != (|vector[k - 1]| % 2 == 1));
  }

  lemma OddPlus(a: nat, b: nat)
    requires a % 2 == 1
    ensures (a + b) % 2 == 1 <==> b % 2 != 1
  {
  }

  lemma {:induction false} WrongHalf(big: bool, header: seq<byte>, payload: seq<byte>, high: bool)
    requires WordSum(payload, big != (|header| % 2 == 1)) == Weight(!high != (|header| % 2 == 1))
    ensures Sent(big, header, Weight(high)) != FinalSum(Checksum(big, header + payload))
  {
    WordSumConcat(header, payload, big);
    Misplaced(big, header, high != (|header| % 2 == 1));
    MarkBlock(Checksum(big, header), high, |header|);
  }

  /** 1 and 256 are different residues. */
  lemma {:induction false} Misplaced(big: bool, header: seq<byte>, high: bool)
    ensures FinalSum(Checksum(big, header) + Weight(high)) != FinalSum(Ones(WordSum(header, big) + Weight(!high)))
  {
    var n := WordSum(header, big);
    OnesExact(n, Ones(n));
    OnesExact(n + Weight(!high), Ones(n + Weight(!high)));
    SameResidueAdd(Ones(n), n, Weight(high));
    ResidueMoves(n + 1, 0xff);
    FinalSumResidue(Ones(n) + Weight(high), Ones(n + Weight(!high)));
  }

  lemma {:induction false} SameResidueAdd(x: nat, y: nat, z: nat)
    requires x % 0xffff == y % 0xffff
    ensures (x + z) % 0xffff == (y + z) % 0xffff
  {
    CastOut(x % 0xffff + z, x / 0xffff);
    CastOut(y % 0xffff + z, y / 0xffff);
  }

  /** A marked vector of the given lengths. */
  function Witness(lens: seq<nat>, k: nat): (vector: seq<seq<byte>>)
    requires k < |lens| && lens[k] > 0
    ensures Lengths(vector) == lens && Marked(vector, k)
  {
    seq(|lens|, i requires 0 <= i < |lens| => seq(lens[i], j => if i == k && j == 0 then 1 else 0))
  }

  /** send_odatav sends the packet's checksum for all contents exactly when the element lengths
      are safe; with up to two elements they always are. */
  lemma {:induction false} VectorRightIff(big: bool, header: seq<byte>, lens: seq<nat>)
    requires |header| + Sum(lens) < 0x1_0000
    ensures (forall vector | Lengths(vector) == lens ::
               Sent(big, header, VectorChain(big, vector)) == FinalSum(Checksum(big, header + Flat(vector))))
       <==> SafeLengths(lens)
    ensures |lens| <= 2 ==> SafeLengths(lens)
  {
    if SafeLengths(lens) {
      forall vector | Lengths(vector) == lens
        ensures Sent(big, header, VectorChain(big, vector)) == FinalSum(Checksum(big, header + Flat(vector)))
      {
        FlatLength(vector);
        SafeVector(big, vector);
        SentIsOneShot(big, header, Flat(vector), VectorChain(big, vector));
      }
    } else {
      var k :| 2 <= k < |lens| && lens[k] > 0 && Sum(lens[..k - 1]) % 2 != 0;
      var vector := Witness(lens, k);
      FlatLength(vector);
      FlatLength(vector[..k - 1]);
      assert Lengths(vector[..k - 1]) == lens[..k - 1];
      MarkedWrong(big, header, vector, k);
    }
  }

  // ---- sendv: one packet's worth of the vector, combined at the running offset ----

  /** The place in the application's data that element `index` and an offset into it denote. */
  function Position(vector: seq<seq<byte>>, index: nat, offset: nat): nat
    requires index <= |vector|
  {
    |Flat(vector[..index])| + offset
  }

  lemma {:induction false} PieceOfFlat(vector: seq<seq<byte>>, index: nat, offset: nat, n: nat)
    requires index < |vector| && offset + n <= |vector[index]|
    ensures Position(vector, index, offset) + n <= |Flat(vector)|
    ensures Flat(vector)[Position(vector, index, offset)..][..n] == vector[index][offset..][..n]
    ensures Position(vector, index + 1, 0) == Position(vector, index, |vector[index]|)
  {
    FlatAppend(vector, index);
    FlatMonotone(vector, index + 1, |vector|);
    assert vector[..|vector|] == vector;
    var p := |Flat(vector[..index])|;
    assert Flat(vector)[..p + |vector[index]|] == Flat(vector[..index]) + vector[index];
  }

  /** The first n bytes of the payload are copied from the data and summed. */
  ghost predicate Filled(big: bool, data: seq<byte>, n: nat, payload: seq<byte>, was: seq<byte>, odata: uint32)
  {
    && n <= |data| && n <= |was| && n < 0x1_0000
    && payload == data[..n] + was[n..]
    && Ones(odata) == Checksum(big, data[..n]) && odata <= 0xffff * n
  }

  /** The copy of what element i has in bytes start to start + n of the data, for a packet whose payload is at
      payloadAddr, faults. */
  ghost predicate PieceFaults(copyEngine: CopyEngine, vector: seq<seq<byte>>, addrs: seq<nat>, i: nat,
                              start: nat, n: nat, payloadAddr: nat)
    requires i < |vector| == |addrs|
  {
    var first := |Flat(vector[..i])|;
    var from := if start < first then first else start;
    var to := if first + |vector[i]| < start + n then first + |vector[i]| else start + n;
    from < to && copyEngine.Faults(to - from, addrs[i] + (from - first), payloadAddr + (from - start))
  }

  /** The copy of bytes start to start + n of the data faults at some element. */
  ghost predicate PacketFaults(copyEngine: CopyEngine, vector: seq<seq<byte>>, addrs: seq<nat>,
                               start: nat, n: nat, payloadAddr: nat)
    requires |vector| == |addrs|
  {
    exists i :: 0 <= i < |vector| && PieceFaults(copyEngine, vector, addrs, i, start, n, payloadAddr)
  }

  /** The copy does not fault at the first k elements. */
  ghost predicate Clear(copyEngine: CopyEngine, vector: seq<seq<byte>>, addrs: seq<nat>,
                        start: nat, n: nat, payloadAddr: nat, k: nat)
    requires k <= |vector| == |addrs|
  {
    forall i :: 0 <= i < k ==> !PieceFaults(copyEngine, vector, addrs, i, start, n, payloadAddr)
  }

  /** Elements that end before the packet's bytes start have nothing in it. */
  lemma {:induction false} ClearBefore(copyEngine: CopyEngine, vector: seq<seq<byte>>, addrs: seq<nat>,
                                       start: nat, n: nat, payloadAddr: nat, k: nat)
    requires k <= |vector| == |addrs| && |Flat(vector[..k])| <= start
    ensures Clear(copyEngine, vector, addrs, start, n, payloadAddr, k)
  {
    forall i | 0 <= i < k
      ensures !PieceFaults(copyEngine, vector, addrs, i, start, n, payloadAddr)
    {
      FlatAppend(vector, i);
      FlatMonotone(vector, i + 1, k);
    }
  }

  /** Nor have elements that start where it is full. */
  lemma {:induction false} ClearBehind(copyEngine: CopyEngine, vector: seq<seq<byte>>, addrs: seq<nat>,
                                       start: nat, n: nat, payloadAddr: nat, k: nat)
    requires k <= |vector| == |addrs| && start + n <= |Flat(vector[..k])|
    requires Clear(copyEngine, vector, addrs, start, n, payloadAddr, k)
    ensures !PacketFaults(copyEngine, vector, addrs, start, n, payloadAddr)
  {
    forall i | k <= i < |vector|
      ensures !PieceFaults(copyEngine, vector, addrs, i, start, n, payloadAddr)
    {
      FlatMonotone(vector, k, i);
    }
  }

  /** What one turn of the loop copies is what its element has in the packet. */
  lemma {:induction false} ClearHere(copyEngine: CopyEngine, vector: seq<seq<byte>>, addrs: seq<nat>,
                                     start: nat, n: nat, payloadAddr: nat,
                                     index: nat, offset: nat, dstLength: nat, copyLength: nat)
    requires index < |vector| == |addrs| && offset <= |vector[index]| && dstLength <= n
    requires Position(vector, index, offset) == start + dstLength && (dstLength == 0 || offset == 0)
    requires var srcLength := |vector[index]| - offset;
             copyLength == if n - dstLength < srcLength then n - dstLength else srcLength
    requires Clear(copyEngine, vector, addrs, start, n, payloadAddr, index)
    ensures Clear(copyEngine, vector, addrs, start, n, payloadAddr, index + 1)
       <==> !copyEngine.Faults(copyLength, addrs[index] + offset, payloadAddr + dstLength)
  {
    EmptyNeverFaults(copyEngine, addrs[index] + offset, payloadAddr + dstLength);
    assert PieceFaults(copyEngine, vector, addrs, index, start, n, payloadAddr)
        == copyEngine.Faults(copyLength, addrs[index] + offset, payloadAddr + dstLength);
  }

  lemma {:induction false} EmptyNeverFaults(copyEngine: CopyEngine, addr: nat, dstAddr: nat)
    ensures !copyEngine.Faults(0, addr, dstAddr)
  {
  }

  lemma {:induction false} NotClear(copyEngine: CopyEngine, vector: seq<seq<byte>>, addrs: seq<nat>,
                                    start: nat, n: nat, payloadAddr: nat, k: nat)
    requires k <= |vector| == |addrs| && !Clear(copyEngine, vector, addrs, start, n, payloadAddr, k)
    ensures PacketFaults(copyEngine, vector, addrs, start, n, payloadAddr)
  {
  }

  /** Copies the next piece and combines its sum at the offset it has in the payload. */
  method Fill(copyEngine: CopyEngine, big: bool, width: Width, piece: seq<byte>, addr: nat,
              payload: array<byte>, n: nat, payloadAddr: nat, odata: uint32,
              ghost data: seq<byte>, ghost was: seq<byte>)
    returns (ok: bool, odata': uint32)
    requires copyEngine.Vector() ==> !big
    requires Filled(big, data, n, payload[..], was, odata)
    requires n + |piece| < 0x1_0000 && n + |piece| <= |was| && piece <= data[n..]
    modifies payload
    ensures ok <==> !copyEngine.Faults(|piece|, addr, payloadAddr + n)
    ensures ok ==> Filled(big, data, n + |piece|, payload[..], was, odata')
    ensures !copyEngine.Vector() ==> ok
  {
    assert data[..n] + piece == data[..n + |piece|];
    BehindFlat(payload[..], was, data[..n], piece);
    var element := PartialCopy(copyEngine, big, width, piece, addr, payload, n, payloadAddr + n, 0);
    ok, odata' := element.Some?, odata;
    if ok {
      OnesIdempotent(WordSum(piece, big));
      PieceBound(big, piece);
      ElementBound(odata, element.value, n);
      BlockSumConcat(big, data[..n], piece, odata, element.value);
      odata' := BlockAdd(odata, element.value, n);
    }
  }

  /** A piece of copyLength bytes has been taken from where the vector stands, and it uses up its element or
      fills the packet. */
  ghost predicate Midway(vector: seq<seq<byte>>, start: nat, tsduLength: nat, index: nat, offset: nat,
                         srcLength: nat, dstLength: nat, copyLength: nat)
  {
    && index < |vector| && offset + srcLength == |vector[index]| && start + tsduLength <= |Flat(vector)|
    && copyLength <= srcLength && dstLength + copyLength <= tsduLength
    && (copyLength == srcLength || dstLength + copyLength == tsduLength)
    && Position(vector, index, offset) == start + dstLength
  }

  /** As much of the current element as the packet still takes. */
  method FillFrom(copyEngine: CopyEngine, big: bool, width: Width, vector: seq<seq<byte>>, addrs: seq<nat>,
                  index: nat, offset: nat, dstLength: nat, tsduLength: nat, payload: array<byte>, payloadAddr: nat,
                  odata: uint32, ghost start: nat, ghost data: seq<byte>, ghost was: seq<byte>)
    returns (ok: bool, odata': uint32, copyLength: nat)
    requires copyEngine.Vector() ==> !big
    requires |addrs| == |vector| && index < |vector| && offset <= |vector[index]|
    requires start <= |Flat(vector)| && data == Flat(vector)[start..] && tsduLength <= |data|
    requires Position(vector, index, offset) == start + dstLength
    requires dstLength <= tsduLength < 0x1_0000 && tsduLength <= |was|
    requires Filled(big, data, dstLength, payload[..], was, odata)
    requires (dstLength == 0 || offset == 0) && Clear(copyEngine, vector, addrs, start, tsduLength, payloadAddr, index)
    modifies payload
    ensures ok <==> Clear(copyEngine, vector, addrs, start, tsduLength, payloadAddr, index + 1)
    ensures var srcLength := |vector[index]| - offset;
            && copyLength == (if tsduLength - dstLength < srcLength then tsduLength - dstLength else srcLength)
            && Midway(vector, start, tsduLength, index, offset, srcLength, dstLength, copyLength)
    ensures ok <==> !copyEngine.Faults(copyLength, addrs[index] + offset, payloadAddr + dstLength)
    ensures ok ==> Filled(big, data, dstLength + copyLength, payload[..], was, odata')
    ensures !copyEngine.Vector() ==> ok
  {
    var srcLength := |vector[index]| - offset;
    copyLength := if tsduLength - dstLength < srcLength then tsduLength - dstLength else srcLength;
    var piece := vector[index][offset..][..copyLength];
    PieceOfFlat(vector, index, offset, copyLength);
    ClearHere(copyEngine, vector, addrs, start, tsduLength, payloadAddr, index, offset, dstLength, copyLength);
    assert data[dstLength..] == Flat(vector)[start + dstLength..];
    ok, odata' := Fill(copyEngine, big, width, piece, addrs[index] + offset, payload, dstLength, payloadAddr, odata,
                       data, was);
  }

  /** Moves past a piece: on to the next element if this one is used up. */
  method Advance(ghost vector: seq<seq<byte>>, index: nat, offset: nat, srcLength: nat, copyLength: nat)
    returns (index': nat, offset': nat)
    requires index < |vector| && offset + srcLength == |vector[index]| && copyLength <= srcLength
    ensures index' == (if copyLength == srcLength then index + 1 else index)
    ensures index' < |vector| ==> offset' <= |vector[index']|
    ensures Position(vector, index', offset') == Position(vector, index, offset) + copyLength
    ensures Position(vector, index', offset') < |Flat(vector)| && copyLength == srcLength ==> index' < |vector|
  {
    index', offset' := index, offset + copyLength;
    if copyLength == srcLength {
      PieceOfFlat(vector, index, offset, copyLength);
      MoreToCome(vector, index + 1, Position(vector, index + 1, 0));
      index', offset' := index + 1, 0;
    }
  }

  lemma {:induction false} MoreToCome(vector: seq<seq<byte>>, index: nat, position: nat)
    requires index <= |vector| && position == Position(vector, index, 0)
    ensures position < |Flat(vector)| ==> index < |vector|
  {
    assert vector[..|vector|] == vector;
  }

  /** The checksum-and-copy loop of sendv: fills one packet's payload from the vector, starting
      at (index, offset), and moves that place on. */
  method SendFragment(engine: Engine, copyEngine: CopyEngine, big: bool, width: Width,
                      header: seq<byte>, headerAddr: nat, vector: seq<seq<byte>>, addrs: seq<nat>,
                      index: nat, offset: nat, tsduLength: nat, payload: array<byte>, payloadAddr: nat)
    returns (checksum: Option<uint16>, odata: uint32, index': nat, offset': nat)
    requires (engine.Vector() || copyEngine.Vector()) ==> !big
    requires |addrs| == |vector| && index < |vector| && offset <= |vector[index]|
    requires Position(vector, index, offset) + tsduLength <= |Flat(vector)|
    requires |header| + tsduLength < 0x1_0000 && tsduLength <= payload.Length
    modifies payload
    ensures var tsdu := Flat(vector)[Position(vector, index, offset)..][..tsduLength];
            checksum.Some? ==>
              && payload[..] == tsdu + old(payload[..])[tsduLength..]
              && checksum.value == FinalSum(Checksum(big, header + tsdu)) != 0
              && Ones(odata) == Checksum(big, tsdu) && odata <= 0xffff * |tsdu|
    ensures checksum.Some? ==>
              && index' <= |vector| && (index' < |vector| ==> offset' <= |vector[index']|)
              && Position(vector, index', offset') == Position(vector, index, offset) + tsduLength
    ensures checksum.None?
       <==> PacketFaults(copyEngine, vector, addrs, Position(vector, index, offset), tsduLength, payloadAddr)
    ensures !copyEngine.Vector() ==> checksum.Some?
  {
    ghost var was, data := payload[..], Flat(vector)[Position(vector, index, offset)..];
    checksum := None;
    var unfoldedHeader := Partial(engine, big, width, header, headerAddr, 0);
    var ok;
    ok, odata, index', offset' := FillPacket(copyEngine, big, width, vector, addrs, index, offset, tsduLength,
                                             payload, payloadAddr);
    if ok {
      checksum := SealFragment(big, header, unfoldedHeader, odata, data[..tsduLength]);
    }
  }

  method MoveOn(ghost vector: seq<seq<byte>>, ghost tsduLength: nat, index: nat, offset: nat,
                srcLength: nat, dstLength: nat, copyLength: nat, ghost start: nat)
    returns (index': nat, offset': nat, dstLength': nat)
    requires Midway(vector, start, tsduLength, index, offset, srcLength, dstLength, copyLength)
    ensures index' <= |vector| && (index' < |vector| ==> offset' <= |vector[index']|)
    ensures dstLength' == dstLength + copyLength <= tsduLength
    ensures Position(vector, index', offset') == start + dstLength'
    ensures dstLength' < tsduLength ==> index' == index + 1 < |vector| && offset' == 0
    ensures start + dstLength' <= |Flat(vector[..index + 1])|
  {
    index', offset' := Advance(vector, index, offset, srcLength, copyLength);
    dstLength' := dstLength + copyLength;
    FlatAppend(vector, index);
  }

  /** One turn of the loop: a piece, and past it. */
  method FillNext(copyEngine: CopyEngine, big: bool, width: Width, vector: seq<seq<byte>>, addrs: seq<nat>,
                  index: nat, offset: nat, dstLength: nat, tsduLength: nat, payload: array<byte>, payloadAddr: nat,
                  odata: uint32, ghost start: nat, ghost data: seq<byte>, ghost was: seq<byte>)
    returns (ok: bool, odata': uint32, index': nat, offset': nat, dstLength': nat)
    requires copyEngine.Vector() ==> !big
    requires |addrs| == |vector| && index < |vector| && offset <= |vector[index]|
    requires start <= |Flat(vector)| && data == Flat(vector)[start..] && tsduLength <= |data|
    requires Position(vector, index, offset) == start + dstLength
    requires dstLength <= tsduLength < 0x1_0000 && tsduLength <= |was|
    requires Filled(big, data, dstLength, payload[..], was, odata)
    requires (dstLength == 0 || offset == 0) && Clear(copyEngine, vector, addrs, start, tsduLength, payloadAddr, index)
    modifies payload
    ensures ok <==> Clear(copyEngine, vector, addrs, start, tsduLength, payloadAddr, index + 1)
    ensures ok ==> Filled(big, data, dstLength', payload[..], was, odata')
    ensures index' <= |vector| && (index' < |vector| ==> offset' <= |vector[index']|)
    ensures dstLength' <= tsduLength && Position(vector, index', offset') == start + dstLength'
    ensures dstLength' < tsduLength ==> index' == index + 1 < |vector| && offset' == 0
    ensures start + dstLength' <= |Flat(vector[..index + 1])|
    ensures !copyEngine.Vector() ==> ok
  {
    var srcLength, copyLength: nat := |vector[index]| - offset, 0;
    ok, odata', copyLength := FillFrom(copyEngine, big, width, vector, addrs, index, offset, dstLength, tsduLength,
                                       payload, payloadAddr, odata, start, data, was);
    index', offset', dstLength' := MoveOn(vector, tsduLength, index, offset, srcLength, dstLength, copyLength, start);
  }

  /** The loop: pieces of the vector until the packet is full. */
  method FillPacket(copyEngine: CopyEngine, big: bool, width: Width, vector: seq<seq<byte>>, addrs: seq<nat>,
                    index: nat, offset: nat, tsduLength: nat, payload: array<byte>, payloadAddr: nat)
    returns (ok: bool, odata: uint32, index': nat, offset': nat)
    requires copyEngine.Vector() ==> !big
    requires |addrs| == |vector| && index < |vector| && offset <= |vector[index]|
    requires Position(vector, index, offset) + tsduLength <= |Flat(vector)|
    requires tsduLength < 0x1_0000 && tsduLength <= payload.Length
    modifies payload
    ensures ok <==> !PacketFaults(copyEngine, vector, addrs, Position(vector, index, offset), tsduLength, payloadAddr)
    ensures ok ==> Filled(big, Flat(vector)[Position(vector, index, offset)..], tsduLength, payload[..],
                          old(payload[..]), odata)
    ensures ok ==>
              && index' <= |vector| && (index' < |vector| ==> offset' <= |vector[index']|)
              && Position(vector, index', offset') == Position(vector, index, offset) + tsduLength
    ensures !copyEngine.Vector() ==> ok
  {
    ghost var was, start := payload[..], Position(vector, index, offset);
    ghost var data := Flat(vector)[start..];
    odata, index', offset' := 0, index, offset;
    var dstLength: nat := 0;
    assert Filled(big, data, 0, payload[..], was, 0);
    ClearBefore(copyEngine, vector, addrs, start, tsduLength, payloadAddr, index);
    while true
      invariant index' < |vector| && offset' <= |vector[index']| && (dstLength == 0 || offset' == 0)
      invariant dstLength <= tsduLength && Position(vector, index', offset') == start + dstLength
      invariant Filled(big, data, dstLength, payload[..], was, odata)
      invariant Clear(copyEngine, vector, addrs, start, tsduLength, payloadAddr, index')
      decreases |vector| - index'
    {
      ghost var last := index';
      ok, odata, index', offset', dstLength :=
        FillNext(copyEngine, big, width, vector, addrs, index', offset', dstLength, tsduLength, payload, payloadAddr,
                 odata, start, data, was);
      if !ok {
        NotClear(copyEngine, vector, addrs, start, tsduLength, payloadAddr, last + 1);
        return;
      }
      if dstLength == tsduLength {
        ClearBehind(copyEngine, vector, addrs, start, tsduLength, payloadAddr, last + 1);
        return;
      }
    }
  }

  method SealFragment(big: bool, header: seq<byte>, unfoldedHeader: uint32, odata: uint32, ghost tsdu: seq<byte>)
    returns (checksum: Option<uint16>)
    requires unfoldedHeader == Checksum(big, header) && |header| + |tsdu| < 0x1_0000
    requires Ones(odata) == Checksum(big, tsdu) && odata <= 0xffff * |tsdu|
    ensures checksum == Some(FinalSum(Checksum(big, header + tsdu))) && checksum.value != 0
  {
    SentIsOneShot(big, header, tsdu, odata);
    SentBound(big, header, tsdu, odata);
    var sum := BlockAdd(unfoldedHeader, odata, |header|);
    var value := Fold(sum);
    checksum := Some(value);
  }
}
