/** The receiver's check of a packet against its checksum, and what a sender has to leave for it. */
module PacketChecksum {
  import opened Memory
  import opened OnesComplement
  import opened Accumulator
  import opened ChecksumAlgebra

  // ---- receiving ----

  const CHECKSUM_AT := 6
  const TYPE_AT := 4
  const HEADER_SIZE := 16
  const ODATA := 0x04
  const RDATA := 0x05

  /** The packet with its checksum field set to zero. */
  function Zeroed(p: seq<byte>): (z: seq<byte>)
    requires |p| >= HEADER_SIZE
    ensures |z| == |p| && z[6] == 0 && z[7] == 0 && z[..6] == p[..6] && z[8..] == p[8..]
  {
    Overwrite(p, CHECKSUM_AT, [0, 0])
  }

  /** Whether a host accepts packet p; a zero field means that no checksum was sent, which data
      packets must not do. */
  predicate Accepts(big: bool, p: seq<byte>)
    requires |p| >= HEADER_SIZE
  {
    var sum := Word16(big, p, CHECKSUM_AT);
    if sum != 0 then sum == FinalSum(Checksum(big, Zeroed(p)))
    else p[TYPE_AT] != ODATA && p[TYPE_AT] != RDATA
  }

  /** The checksum part of pgm_parse: the field is cleared for the sum and put back. */
  method Check(engine: Engine, big: bool, width: Width, packet: array<byte>, addr: nat) returns (ok: bool)
    requires 16 <= packet.Length < 0x1_0000 && (engine.Vector() ==> !big)
    modifies packet
    ensures packet[..] == old(packet[..])
    ensures ok == Accepts(big, old(packet[..]))
    ensures packet[6] == 0 && packet[7] == 0 ==> (ok <==> packet[4] != 4 && packet[4] != 5)
    ensures packet[6] != 0 || packet[7] != 0 ==> (ok <==> WordSum(packet[..], big) % 0xffff == 0)
  {
    ghost var p := packet[..];
    AcceptedBytes(big, p);
    var sum := Word16(big, packet[..], CHECKSUM_AT);
    if sum != 0 {
      Store16(big, packet, CHECKSUM_AT, 0);
      assert Bytes16(big, 0) == [0, 0];
      var partial := Partial(engine, big, width, packet[..], addr, 0);
      var pgmSum := Fold(partial);
      ghost var zeroed := packet[..];
      Store16(big, packet, CHECKSUM_AT, sum);
      StoreOfLoad16(big, p, CHECKSUM_AT);
      FieldRestored(p, Bytes16(big, sum));
      ok := pgmSum == sum;
    } else {
      ok := packet[TYPE_AT] != ODATA && packet[TYPE_AT] != RDATA;
    }
  }

  lemma FieldRestored(p: seq<byte>, field: seq<byte>)
    requires |p| >= HEADER_SIZE && field == p[CHECKSUM_AT..CHECKSUM_AT + 2]
    ensures Overwrite(Zeroed(p), CHECKSUM_AT, field) == p
  {
  }

  lemma {:induction false} PairSum(big: bool, s: seq<byte>)
    requires |s| == 2
    ensures WordSum(s, big) == Word16(big, s, 0)
  {
    RestIsAll(s, big);
    Peel16(s, 0, big);
  }

  lemma {:induction false} FieldSum(big: bool, p: seq<byte>)
    requires |p| >= HEADER_SIZE
    ensures WordSum(p, big) == WordSum(Zeroed(p), big) + Word16(big, p, CHECKSUM_AT)
  {
    var a, field, c := p[..CHECKSUM_AT], p[CHECKSUM_AT..CHECKSUM_AT + 2], p[CHECKSUM_AT + 2..];
    assert p == a + (field + c) && Zeroed(p) == a + ([0, 0] + c);
    SumBetween(big, a, field, c);
    SumBetween(big, a, [0, 0], c);
    assert Word16(big, field, 0) == Word16(big, p, CHECKSUM_AT);
  }

  lemma {:induction false} SumBetween(big: bool, a: seq<byte>, word: seq<byte>, c: seq<byte>)
    requires |a| % 2 == 0 && |word| == 2
    ensures WordSum(a + (word + c), big) == WordSum(a, big) + Word16(big, word, 0) + WordSum(c, big)
  {
    WordSumConcat(a, word + c, big);
    WordSumConcat(word, c, big);
    PairSum(big, word);
  }

  /** A packet that carries a checksum is accepted exactly when its words, the checksum among them,
      sum to zero modulo 0xffff. */
  lemma AcceptedIff(big: bool, p: seq<byte>)
    requires |p| >= HEADER_SIZE && Word16(big, p, CHECKSUM_AT) != 0
    ensures Accepts(big, p) <==> WordSum(p, big) % 0xffff == 0
  {
    var sum, n := Word16(big, p, CHECKSUM_AT), WordSum(Zeroed(p), big);
    FieldSum(big, p);
    OnesExact(n, Ones(n));
    CancelsIff(n % 0xffff, sum);
    CastOut(n % 0xffff + sum, n / 0xffff);
  }

  /** In bytes of the wire: one without a checksum is accepted exactly when it is neither ODATA nor RDATA. */
  lemma AcceptedBytes(big: bool, p: seq<byte>)
    requires |p| >= 16
    ensures p[6] == 0 && p[7] == 0 ==> (Accepts(big, p) <==> p[4] != 4 && p[4] != 5)
    ensures p[6] != 0 || p[7] != 0 ==> (Accepts(big, p) <==> WordSum(p, big) % 0xffff == 0)
  {
    var x: int, y: int := p[6], p[7];
    assert Word16(big, p, 6) == if big then 0x100 * x + y else x + 0x100 * y;
    if x != 0 || y != 0 {
      AcceptedIff(big, p);
    }
  }

  lemma CancelsIff(r: nat, sum: uint16)
    requires r < 0xffff && sum != 0
    ensures (r + sum) % 0xffff == 0 <==> sum == if r == 0 then 0xffff else 0xffff - r
  {
  }

  /** A packet as the sender's last step leaves it. */
  function Sealed(big: bool, p: seq<byte>): (q: seq<byte>)
    requires |p| >= HEADER_SIZE
    ensures |q| == |p| && q[..6] == p[..6] && q[8..] == p[8..]
  {
    Overwrite(p, CHECKSUM_AT, Bytes16(big, FinalSum(Checksum(big, Zeroed(p)))))
  }

  /** Hosts of either byte order store the same two bytes. */
  lemma SealedAlike(p: seq<byte>)
    requires |p| >= HEADER_SIZE
    ensures Sealed(true, p) == Sealed(false, p)
  {
    var x := Checksum(false, Zeroed(p));
    ByteOrderIndependence(Zeroed(p));
    assert FinalSum(Swap16(x)) == Swap16(FinalSum(x)) by { FinalSwap(x); }
    StoredSwap(FinalSum(x));
  }

  lemma {:induction false} FinalSwap(x: uint16)
    ensures FinalSum(Swap16(x)) == Swap16(FinalSum(x))
  {
    var h, l := x / 0x100, x % 0x100;
    Digits(h, l);
    Digits(l, h);
    Digits(0xff - h, 0xff - l);
    FinalSmall(x);
    FinalSmall(Swap16(x));
  }

  lemma FinalSmall(x: uint16)
    ensures FinalSum(x) == if x == 0 || x == 0xffff then 0xffff else 0xffff - x
  {
  }

  /** Every host accepts what any host sends. */
  lemma SentIsAccepted(sender: bool, receiver: bool, p: seq<byte>)
    requires |p| >= HEADER_SIZE
    ensures Accepts(receiver, Sealed(sender, p))
  {
    SealedAlike(p);
    var q := Sealed(receiver, p);
    assert q == Sealed(sender, p);
    var sum := FinalSum(Checksum(receiver, Zeroed(p)));
    assert Zeroed(q) == Zeroed(p);
    WordLoads(receiver, p, CHECKSUM_AT, sum);
  }

  lemma WordLoads(big: bool, p: seq<byte>, i: nat, w: uint16)
    requires i + 2 <= |p|
    ensures Word16(big, Overwrite(p, i, Bytes16(big, w)), i) == w
  {
    assert Overwrite(p, i, Bytes16(big, w))[i] == Bytes16(big, w)[0];
    assert Overwrite(p, i, Bytes16(big, w))[i + 1] == Bytes16(big, w)[1];
  }

  /** Changing one byte of an accepted packet that carries a checksum is noticed always but for one
      way: if the change clears the checksum field of a packet that is not ODATA or RDATA. */
  lemma {:induction false} SingleByteDetected(big: bool, p: seq<byte>, i: nat, x: byte)
    requires |p| >= HEADER_SIZE && i < |p| && x != p[i]
    requires Word16(big, p, CHECKSUM_AT) != 0 && Accepts(big, p)
    ensures var q := p[i := x];
            Accepts(big, q) <==> Word16(big, q, CHECKSUM_AT) == 0 && q[TYPE_AT] != ODATA && q[TYPE_AT] != RDATA
  {
    if Word16(big, p[i := x], CHECKSUM_AT) != 0 {
      AcceptedIff(big, p);
      AcceptedIff(big, p[i := x]);
      OneByteSum(big, p, i, x);
    }
  }

  /** Changing one whole 16-bit word of an accepted packet, other than the checksum itself, goes
      unnoticed in one way only: 0 and 0xffff stand for the same residue. */
  lemma {:induction false} SingleWordDetected(big: bool, p: seq<byte>, i: nat, w: uint16)
    requires |p| >= HEADER_SIZE && i + 2 <= |p| && i % 2 == 0 && i != CHECKSUM_AT
    requires Word16(big, p, CHECKSUM_AT) != 0 && Accepts(big, p) && Word16(big, p, i) != w
    ensures var was, q := Word16(big, p, i), Overwrite(p, i, Bytes16(big, w));
            Accepts(big, q) <==> (was == 0 && w == 0xffff) || (was == 0xffff && w == 0)
  {
    var q := Overwrite(p, i, Bytes16(big, w));
    assert q[CHECKSUM_AT] == p[CHECKSUM_AT] && q[CHECKSUM_AT + 1] == p[CHECKSUM_AT + 1];
    AcceptedIff(big, p);
    AcceptedIff(big, q);
    OneWordSum(big, p, i, w);
    SameResidue(WordSum(q, big) - w, Word16(big, p, i), w);
  }

  /** Two words may stand for each other exactly if they are one, or 0 and 0xffff. */
  lemma {:induction false} SameResidue(rest: nat, u: uint16, w: uint16)
    requires u != w && (rest + u) % 0xffff == 0
    ensures (rest + w) % 0xffff == 0 <==> (u == 0 && w == 0xffff) || (u == 0xffff && w == 0)
  {
    var low, high: nat := if u < w then u else w, if u < w then w else u;
    if high - low < 0xffff {
      ResidueMoves(rest + low, high - low);
    } else {
      CastOut(rest, 1);
    }
  }

  lemma {:induction false} SumAround(big: bool, p: seq<byte>, i: nat)
    requires i + 2 <= |p| && i % 2 == 0
    ensures WordSum(p, big) == WordSum(p[..i], big) + Word16(big, p, i) + WordSum(p[i + 2..], big)
  {
    assert p == p[..i] + (p[i..i + 2] + p[i + 2..]);
    WordSumConcat(p[..i], p[i..i + 2] + p[i + 2..], big);
    WordSumConcat(p[i..i + 2], p[i + 2..], big);
    PairSum(big, p[i..i + 2]);
  }

  lemma {:induction false} OneWordSum(big: bool, p: seq<byte>, i: nat, w: uint16)
    requires i + 2 <= |p| && i % 2 == 0
    ensures var q := Overwrite(p, i, Bytes16(big, w));
            WordSum(q, big) - w == WordSum(p, big) - Word16(big, p, i) >= 0
  {
    var q := Overwrite(p, i, Bytes16(big, w));
    assert q[..i] == p[..i] && q[i + 2..] == p[i + 2..];
    SumAround(big, p, i);
    SumAround(big, q, i);
    WordLoads(big, p, i, w);
  }

  lemma {:induction false} OneByteSum(big: bool, p: seq<byte>, i: nat, x: byte)
    requires i < |p| && x != p[i]
    ensures WordSum(p[i := x], big) % 0xffff != WordSum(p, big) % 0xffff
  {
    var q := p[i := x];
    var high := big != (i % 2 == 1);
    assert p[..i] + p[i..] == p && q[..i] + q[i..] == q && q[..i] == p[..i] && q[i..][1..] == p[i..][1..];
    WordSumConcat(p[..i], p[i..], big);
    WordSumConcat(q[..i], q[i..], big);
    var y: int, z: int := p[i], x;
    var n: nat, m: nat := WordSum(p, big), WordSum(q, big);
    assert m - n == if high then 0x100 * (z - y) else z - y;
    if m > n {
      ResidueMoves(n, m - n);
    } else {
      ResidueMoves(m, n - m);
    }
  }
}
