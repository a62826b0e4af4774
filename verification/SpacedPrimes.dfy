/** The table of spaced primes that sizes hash tables. */
module SpacedPrimes {
  import opened Primality

  const SMALLEST := 11
  const LARGEST := 13845163
  const LISTED := 34

  /** The entries of the table. */
  function Prime(i: nat): nat
    requires i < LISTED
  {
    match i
    case 0 => 11 case 1 => 19 case 2 => 37 case 3 => 73 case 4 => 109
    case 5 => 163 case 6 => 251 case 7 => 367 case 8 => 557 case 9 => 823
    case 10 => 1237 case 11 => 1861 case 12 => 2777 case 13 => 4177 case 14 => 6247
    case 15 => 9371 case 16 => 14057 case 17 => 21089 case 18 => 31627 case 19 => 47431
    case 20 => 71143 case 21 => 106721 case 22 => 160073 case 23 => 240101 case 24 => 360163
    case 25 => 540217 case 26 => 810343 case 27 => 1215497 case 28 => 1823231 case 29 => 2734867
    case 30 => 4102283 case 31 => 6153409 case 32 => 9230113 case _ => 13845163
  }

  function Table(): seq<nat>
  {
    seq(LISTED, i requires 0 <= i < LISTED => Prime(i))
  }

  lemma {:induction false} TableIs()
    ensures Table() == [
      11, 19, 37, 73, 109, 163, 251, 367, 557, 823, 1237, 1861, 2777, 4177, 6247, 9371, 14057, 21089, 31627,
      47431, 71143, 106721, 160073, 240101, 360163, 540217, 810343, 1215497, 1823231, 2734867, 4102283, 6153409,
      9230113, 13845163
    ]
  {
  }

  /** Strictly rising, each entry at most double the one before. */
  lemma {:induction false} TableIsSpaced(i: nat)
    requires 0 < i < LISTED
    ensures Table()[i - 1] < Table()[i] <= 2 * Table()[i - 1]
    ensures Table()[0] == SMALLEST && Table()[LISTED - 1] == LARGEST
  {
  }

  lemma {:induction false} Rises(i: nat, j: nat)
    requires i <= j < LISTED
    ensures Prime(i) <= Prime(j)
    decreases j
  {
    if i < j {
      Rises(i, j - 1);
      TableIsSpaced(j);
    }
  }

  /** The first entry from i on that is above num, or the last one. */
  function Search(num: nat, i: nat): nat
    requires i <= LISTED
    decreases LISTED - i
  {
    if i == LISTED then LARGEST
    else if Prime(i) > num then Prime(i)
    else Search(num, i + 1)
  }

  function Closest(num: nat): nat
  {
    Search(num, 0)
  }

  /** pgm_spaced_primes_closest. */
  method SpacedPrimesClosest(num: nat) returns (p: nat)
    ensures p == Closest(num)
  {
    var primes := Table();
    for i := 0 to |primes|
      invariant Search(num, i) == Closest(num)
    {
      if primes[i] > num {
        return primes[i];
      }
    }
    return primes[|primes| - 1];
  }

  /** The search finds an entry: the least above num; without one, the last. */
  lemma {:induction false} SearchFinds(num: nat, i: nat)
    requires i < LISTED && (i > 0 ==> Prime(i - 1) <= num)
    ensures exists k :: i <= k < LISTED && Found(num, i, k)
    decreases LISTED - i
  {
    if Prime(i) > num || i == LISTED - 1 {
      assert Found(num, i, i);
    } else {
      SearchFinds(num, i + 1);
      var k :| i + 1 <= k < LISTED && Found(num, i + 1, k);
      assert Found(num, i, k);
    }
  }

  /** Entry k is what the search from i on ends with: it is above num unless it is the last one, and all
      entries before it are not. */
  ghost predicate Found(num: nat, i: nat, k: nat)
    requires i <= k < LISTED
  {
    && Search(num, i) == Prime(k)
    && (Prime(k) > num || k == LISTED - 1)
    && (k > 0 ==> Prime(k - 1) <= num)
  }

  lemma {:induction false} LeastAbove(num: nat, k: nat, j: nat)
    requires k < LISTED && j < LISTED && (k > 0 ==> Prime(k - 1) <= num) && Prime(j) > num
    ensures Prime(k) <= Prime(j)
  {
    if k <= j {
      Rises(k, j);
    } else {
      Rises(j, k - 1);
    }
  }

  /** The closest spaced prime: the least above num if there is one, and from the smallest prime on
      never more than double. */
  lemma {:induction false} ClosestIs(num: nat)
    ensures Closest(num) in Table()
    ensures num < LARGEST ==> num < Closest(num) && forall q :: q in Table() && q > num ==> Closest(num) <= q
    ensures num >= LARGEST ==> Closest(num) == LARGEST
    ensures num < SMALLEST ==> Closest(num) == SMALLEST
    ensures num >= SMALLEST ==> Closest(num) <= 2 * num
  {
    SearchFinds(num, 0);
    var k :| 0 <= k < LISTED && Found(num, 0, k);
    assert Table()[k] == Prime(k);
    FoundBounds(num, k);
    forall q | q in Table() && q > num
      ensures Prime(k) <= q
    {
      var j :| 0 <= j < LISTED && Table()[j] == q;
      LeastAbove(num, k, j);
    }
  }

  lemma {:induction false} FoundBounds(num: nat, k: nat)
    requires k < LISTED && Found(num, 0, k)
    ensures num < LARGEST ==> num < Prime(k)
    ensures num >= LARGEST ==> Prime(k) == LARGEST
    ensures num < SMALLEST ==> Prime(k) == SMALLEST
    ensures num >= SMALLEST ==> Prime(k) <= 2 * num
  {
    Rises(k, LISTED - 1);
    if k > 0 {
      TableIsSpaced(k);
      Rises(0, k - 1);
    }
  }

  lemma {:induction false} InTable(p: nat)
    requires p in Table()
    ensures SMALLEST <= p <= LARGEST
  {
    var i :| 0 <= i < |Table()| && Table()[i] == p;
    Rises(0, i);
    Rises(i, LISTED - 1);
  }

  lemma {:induction false} SmallestListed()
    ensures SMALLEST in Table()
  {
    assert Table()[0] == SMALLEST;
  }

  // ---- the entries are primes ----

  lemma {:induction false} Trial0(i: nat)
    requires i < 11
    ensures IsPrime(Prime(i))
  {
    match i {
      case 0 => ByRounds(11, 0);
      case 1 => ByRounds(19, 0);
      case 2 => ByRounds(37, 1);
      case 3 => ByRounds(73, 1);
      case 4 => ByRounds(109, 1);
      case 5 => ByRounds(163, 1);
      case 6 => ByRounds(251, 1);
      case 7 => ByRounds(367, 1);
      case 8 => ByRounds(557, 1);
      case 9 => ByRounds(823, 1);
      case _ => ByRounds(1237, 1);
    }
  }

  lemma {:induction false} Trial11(i: nat)
    requires 11 <= i < 16
    ensures IsPrime(Prime(i))
  {
    match i {
      case 11 => ByRounds(1861, 1);
      case 12 => ByRounds(2777, 1);
      case 13 => ByRounds(4177, 2);
      case 14 => ByRounds(6247, 2);
      case _ => ByRounds(9371, 2);
    }
  }

  lemma {:induction false} Trial16(i: nat)
    requires 16 <= i < 18
    ensures IsPrime(Prime(i))
  {
    match i {
      case 16 => ByRounds(14057, 3);
      case _ => ByRounds(21089, 3);
    }
  }

  lemma {:induction false} Trial18(i: nat)
    requires 18 <= i < 20
    ensures IsPrime(Prime(i))
  {
    match i {
      case 18 => ByRounds(31627, 4);
      case _ => ByRounds(47431, 5);
    }
  }

  lemma {:induction false} Trial20()
    ensures IsPrime(71143)
  {
    ByRounds(71143, 6);
  }

  lemma {:induction false} Trial21()
    ensures IsPrime(106721)
  {
    ByRounds(106721, 7);
  }

  lemma {:induction false} Trial22()
    ensures IsPrime(160073)
  {
    ByRounds(160073, 9);
  }

  lemma {:induction false} Trial23()
    ensures IsPrime(240101)
  {
    ByRounds(240101, 11);
  }

  lemma {:induction false} Trial24()
    ensures IsPrime(360163)
  {
    ByRounds(360163, 13);
  }

  /** The entries up to 360163 are primes. */
  lemma {:induction false} ArePrimes(p: nat)
    requires p in Table() && p <= 360163
    ensures IsPrime(p)
  {
    var i :| 0 <= i < LISTED && Table()[i] == p;
    if i < 11 {
      Trial0(i);
    } else if i < 16 {
      Trial11(i);
    } else if i < 18 {
      Trial16(i);
    } else if i < 20 {
      Trial18(i);
    } else if i == 20 {
      Trial20();
    } else if i == 21 {
      Trial21();
    } else if i == 22 {
      Trial22();
    } else if i == 23 {
      Trial23();
    } else if i == 24 {
      Trial24();
    } else {
      Rises(25, i);
    }
  }
}
