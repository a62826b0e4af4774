/** When a hash table is resized and what that costs: the sizing rule on counts alone. */
module TableSizing {
  import opened Memory
  import opened SpacedPrimes

  const MIN_SIZE := 11
  const MAX_SIZE := 13845163

  /** A number kept in an unsigned int. */
  function Unsigned(n: nat): (r: uint32)
  {
    if n < 0x1_0000_0000 then n else Unsigned(n - 0x1_0000_0000)
  }

  lemma {:induction false} UnsignedWraps(n: nat)
    ensures Unsigned(n) == n % 0x1_0000_0000
  {
    if n >= 0x1_0000_0000 {
      UnsignedWraps(n - 0x1_0000_0000);
    }
  }

  /** Counting up and down inside the unsigned int. */
  lemma {:induction false} NextUnsigned(n: nat)
    ensures Unsigned(Unsigned(n) + 1) == Unsigned(n + 1)
    ensures n > 0 ==> Unsigned(n - 1) == Unsigned(Unsigned(n) + 0xffff_ffff)
  {
    if n >= 0x1_0000_0000 {
      NextUnsigned(n - 0x1_0000_0000);
    }
  }

  /** Unsigned multiplication by three. */
  function Triple(n: nat): nat
  {
    Unsigned(3 * n)
  }

  /** The condition of PGM_HASHTABLE_RESIZE. */
  predicate ResizeDue(size: nat, nnodes: nat)
  {
    || (size >= Triple(nnodes) && size > MIN_SIZE)
    || (Triple(size) <= nnodes && size < MAX_SIZE)
  }

  /** With the product in 32 bits: for every size there is and every count an unsigned int holds. */
  lemma {:induction false} ResizeDueIs(size: nat, nnodes: uint32)
    requires size <= 13845163
    ensures ResizeDue(size, nnodes)
       <==> (size >= 3 * nnodes % 0x1_0000_0000 && size > 11) || (3 * size <= nnodes && size < 13845163)
  {
    UnsignedWraps(3 * nnodes);
  }

  function Clamp(x: nat, low: nat, high: nat): nat
  {
    if x > high then high else if x < low then low else x
  }

  function NewSize(nnodes: nat): nat
  {
    Clamp(Closest(nnodes), MIN_SIZE, MAX_SIZE)
  }

  /** Both load bounds. */
  predicate Balanced(size: nat, nnodes: nat)
  {
    && (size == MIN_SIZE || size < 3 * nnodes)
    && (size == MAX_SIZE || nnodes < 3 * size)
  }

  function Resized(size: nat, nnodes: nat): nat
  {
    if ResizeDue(size, nnodes) then NewSize(nnodes) else size
  }

  lemma {:induction false} NewSizeIs(nnodes: nat)
    ensures NewSize(nnodes) == Closest(nnodes) && NewSize(nnodes) in Table()
    ensures MIN_SIZE <= NewSize(nnodes) <= MAX_SIZE
    ensures nnodes < MAX_SIZE ==> nnodes < NewSize(nnodes)
    ensures nnodes >= MAX_SIZE ==> NewSize(nnodes) == MAX_SIZE
    ensures nnodes < MIN_SIZE ==> NewSize(nnodes) == MIN_SIZE
    ensures nnodes >= MIN_SIZE ==> NewSize(nnodes) <= 2 * nnodes
  {
    ClosestIs(nnodes);
    InTable(Closest(nnodes));
  }

  /** One resize is enough: whatever the load was, after the macro both bounds hold. */
  lemma {:induction false} OneResizeBalances(size: nat, nnodes: uint32)
    requires MIN_SIZE <= size <= MAX_SIZE
    ensures MIN_SIZE <= Resized(size, nnodes) <= MAX_SIZE && Balanced(Resized(size, nnodes), nnodes)
  {
    NewSizeIs(nnodes);
    assert Triple(size) == 3 * size && Triple(nnodes) <= 3 * nnodes;
  }

  // ---- cost ----

  /** A table's size, its number of nodes, and how many nodes resizes have relinked so far. */
  datatype Tally = Tally(size: nat, count: nat, relinked: nat)

  /** The calls that change a table: insert of an absent or a present key, remove of a present or
      an absent key, remove_all. */
  datatype Op = InsertNew | InsertPresent | RemoveFound | RemoveMissing | RemoveAll

  /** The macro: a resize relinks every node. */
  function Settle(t: Tally): Tally
  {
    if ResizeDue(t.size, Unsigned(t.count)) then Tally(NewSize(Unsigned(t.count)), t.count, t.relinked + t.count)
    else t
  }

  lemma {:induction false} SettleBalances(t: Tally)
    requires MIN_SIZE <= t.size <= MAX_SIZE
    ensures MIN_SIZE <= Settle(t).size <= MAX_SIZE && Balanced(Settle(t).size, Unsigned(t.count))
  {
    OneResizeBalances(t.size, Unsigned(t.count));
  }

  function Step(t: Tally, op: Op): Tally
  {
    match op
    case InsertNew => Settle(t.(count := t.count + 1))
    case RemoveFound => if t.count == 0 then t else Settle(t.(count := t.count - 1))
    case RemoveAll => Settle(t.(count := 0))
    case _ => t
  }

  function Start(): Tally
  {
    Tally(MIN_SIZE, 0, 0)
  }

  function Run(ops: seq<Op>): Tally
  {
    if ops == [] then Start() else Step(Run(ops[..|ops| - 1]), ops[|ops| - 1])
  }

  /** Whatever the calls, the size is one of the spaced primes. */
  lemma {:induction false} SizeIsListed(ops: seq<Op>)
    ensures Run(ops).size in Table()
  {
    if ops == [] {
      SmallestListed();
    } else {
      SizeIsListed(ops[..|ops| - 1]);
      StepListed(Run(ops[..|ops| - 1]), ops[|ops| - 1]);
    }
  }

  lemma {:induction false} StepListed(t: Tally, op: Op)
    requires t.size in Table()
    ensures Step(t, op).size in Table()
  {
    if Step(t, op).size != t.size {
      NewSizeIs(Unsigned(Step(t, op).count));
    }
  }

  /** Whatever the calls, both load bounds hold for the stored count. */
  lemma {:induction false} RunKeepsBounds(ops: seq<Op>)
    ensures MIN_SIZE <= Run(ops).size <= MAX_SIZE
    ensures Balanced(Run(ops).size, Unsigned(Run(ops).count))
  {
    if ops != [] {
      RunKeepsBounds(ops[..|ops| - 1]);
      StepBalanced(Run(ops[..|ops| - 1]), ops[|ops| - 1]);
    }
  }

  lemma {:induction false} StepBalanced(t: Tally, op: Op)
    requires MIN_SIZE <= t.size <= MAX_SIZE && Balanced(t.size, Unsigned(t.count))
    ensures MIN_SIZE <= Step(t, op).size <= MAX_SIZE
    ensures Balanced(Step(t, op).size, Unsigned(Step(t, op).count))
  {
    OneResizeBalances(t.size, Unsigned(Step(t, op).count));
  }

  /** The largest count whose triple still fits the unsigned arithmetic of the resize rule. */
  const COUNT_LIMIT := 0x5555_5555

  ghost predicate Good(t: Tally)
  {
    MIN_SIZE <= t.size <= MAX_SIZE && Balanced(t.size, t.count) && t.count <= COUNT_LIMIT
  }

  /** Work paid for but not done yet: how far the count is from where the last resize left it. */
  function Credit(t: Tally): nat
  {
    if t.size < MAX_SIZE && t.count > t.size then 2 * (t.count - t.size)
    else if t.size > MIN_SIZE && t.size > 2 * t.count then t.size - 2 * t.count
    else 0
  }

  /** A call pays for two nodes; remove_all pays for nothing. */
  function Fee(op: Op): nat
  {
    if op.RemoveAll? then 0 else 2
  }

  /** Within the limit the unsigned arithmetic is exact. */
  lemma {:induction false} SettleExact(t: Tally)
    requires t.size <= MAX_SIZE && t.count <= COUNT_LIMIT
    ensures Settle(t) == if (t.size >= 3 * t.count && t.size > MIN_SIZE) || (3 * t.size <= t.count && t.size < MAX_SIZE)
                         then Tally(NewSize(t.count), t.count, t.relinked + t.count)
                         else t
  {
  }

  /** Settling with s as the size a resize would choose. */
  lemma {:induction false} CreditPays(size: nat, count: nat, s: nat)
    requires MIN_SIZE <= size <= MAX_SIZE
    requires count >= MAX_SIZE ==> s == MAX_SIZE
    requires count < MAX_SIZE ==> count < s
    requires count < MIN_SIZE ==> s == MIN_SIZE
    requires count >= MIN_SIZE ==> s <= 2 * count
    ensures Balanced(s, count)
    ensures (size >= 3 * count && size > MIN_SIZE) || (3 * size <= count && size < MAX_SIZE)
            ==> count + Credit(Tally(s, count, 0)) <= Credit(Tally(size, count, 0))
  {
  }

  lemma {:induction false} SettleCost(t: Tally)
    requires MIN_SIZE <= t.size <= MAX_SIZE && t.count <= COUNT_LIMIT
    ensures Good(Settle(t))
    ensures Settle(t).relinked + Credit(Settle(t)) <= t.relinked + Credit(t)
  {
    SettleExact(t);
    NewSizeIs(t.count);
    CreditPays(t.size, t.count, NewSize(t.count));
  }

  lemma {:induction false} StepCost(t: Tally, op: Op)
    requires Good(t) && (op.InsertNew? ==> t.count < COUNT_LIMIT)
    ensures Good(Step(t, op))
    ensures Step(t, op).relinked + Credit(Step(t, op)) <= t.relinked + Credit(t) + Fee(op)
  {
    if op.InsertNew? {
      InsertCost(t);
    } else if op.RemoveFound? {
      RemoveCost(t);
    } else if op.RemoveAll? {
      ClearCost(t);
    }
  }

  /** One node more or less is worth a fee. */
  lemma {:induction false} CreditMoves(t: Tally, count: nat)
    requires t.count <= count + 1 && count <= t.count + 1
    ensures Credit(t.(count := count)) <= Credit(t) + 2
  {
  }

  lemma {:induction false} InsertCost(t: Tally)
    requires Good(t) && t.count < COUNT_LIMIT
    ensures var u := Step(t, InsertNew);
            Good(u) && u.relinked + Credit(u) <= t.relinked + Credit(t) + 2
  {
    CreditMoves(t, t.count + 1);
    SettleCost(t.(count := t.count + 1));
  }

  lemma {:induction false} RemoveCost(t: Tally)
    requires Good(t)
    ensures var u := Step(t, RemoveFound);
            Good(u) && u.relinked + Credit(u) <= t.relinked + Credit(t) + 2
  {
    if t.count > 0 {
      CreditMoves(t, t.count - 1);
      SettleCost(t.(count := t.count - 1));
    }
  }

  lemma {:induction false} ClearCost(t: Tally)
    requires MIN_SIZE <= t.size <= MAX_SIZE
    ensures Step(t, RemoveAll) == Tally(MIN_SIZE, 0, t.relinked)
  {
    SettleExact(t.(count := 0));
    NewSizeIs(0);
  }

  function Fees(ops: seq<Op>): nat
  {
    if ops == [] then 0 else Fees(ops[..|ops| - 1]) + Fee(ops[|ops| - 1])
  }

  /** The count never goes above the limit in the whole run. */
  ghost predicate StaysWithin(ops: seq<Op>, limit: nat)
  {
    Run(ops).count <= limit && (ops != [] ==> StaysWithin(ops[..|ops| - 1], limit))
  }

  lemma {:induction false} WithinThroughout(ops: seq<Op>, limit: nat, i: nat)
    requires StaysWithin(ops, limit) && i <= |ops|
    ensures Run(ops[..i]).count <= limit
  {
    if i == |ops| {
      assert ops[..i] == ops;
    } else {
      WithinThroughout(ops[..|ops| - 1], limit, i);
      assert ops[..|ops| - 1][..i] == ops[..i];
    }
  }

  lemma {:induction false} WithinFromParts(ops: seq<Op>, limit: nat, n: nat)
    requires n <= |ops| && forall i :: 0 <= i <= n ==> Run(ops[..i]).count <= limit
    ensures StaysWithin(ops[..n], limit)
  {
    if n > 0 {
      WithinFromParts(ops, limit, n - 1);
      assert ops[..n][..n - 1] == ops[..n - 1];
    }
  }

  /** That is, after every part of it. */
  lemma {:induction false} StaysWithinIff(ops: seq<Op>, limit: nat)
    ensures StaysWithin(ops, limit) <==> forall i :: 0 <= i <= |ops| ==> Run(ops[..i]).count <= limit
  {
    if StaysWithin(ops, limit) {
      forall i | 0 <= i <= |ops|
        ensures Run(ops[..i]).count <= limit
      {
        WithinThroughout(ops, limit, i);
      }
    }
    if forall i :: 0 <= i <= |ops| ==> Run(ops[..i]).count <= limit {
      WithinFromParts(ops, limit, |ops|);
      assert ops[..|ops|] == ops;
    }
  }

  lemma {:induction false} RunCost(ops: seq<Op>)
    requires StaysWithin(ops, COUNT_LIMIT)
    ensures Good(Run(ops))
    ensures Run(ops).relinked + Credit(Run(ops)) <= Fees(ops)
  {
    if ops != [] {
      RunCost(ops[..|ops| - 1]);
      StepCost(Run(ops[..|ops| - 1]), ops[|ops| - 1]);
    }
  }

  /** Amortised cost: over any run from a new table, resizes relink at most two nodes for every
      call of insert and remove, as long as the count times three fits 32 bits. */
  lemma {:induction false} AmortisedCost(ops: seq<Op>)
    requires StaysWithin(ops, COUNT_LIMIT)
    ensures Run(ops).relinked <= 2 * |ops|
    ensures Run(ops).relinked <= Fees(ops) == 2 * (|ops| - multiset(ops)[RemoveAll])
  {
    RunCost(ops);
    FeesBound(ops);
    FeesAre(ops);
  }

  /** Two for every call but remove_all. */
  lemma {:induction false} FeesAre(ops: seq<Op>)
    ensures Fees(ops) == 2 * (|ops| - multiset(ops)[RemoveAll])
  {
    if ops != [] {
      FeesAre(ops[..|ops| - 1]);
      assert ops == ops[..|ops| - 1] + [ops[|ops| - 1]];
    }
  }

  lemma {:induction false} FeesBound(ops: seq<Op>)
    ensures Fees(ops) <= 2 * |ops|
  {
    if ops != [] {
      FeesBound(ops[..|ops| - 1]);
    }
  }

  /** In a balanced table an insert never shrinks and a remove never grows. */
  lemma {:induction false} Direction(t: Tally)
    requires Good(t)
    ensures t.count < COUNT_LIMIT ==> Step(t, InsertNew).size >= t.size
    ensures Step(t, RemoveFound).size <= t.size
  {
    if t.count < COUNT_LIMIT {
      SettleExact(t.(count := t.count + 1));
      NewSizeIs(t.count + 1);
    }
    if t.count > 0 {
      SettleExact(t.(count := t.count - 1));
      NewSizeIs(t.count - 1);
    }
  }

  // ---- beyond the limit ----

  /** One node past the limit the product wraps to almost nothing: a table of the largest size is
      "resized" to that same size, relinking every node. */
  lemma {:induction false} ResizedAnyway(t: Tally)
    requires t.size == MAX_SIZE && t.count == COUNT_LIMIT + 1
    ensures Settle(t) == Tally(MAX_SIZE, t.count, t.relinked + t.count)
  {
    UnsignedWraps(3 * t.count);
    NewSizeIs(t.count);
  }

  /** At the limit itself nothing happens. */
  lemma {:induction false} LeftAlone(t: Tally)
    requires t.size == MAX_SIZE && t.count == COUNT_LIMIT
    ensures Settle(t) == t
  {
    SettleExact(t);
  }

  lemma {:induction false} OneMore(ops: seq<Op>, op: Op, limit: nat)
    requires StaysWithin(ops, limit) && Step(Run(ops), op).count <= limit
    ensures Run(ops + [op]) == Step(Run(ops), op) && StaysWithin(ops + [op], limit)
  {
    assert (ops + [op])[..|ops|] == ops;
  }

  lemma {:induction false} CountedUp(t: Tally)
    ensures Step(t, InsertNew).count == t.count + 1
  {
  }

  lemma {:induction false} Wider(ops: seq<Op>, limit: nat, wider: nat)
    requires StaysWithin(ops, limit) && limit <= wider
    ensures StaysWithin(ops, wider)
  {
    if ops != [] {
      Wider(ops[..|ops| - 1], limit, wider);
    }
  }

  /** A run of n inserts. */
  lemma {:induction false} Inserts(n: nat) returns (ops: seq<Op>)
    requires n <= COUNT_LIMIT
    ensures |ops| == n && Run(ops).count == n && Good(Run(ops)) && StaysWithin(ops, n)
  {
    ops := [];
    if n > 0 {
      var before := Inserts(n - 1);
      InsertCost(Run(before));
      CountedUp(Run(before));
      Wider(before, n - 1, n);
      OneMore(before, InsertNew, n);
      ops := before + [InsertNew];
    }
  }

  /** A run that is one node past the limit after `crossings` crossings of it. */
  ghost predicate Swung(limit: nat, ops: seq<Op>, crossings: nat)
  {
    && |ops| == limit + 1 + 2 * crossings && StaysWithin(ops, limit + 1)
    && Run(ops).size == MAX_SIZE && Run(ops).count == limit + 1
    && Run(ops).relinked >= crossings * (limit + 1)
  }

  lemma {:induction false} FirstCrossing(limit: nat) returns (ops: seq<Op>)
    requires 3 * limit == 0xffff_ffff
    ensures Swung(limit, ops, 0)
  {
    var before := Inserts(limit);
    AtLimit(Run(before), limit);
    Wider(before, limit, limit + 1);
    OneMore(before, InsertNew, limit + 1);
    ops := before + [InsertNew];
  }

  /** At the limit the size is the largest, and the next insert relinks everything. */
  lemma {:induction false} AtLimit(t: Tally, limit: nat)
    requires 3 * limit == 0xffff_ffff && MIN_SIZE <= t.size <= MAX_SIZE && Balanced(t.size, t.count) && t.count == limit
    ensures t.size == MAX_SIZE
    ensures Step(t, InsertNew) == Tally(MAX_SIZE, limit + 1, t.relinked + limit + 1)
  {
    ResizedAnyway(t.(count := limit + 1));
  }

  /** A remove from just past the limit leaves the table alone. */
  lemma {:induction false} BackToLimit(t: Tally, limit: nat)
    requires 3 * limit == 0xffff_ffff && t.size == MAX_SIZE && t.count == limit + 1
    ensures Step(t, RemoveFound) == Tally(MAX_SIZE, limit, t.relinked)
  {
    LeftAlone(t.(count := limit));
  }

  /** Every time the limit is crossed all the nodes are relinked. */
  lemma {:induction false} SwingBack(limit: nat, before: seq<Op>, crossings: nat) returns (ops: seq<Op>)
    requires 3 * limit == 0xffff_ffff && Swung(limit, before, crossings)
    ensures Swung(limit, ops, crossings + 1)
  {
    BackToLimit(Run(before), limit);
    OneMore(before, RemoveFound, limit + 1);
    var back := before + [RemoveFound];
    AtLimit(Run(back), limit);
    OneMore(back, InsertNew, limit + 1);
    ops := back + [InsertNew];
    assert (crossings + 1) * (limit + 1) == crossings * (limit + 1) + (limit + 1);
  }

  /** After three crossings the bound of AmortisedCost is broken. */
  lemma {:induction false} Overrun(limit: nat) returns (ops: seq<Op>)
    requires 3 * limit == 0xffff_ffff
    ensures StaysWithin(ops, limit + 1) && Run(ops).relinked > 2 * |ops|
  {
    ops := FirstCrossing(limit);
    ops := SwingBack(limit, ops, 0);
    ops := SwingBack(limit, ops, 1);
    ops := SwingBack(limit, ops, 2);
  }

  lemma {:induction false} Within(ops: seq<Op>, limit: nat)
    requires StaysWithin(ops, limit) && 3 * limit < 0x1_0000_0000
    ensures Run(ops).relinked <= 2 * |ops|
  {
    Wider(ops, limit, COUNT_LIMIT);
    AmortisedCost(ops);
  }

  lemma {:induction false} CountLimit() returns (limit: nat)
    ensures 3 * limit == 0xffff_ffff
  {
    limit := COUNT_LIMIT;
  }

  /** The amortised bound holds for all runs whose count stays within a limit exactly when three
      times that limit fits an unsigned int. */
  lemma {:induction false} CostBoundIff(limit: nat)
    ensures (forall ops :: StaysWithin(ops, limit) ==> Run(ops).relinked <= 2 * |ops|) <==> 3 * limit < 0x1_0000_0000
  {
    if 3 * limit < 0x1_0000_0000 {
      forall ops | StaysWithin(ops, limit)
        ensures Run(ops).relinked <= 2 * |ops|
      {
        Within(ops, limit);
      }
    } else {
      var most := CountLimit();
      var ops := Overrun(most);
      Wider(ops, most + 1, limit);
    }
  }
}
