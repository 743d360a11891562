/** What the market computes from its trade ledger, stated independently
    of the order of the ledger and of the loops that compute it: the volume
    weighted stock price over the last fifteen minutes and the GBCE all
    share index.
 */
module Ledger {
  import opened Outcomes
  import opened Stocks
  import opened Trades

  /** Fifteen minutes in ticks of 100 nanoseconds. */
  const FifteenMinutes: int := 15 * 60 * 10_000_000

  /** Every trade of the ledger came out of the trade constructor. */
  predicate ValidLedger(ts: seq<Trade>) {
    forall t :: t in ts ==> ValidTrade(t)
  }

  /** Where the last trade of `s` sits in a permutation `t` of it, and
      that the rest of `s` is a permutation of the rest of `t`. */
  lemma MatchLast(s: seq<Trade>, t: seq<Trade>) returns (k: nat)
    requires multiset(s) == multiset(t) && s != []
    ensures k < |t| && t[k] == s[|s| - 1]
    ensures multiset(s[..|s| - 1]) == multiset(t[..k] + t[k + 1..])
  {
    var n := |s| - 1;
    var x := s[n];
    assert s == s[..n] + [x];
    assert x in multiset(t);
    k :| 0 <= k < |t| && t[k] == x;
    assert t == t[..k] + [x] + t[k + 1..];
    var t' := t[..k] + t[k + 1..];
    calc {
      multiset(s[..n]);
      multiset(s) - multiset{x};
      multiset(t) - multiset{x};
      (multiset(t[..k]) + multiset{x} + multiset(t[k + 1..])) - multiset{x};
      multiset(t[..k]) + multiset(t[k + 1..]);
      multiset(t');
    }
  }

  /** Every trade of a prefix is a trade of the ledger. */
  lemma PrefixMembers(ts: seq<Trade>, i: nat)
    requires i <= |ts|
    ensures forall t :: t in ts[..i] ==> t in ts
  {
    forall t | t in ts[..i]
      ensures t in ts
    {
      var j :| 0 <= j < i && ts[..i][j] == t;
      assert ts[j] == t;
    }
  }

  lemma MultiplyMonotone(a: real, b: real, c: real)
    requires a <= b && c >= 0.0
    ensures a * c <= b * c
  {
    assert b * c - a * c == (b - a) * c;
  }

  lemma NonNegativeFactor(a: real, v: real)
    requires v > 0.0 && a * v >= 0.0
    ensures a >= 0.0
  {
  }

  // ---------------------------------------------------------------------
  // Folds over the ledger: the sums of the price query and the product of
  // the index are both one trade at a time, combined by an operation whose
  // result does not depend on the order of the trades.

  /** `op` is associative and commutative with identity `unit`, as addition
      with 0 and multiplication with 1 are. */
  ghost predicate CommutativeMonoid(op: (real, real) -> real, unit: real) {
    && (forall a :: op(a, unit) == a)
    && (forall a, b :: op(a, b) == op(b, a))
    && (forall a, b, c :: op(op(a, b), c) == op(a, op(b, c)))
  }

  lemma Associate(op: (real, real) -> real, unit: real, x: real, y: real, z: real)
    requires CommutativeMonoid(op, unit)
    ensures op(op(x, y), z) == op(x, op(y, z))
  {
  }

  /** `w` of each trade of `ts`, combined by `op` from the front. */
  function Fold(ts: seq<Trade>, w: Trade -> real, op: (real, real) -> real, unit: real): real {
    if ts == [] then unit else op(Fold(ts[..|ts| - 1], w, op, unit), w(ts[|ts| - 1]))
  }

  lemma {:induction false} FoldAppend(a: seq<Trade>, b: seq<Trade>, w: Trade -> real, op: (real, real) -> real, unit: real)
    requires CommutativeMonoid(op, unit)
    ensures Fold(a + b, w, op, unit) == op(Fold(a, w, op, unit), Fold(b, w, op, unit))
    decreases |b|
  {
    if b == [] {
      assert a + b == a;
    } else {
      var b' := b[..|b| - 1];
      var last := b[|b| - 1];
      assert (a + b)[..|a + b| - 1] == a + b' && (a + b)[|a + b| - 1] == last;
      FoldAppend(a, b', w, op, unit);
      var fa, fb' := Fold(a, w, op, unit), Fold(b', w, op, unit);
      calc {
        Fold(a + b, w, op, unit);
        op(Fold(a + b', w, op, unit), w(last));
        op(op(fa, fb'), w(last));
        { Associate(op, unit, fa, fb', w(last)); }
        op(fa, op(fb', w(last)));
        op(fa, Fold(b, w, op, unit));
      }
    }
  }

  /** A fold does not depend on the order of the trades. */
  lemma {:induction false} FoldPermutation(s: seq<Trade>, t: seq<Trade>, w: Trade -> real, op: (real, real) -> real, unit: real)
    requires CommutativeMonoid(op, unit)
    requires multiset(s) == multiset(t)
    ensures Fold(s, w, op, unit) == Fold(t, w, op, unit)
    decreases |s|
  {
    if s == [] {
      assert |t| == |multiset(t)| == 0;
    } else {
      var n := |s| - 1;
      var x := s[n];
      var k := MatchLast(s, t);
      var before, after := t[..k], t[k + 1..];
      assert t == before + ([x] + after);
      FoldPermutation(s[..n], before + after, w, op, unit);
      FoldAppend(before, [x] + after, w, op, unit);
      FoldAppend([x], after, w, op, unit);
      FoldAppend(before, after, w, op, unit);
      assert Fold([x], w, op, unit) == w(x) by {
        assert [x][..0] == [];
      }
    }
  }

  /** One step of a fold over a prefix of the ledger. */
  lemma PrefixStep(ts: seq<Trade>, i: nat, w: Trade -> real, op: (real, real) -> real, unit: real)
    requires 0 < i <= |ts|
    ensures Fold(ts[..i], w, op, unit) == op(Fold(ts[..i - 1], w, op, unit), w(ts[i - 1]))
  {
    assert ts[..i][..i - 1] == ts[..i - 1];
  }

  function Plus(a: real, b: real): real {
    a + b
  }

  function Times(a: real, b: real): real {
    a * b
  }

  lemma PlusIsCommutativeMonoid()
    ensures CommutativeMonoid(Plus, 0.0)
  {
  }

  lemma TimesIsCommutativeMonoid()
    ensures CommutativeMonoid(Times, 1.0)
  {
  }

  // ---------------------------------------------------------------------
  // Sums over the ledger

  /** The sum of `w` over the trades of `ts`. */
  function Sum(ts: seq<Trade>, w: Trade -> real): real {
    Fold(ts, w, Plus, 0.0)
  }

  lemma SumAppend(a: seq<Trade>, b: seq<Trade>, w: Trade -> real)
    ensures Sum(a + b, w) == Sum(a, w) + Sum(b, w)
  {
    PlusIsCommutativeMonoid();
    FoldAppend(a, b, w, Plus, 0.0);
  }

  /** A sum does not depend on the order of the trades. */
  lemma SumPermutation(s: seq<Trade>, t: seq<Trade>, w: Trade -> real)
    requires multiset(s) == multiset(t)
    ensures Sum(s, w) == Sum(t, w)
  {
    PlusIsCommutativeMonoid();
    FoldPermutation(s, t, w, Plus, 0.0);
  }

  lemma {:induction false} SumOfZeros(ts: seq<Trade>, w: Trade -> real)
    requires forall t :: t in ts ==> w(t) == 0.0
    ensures Sum(ts, w) == 0.0
    decreases |ts|
  {
    if ts != [] {
      SumOfZeros(ts[..|ts| - 1], w);
    }
  }

  // ---------------------------------------------------------------------
  // The volume weighted stock price

  /** A trade counts towards the price of `kind` when it is of that type and
      no older than the cutoff; a trade exactly at the cutoff counts. */
  predicate InWindow(t: Trade, kind: StockType, cutoff: int) {
    t.stockType == kind && t.timestamp >= cutoff
  }

  function PriceTimesQuantity(kind: StockType, cutoff: int): Trade -> real {
    t => if InWindow(t, kind, cutoff) then t.price * (t.quantity as real) else 0.0
  }

  function QuantityTraded(kind: StockType, cutoff: int): Trade -> real {
    t => if InWindow(t, kind, cutoff) then t.quantity as real else 0.0
  }

  /** Sum of price times quantity over the trades in the window. */
  function Numerator(ts: seq<Trade>, kind: StockType, cutoff: int): real {
    Sum(ts, PriceTimesQuantity(kind, cutoff))
  }

  /** Sum of quantities over the trades in the window. */
  function Volume(ts: seq<Trade>, kind: StockType, cutoff: int): real {
    Sum(ts, QuantityTraded(kind, cutoff))
  }

  /** The volume weighted stock price of `kind` at instant `now`: the
      quantity-weighted mean price of the trades of that type made in the
      fifteen minutes up to `now`. */
  function VolumeWeightedPrice(ts: seq<Trade>, kind: StockType, now: int): Result<real> {
    if |ts| == 0 then Err(NoTradesForVolumeWeightedPrice)
    else
      var cutoff := now - FifteenMinutes;
      var volume := Volume(ts, kind, cutoff);
      if volume == 0.0 then Err(NoTradesInWindow)
      else Ok(Numerator(ts, kind, cutoff) / volume)
  }

  /** Once the ledger is sorted newest first, the trades from the first one
      older than the cutoff onwards contribute nothing: this is why the scan
      may stop there. */
  lemma OlderTrailDoesNotCount(ts: seq<Trade>, i: nat, kind: StockType, cutoff: int)
    requires SortedByCompareTo(ts)
    requires i < |ts| && ts[i].timestamp < cutoff
    ensures Numerator(ts, kind, cutoff) == Numerator(ts[..i], kind, cutoff)
    ensures Volume(ts, kind, cutoff) == Volume(ts[..i], kind, cutoff)
  {
    SortedIsNewestFirst(ts);
    assert ts == ts[..i] + ts[i..];
    forall t | t in ts[i..]
      ensures PriceTimesQuantity(kind, cutoff)(t) == 0.0 && QuantityTraded(kind, cutoff)(t) == 0.0
    {
      var j :| 0 <= j < |ts[i..]| && ts[i..][j] == t;
      assert t == ts[i + j];
    }
    SumOfZeros(ts[i..], PriceTimesQuantity(kind, cutoff));
    SumOfZeros(ts[i..], QuantityTraded(kind, cutoff));
    SumAppend(ts[..i], ts[i..], PriceTimesQuantity(kind, cutoff));
    SumAppend(ts[..i], ts[i..], QuantityTraded(kind, cutoff));
  }

  /** The price depends on the ledger's contents, not on its order: sorting
      the ledger, as every query does, does not change any later answer. */
  lemma VolumeWeightedPriceIgnoresOrder(s: seq<Trade>, t: seq<Trade>, kind: StockType, now: int)
    requires multiset(s) == multiset(t)
    ensures VolumeWeightedPrice(s, kind, now) == VolumeWeightedPrice(t, kind, now)
  {
    var cutoff := now - FifteenMinutes;
    assert |s| == |multiset(s)| == |t|;
    SumPermutation(s, t, PriceTimesQuantity(kind, cutoff));
    SumPermutation(s, t, QuantityTraded(kind, cutoff));
  }

  /** With positive quantities the volume is never negative, and it is zero
      exactly when no trade lies in the window. */
  lemma {:induction false} VolumeZeroIffWindowEmpty(ts: seq<Trade>, kind: StockType, cutoff: int)
    requires ValidLedger(ts)
    ensures Volume(ts, kind, cutoff) >= 0.0
    ensures Volume(ts, kind, cutoff) == 0.0 <==> forall t :: t in ts ==> !InWindow(t, kind, cutoff)
    decreases |ts|
  {
    if ts != [] {
      var init, last := ts[..|ts| - 1], ts[|ts| - 1];
      assert ts == init + [last];
      VolumeZeroIffWindowEmpty(init, kind, cutoff);
      assert last in ts;
    }
  }

  /** The price fails on an empty ledger, and otherwise fails exactly when
      no trade of the asked type lies in the fifteen-minute window. */
  lemma VolumeWeightedPriceFailures(ts: seq<Trade>, kind: StockType, now: int)
    requires ValidLedger(ts)
    ensures VolumeWeightedPrice(ts, kind, now) == Err(NoTradesForVolumeWeightedPrice) <==> |ts| == 0
    ensures VolumeWeightedPrice(ts, kind, now) == Err(NoTradesInWindow) <==>
              |ts| > 0 && forall t :: t in ts ==> !InWindow(t, kind, now - FifteenMinutes)
    ensures VolumeWeightedPrice(ts, kind, now).Ok? <==>
              exists t :: t in ts && InWindow(t, kind, now - FifteenMinutes)
  {
    VolumeZeroIffWindowEmpty(ts, kind, now - FifteenMinutes);
  }

  /** Every trade in the window priced at least `lo`: the numerator is at
      least `lo` times the volume. */
  lemma {:induction false} NumeratorAtLeast(ts: seq<Trade>, kind: StockType, cutoff: int, lo: real)
    requires ValidLedger(ts)
    requires forall t :: t in ts && InWindow(t, kind, cutoff) ==> lo <= t.price
    ensures lo * Volume(ts, kind, cutoff) <= Numerator(ts, kind, cutoff)
    decreases |ts|
  {
    if ts != [] {
      var init, last := ts[..|ts| - 1], ts[|ts| - 1];
      PrefixMembers(ts, |init|);
      NumeratorAtLeast(init, kind, cutoff, lo);
      assert last in ts;
      if InWindow(last, kind, cutoff) {
        MultiplyMonotone(lo, last.price, last.quantity as real);
      }
    }
  }

  /** Every trade in the window priced at most `hi`: the numerator is at
      most `hi` times the volume. */
  lemma {:induction false} NumeratorAtMost(ts: seq<Trade>, kind: StockType, cutoff: int, hi: real)
    requires ValidLedger(ts)
    requires forall t :: t in ts && InWindow(t, kind, cutoff) ==> t.price <= hi
    ensures Numerator(ts, kind, cutoff) <= hi * Volume(ts, kind, cutoff)
    decreases |ts|
  {
    if ts != [] {
      var init, last := ts[..|ts| - 1], ts[|ts| - 1];
      PrefixMembers(ts, |init|);
      NumeratorAtMost(init, kind, cutoff, hi);
      assert last in ts;
      if InWindow(last, kind, cutoff) {
        MultiplyMonotone(last.price, hi, last.quantity as real);
      }
    }
  }

  /** The volume weighted price lies between the lowest and the highest
      price traded in the window. */
  lemma VolumeWeightedPriceWithinPriceRange(ts: seq<Trade>, kind: StockType, now: int, lo: real, hi: real)
    requires ValidLedger(ts)
    requires forall t :: t in ts && InWindow(t, kind, now - FifteenMinutes) ==> lo <= t.price <= hi
    requires VolumeWeightedPrice(ts, kind, now).Ok?
    ensures lo <= VolumeWeightedPrice(ts, kind, now).value <= hi
  {
    var cutoff := now - FifteenMinutes;
    var n, v := Numerator(ts, kind, cutoff), Volume(ts, kind, cutoff);
    VolumeZeroIffWindowEmpty(ts, kind, cutoff);
    NumeratorAtLeast(ts, kind, cutoff, lo);
    NumeratorAtMost(ts, kind, cutoff, hi);
    assert v > 0.0;
    var r := n / v;
    assert r * v == n;
    NonNegativeFactor(r - lo, v);
    NonNegativeFactor(hi - r, v);
  }

  /** A single trade exactly at the cutoff is inside the window: the price
      of its type is then its own price. */
  lemma TradeAtCutoffCounts(t: Trade, now: int)
    requires ValidTrade(t) && t.timestamp == now - FifteenMinutes
    ensures VolumeWeightedPrice([t], t.stockType, now) == Ok(t.price)
  {
    var cutoff := now - FifteenMinutes;
    assert [t][..0] == [];
    var q := t.quantity as real;
    var pq, qt := PriceTimesQuantity(t.stockType, cutoff), QuantityTraded(t.stockType, cutoff);
    assert Sum([t], qt) == Sum([], qt) + qt(t);
    assert Sum([t], pq) == Sum([], pq) + pq(t);
    assert Volume([t], t.stockType, cutoff) == q;
    assert Numerator([t], t.stockType, cutoff) == t.price * q;
    assert (t.price * q) / q == t.price;
  }

  // ---------------------------------------------------------------------
  // The GBCE all share index

  function Price(t: Trade): real {
    t.price
  }

  /** The product of the prices of all trades. */
  function PriceProduct(ts: seq<Trade>): real {
    Fold(ts, Price, Times, 1.0)
  }

  /** The product does not depend on the order of the trades. */
  lemma PriceProductPermutation(s: seq<Trade>, t: seq<Trade>)
    requires multiset(s) == multiset(t)
    ensures PriceProduct(s) == PriceProduct(t)
  {
    TimesIsCommutativeMonoid();
    FoldPermutation(s, t, Price, Times, 1.0);
  }

  /** `x` raised to the power `n`. */
  function Power(x: real, n: nat): real {
    if n == 0 then 1.0 else x * Power(x, n - 1)
  }

  /** The `degree`-th root of `radicand`: the value the system computes as
      radicand raised to the power 1/degree. It is kept symbolic; `Denotes`
      says which real it stands for. */
  datatype RootOf = RootOf(radicand: real, degree: nat)

  ghost predicate Denotes(x: real, root: RootOf) {
    x >= 0.0 && Power(x, root.degree) == root.radicand
  }

  lemma {:induction false} PowerNonNegative(x: real, n: nat)
    requires x >= 0.0
    ensures Power(x, n) >= 0.0
  {
    if n > 0 {
      PowerNonNegative(x, n - 1);
      MultiplyMonotone(0.0, x, Power(x, n - 1));
    }
  }

  lemma {:induction false} PowerPositive(x: real, n: nat)
    requires x > 0.0
    ensures Power(x, n) > 0.0
  {
    if n > 0 {
      PowerPositive(x, n - 1);
    }
  }

  lemma {:induction false} PowerMonotone(x: real, y: real, n: nat)
    requires 0.0 <= x <= y
    ensures Power(x, n) <= Power(y, n)
  {
    if n > 0 {
      PowerMonotone(x, y, n - 1);
      PowerNonNegative(x, n - 1);
      PowerNonNegative(y, n - 1);
      MultiplyMonotone(x, y, Power(x, n - 1));
      MultiplyMonotone(Power(x, n - 1), Power(y, n - 1), y);
    }
  }

  lemma PowerStrictlyMonotone(x: real, y: real, n: nat)
    requires 0.0 <= x < y && n > 0
    ensures Power(x, n) < Power(y, n)
  {
    var px, py := Power(x, n - 1), Power(y, n - 1);
    PowerMonotone(x, y, n - 1);
    PowerPositive(y, n - 1);
    MultiplyMonotone(px, py, x);
    assert x * py < y * py by {
      assert y * py - x * py == (y - x) * py;
    }
  }

  /** A root of positive degree stands for at most one non-negative real. */
  lemma RootUnique(x: real, y: real, root: RootOf)
    requires root.degree > 0 && Denotes(x, root) && Denotes(y, root)
    ensures x == y
  {
    if x < y {
      PowerStrictlyMonotone(x, y, root.degree);
    } else if y < x {
      PowerStrictlyMonotone(y, x, root.degree);
    }
  }

  /** The GBCE all share index: the geometric mean of the prices of all
      trades, whatever their type and age. */
  function AllShareIndex(ts: seq<Trade>): Result<RootOf> {
    if |ts| == 0 then Err(NoTradesForAllShareIndex)
    else Ok(RootOf(PriceProduct(ts), |ts|))
  }

  /** The index depends on the ledger's contents, not on its order, so the
      sort done by the price query does not change it. */
  lemma AllShareIndexIgnoresOrder(s: seq<Trade>, t: seq<Trade>)
    requires multiset(s) == multiset(t)
    ensures AllShareIndex(s) == AllShareIndex(t)
  {
    assert |s| == |multiset(s)| == |t|;
    PriceProductPermutation(s, t);
  }

  /** On a single trade the index is exactly that trade's price. */
  lemma SingleTradeIndexIsItsPrice(t: Trade)
    requires ValidTrade(t)
    ensures AllShareIndex([t]) == Ok(RootOf(t.price, 1))
    ensures Denotes(t.price, AllShareIndex([t]).value)
    ensures forall x :: Denotes(x, AllShareIndex([t]).value) ==> x == t.price
  {
    assert [t][..0] == [];
    assert PriceProduct([t]) == PriceProduct([]) * t.price;
    assert Power(t.price, 1) == t.price * Power(t.price, 0);
    forall x | Denotes(x, RootOf(t.price, 1))
      ensures x == t.price
    {
      RootUnique(x, t.price, RootOf(t.price, 1));
    }
  }

  /** Every price at least `lo` (itself not negative): the product is at
      least `lo` to the number of trades. */
  lemma {:induction false} PriceProductAtLeast(ts: seq<Trade>, lo: real)
    requires 0.0 <= lo
    requires forall t :: t in ts ==> lo <= t.price
    ensures Power(lo, |ts|) <= PriceProduct(ts)
    decreases |ts|
  {
    if ts != [] {
      var init, last := ts[..|ts| - 1], ts[|ts| - 1];
      PrefixMembers(ts, |init|);
      PriceProductAtLeast(init, lo);
      assert last in ts;
      assert PriceProduct(ts) == PriceProduct(init) * last.price;
      LowerStep(|init|, lo, PriceProduct(init), last.price);
    }
  }

  lemma LowerStep(n: nat, lo: real, p: real, x: real)
    requires 0.0 <= lo <= x && Power(lo, n) <= p
    ensures Power(lo, n + 1) <= p * x
  {
    PowerNonNegative(lo, n);
    MultiplyMonotone(Power(lo, n), p, lo);
    MultiplyMonotone(lo, x, p);
  }

  /** Every price in [0, hi]: the product is at most `hi` to the number of
      trades. */
  lemma {:induction false} PriceProductAtMost(ts: seq<Trade>, hi: real)
    requires forall t :: t in ts ==> 0.0 <= t.price <= hi
    ensures 0.0 <= PriceProduct(ts) <= Power(hi, |ts|)
    decreases |ts|
  {
    if ts != [] {
      var init, last := ts[..|ts| - 1], ts[|ts| - 1];
      PrefixMembers(ts, |init|);
      PriceProductAtMost(init, hi);
      assert last in ts;
      assert PriceProduct(ts) == PriceProduct(init) * last.price;
      UpperStep(|init|, hi, PriceProduct(init), last.price);
    }
  }

  lemma UpperStep(n: nat, hi: real, p: real, x: real)
    requires 0.0 <= x <= hi && 0.0 <= p <= Power(hi, n)
    ensures 0.0 <= p * x <= Power(hi, n + 1)
  {
    MultiplyMonotone(0.0, x, p);
    MultiplyMonotone(x, hi, p);
    MultiplyMonotone(p, Power(hi, n), hi);
  }

  /** The index lies between the lowest and the highest traded price. */
  lemma AllShareIndexWithinPriceRange(ts: seq<Trade>, lo: real, hi: real, x: real)
    requires 0.0 <= lo
    requires forall t :: t in ts ==> lo <= t.price <= hi
    requires AllShareIndex(ts).Ok? && Denotes(x, AllShareIndex(ts).value)
    ensures lo <= x <= hi
  {
    var n := |ts|;
    PriceProductAtLeast(ts, lo);
    PriceProductAtMost(ts, hi);
    if x < lo {
      PowerStrictlyMonotone(x, lo, n);
    }
    if hi < x {
      assert ts[0] in ts;
      PowerStrictlyMonotone(hi, x, n);
    }
  }

  /** The ledger of the system's worked examples: TEA, POP and ALE (Common),
      GIN (Preferred) and JOE (Common) bought one second apart, from
      `start`, in quantities 1 to 5 at prices 10 to 50. */
  function StandardLedger(start: int): seq<Trade> {
    var second := 10_000_000;
    [Trade(start, Common, 1, Buy, 10.0),
     Trade(start + second, Common, 2, Buy, 20.0),
     Trade(start + 2 * second, Common, 3, Buy, 30.0),
     Trade(start + 3 * second, Preferred, 4, Buy, 40.0),
     Trade(start + 4 * second, Common, 5, Buy, 50.0)]
  }

  /** A fold over a ledger of five trades, written out term by term. */
  lemma FoldOfFive(ts: seq<Trade>, w: Trade -> real, op: (real, real) -> real, unit: real)
    requires |ts| == 5
    ensures Fold(ts, w, op, unit) ==
      op(op(op(op(op(unit, w(ts[0])), w(ts[1])), w(ts[2])), w(ts[3])), w(ts[4]))
  {
    assert ts[..0] == [];
    PrefixStep(ts, 1, w, op, unit);
    PrefixStep(ts, 2, w, op, unit);
    PrefixStep(ts, 3, w, op, unit);
    PrefixStep(ts, 4, w, op, unit);
    PrefixStep(ts, 5, w, op, unit);
    assert ts[..5] == ts;
  }

  /** Queried within fifteen minutes of the first trade, the worked examples
      give 390/11 for Common stock, 40 for Preferred stock, and the fifth
      root of 10 * 20 * 30 * 40 * 50 for the all share index. */
  lemma StandardLedgerQueries(start: int, now: int)
    requires now - FifteenMinutes <= start
    ensures VolumeWeightedPrice(StandardLedger(start), Common, now) == Ok(390.0 / 11.0)
    ensures VolumeWeightedPrice(StandardLedger(start), Preferred, now) == Ok(40.0)
    ensures AllShareIndex(StandardLedger(start)) == Ok(RootOf(12000000.0, 5))
  {
    var ts := StandardLedger(start);
    var cutoff := now - FifteenMinutes;
    FoldOfFive(ts, PriceTimesQuantity(Common, cutoff), Plus, 0.0);
    FoldOfFive(ts, QuantityTraded(Common, cutoff), Plus, 0.0);
    FoldOfFive(ts, PriceTimesQuantity(Preferred, cutoff), Plus, 0.0);
    FoldOfFive(ts, QuantityTraded(Preferred, cutoff), Plus, 0.0);
    FoldOfFive(ts, Price, Times, 1.0);
  }
}
