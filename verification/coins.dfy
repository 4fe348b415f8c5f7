/**
 * The coin catalogue and the arithmetic of a coin store, as pure functions over the
 * per-denomination counts (`seq<nat>`, indexed by a coin's ordinal):
 * the `Coin` enumeration and `Coin.find`, the value and coin count of a store, the greedy
 * change computation behind `getChange` and `canFindCorrectChange`, and `isValidPrice`.
 */
module Coins {
  import opened Wrappers

  /** The accepted denominations, declared in descending order of value. */
  datatype Coin = Pound | Fifty | Twenty | Ten {

    /** Face value in pence. */
    function Pence(): (p: nat)
      ensures p > 0
    {
      match this
      case Pound => 100
      case Fifty => 50
      case Twenty => 20
      case Ten => 10
    }

    /** Position in the catalogue; also the index of this coin's count in a store. */
    function Ordinal(): (k: nat)
      ensures k < |AllCoins| && AllCoins[k] == this
    {
      match this
      case Pound => 0
      case Fifty => 1
      case Twenty => 2
      case Ten => 3
    }
  }

  /** The catalogue in declaration order, as `Coin.values()` lists it. */
  const AllCoins: seq<Coin> := [Pound, Fifty, Twenty, Ten]

  /** An empty store. */
  const NoCoins: seq<nat> := [0, 0, 0, 0]

  datatype CoinError =
    | UnrecognisedCoin(pence: int)   // no coin of this face value
    | InsufficientBalance            // change asked for exceeds the store's value
    | NegativeAmount                 // change asked for is negative

  function Min(a: int, b: int): int { if a <= b then a else b }

  /** The catalogue is strictly descending in value and its last (smallest) coin is 10p. */
  lemma CatalogueDescending()
    ensures forall i, j :: 0 <= i < j < |AllCoins| ==> AllCoins[i].Pence() > AllCoins[j].Pence()
    ensures AllCoins[|AllCoins| - 1].Pence() == 10
  {
  }

  // ---------------------------------------------------------------- Coin.find

  /** Linear search of `coins` for the first coin whose face value is `pence`. */
  function FindIn(coins: seq<Coin>, pence: int): (r: Option<Coin>)
    ensures r.Some? ==> r.value in coins && r.value.Pence() == pence
    ensures r.None? ==> forall k :: 0 <= k < |coins| ==> coins[k].Pence() != pence
  {
    if coins == [] then None
    else if coins[0].Pence() == pence then Some(coins[0])
    else FindIn(coins[1..], pence)
  }

  /** The coin whose face value is `pence`, if the catalogue has one. */
  function Find(pence: int): (r: Option<Coin>)
    ensures r.Some? ==> r.value.Pence() == pence
    ensures r.None? ==> forall c: Coin :: c.Pence() != pence
  {
    var r := FindIn(AllCoins, pence);
    assert r.None? ==> forall c: Coin :: c.Pence() != pence by {
      if r.None? {
        forall c: Coin ensures c.Pence() != pence {
          assert AllCoins[c.Ordinal()] == c;
        }
      }
    }
    r
  }

  // ---------------------------------------------------------------- value and coin count

  /** Sum over the listed coins of count × face value. */
  function Weigh(counts: seq<nat>, coins: seq<Coin>): nat
    requires |counts| == |coins|
  {
    if counts == [] then 0 else counts[0] * coins[0].Pence() + Weigh(counts[1..], coins[1..])
  }

  /** Total value of a store, in pence (`getValue`). */
  function Value(counts: seq<nat>): nat
    requires |counts| == |AllCoins|
  {
    Weigh(counts, AllCoins)
  }

  /** Number of coins held, whatever their denomination (`getCoinCount()`). */
  function Tally(counts: seq<nat>): nat
  {
    if counts == [] then 0 else counts[0] + Tally(counts[1..])
  }

  /** Denomination-wise sum of two stores. */
  function Plus(a: seq<nat>, b: seq<nat>): (r: seq<nat>)
    requires |a| == |b|
  {
    seq(|a|, k requires 0 <= k < |a| => a[k] + b[k])
  }

  /** Denomination-wise difference of two stores, where `b` is within `a`. */
  function Minus(a: seq<nat>, b: seq<nat>): (r: seq<nat>)
    requires |a| == |b|
    requires forall k :: 0 <= k < |a| ==> b[k] <= a[k]
  {
    seq(|a|, k requires 0 <= k < |a| => a[k] - b[k])
  }

  lemma {:induction false} WeighPlus(a: seq<nat>, b: seq<nat>, coins: seq<Coin>)
    requires |a| == |b| == |coins|
    ensures Weigh(Plus(a, b), coins) == Weigh(a, coins) + Weigh(b, coins)
  {
    if a != [] {
      assert Plus(a, b)[1..] == Plus(a[1..], b[1..]);
      WeighPlus(a[1..], b[1..], coins[1..]);
    }
  }

  lemma {:induction false} WeighMinus(a: seq<nat>, b: seq<nat>, coins: seq<Coin>)
    requires |a| == |b| == |coins|
    requires forall k :: 0 <= k < |a| ==> b[k] <= a[k]
    ensures Weigh(Minus(a, b), coins) == Weigh(a, coins) - Weigh(b, coins)
  {
    if a != [] {
      assert Minus(a, b)[1..] == Minus(a[1..], b[1..]);
      WeighMinus(a[1..], b[1..], coins[1..]);
    }
  }

  lemma {:induction false} TallyPlus(a: seq<nat>, b: seq<nat>)
    requires |a| == |b|
    ensures Tally(Plus(a, b)) == Tally(a) + Tally(b)
  {
    if a != [] {
      assert Plus(a, b)[1..] == Plus(a[1..], b[1..]);
      TallyPlus(a[1..], b[1..]);
    }
  }

  lemma {:induction false} TallyMinus(a: seq<nat>, b: seq<nat>)
    requires |a| == |b|
    requires forall k :: 0 <= k < |a| ==> b[k] <= a[k]
    ensures Tally(Minus(a, b)) == Tally(a) - Tally(b)
  {
    if a != [] {
      assert Minus(a, b)[1..] == Minus(a[1..], b[1..]);
      TallyMinus(a[1..], b[1..]);
    }
  }

  /** Merging two stores adds their values and their coin counts. */
  lemma MergeConserves(a: seq<nat>, b: seq<nat>)
    requires |a| == |b| == |AllCoins|
    ensures Value(Plus(a, b)) == Value(a) + Value(b)
    ensures Tally(Plus(a, b)) == Tally(a) + Tally(b)
  {
    WeighPlus(a, b, AllCoins);
    TallyPlus(a, b);
  }

  /** Taking `b` out of `a` removes exactly its value and its coins. */
  lemma RemovalConserves(a: seq<nat>, b: seq<nat>)
    requires |a| == |b| == |AllCoins|
    requires forall k :: 0 <= k < |a| ==> b[k] <= a[k]
    ensures Value(Minus(a, b)) == Value(a) - Value(b)
    ensures Tally(Minus(a, b)) == Tally(a) - Tally(b)
  {
    WeighMinus(a, b, AllCoins);
    TallyMinus(a, b);
  }

  /** Changing one count changes the weighed value by the difference times that coin's value. */
  lemma {:induction false} WeighUpdate(counts: seq<nat>, coins: seq<Coin>, k: nat, x: nat)
    requires |counts| == |coins| && k < |counts|
    ensures Weigh(counts[k := x], coins) == Weigh(counts, coins) + (x - counts[k]) * coins[k].Pence()
  {
    if k == 0 {
      assert counts[k := x][1..] == counts[1..];
    } else {
      assert counts[k := x][1..] == counts[1..][k - 1 := x];
      WeighUpdate(counts[1..], coins[1..], k - 1, x);
    }
  }

  /** Adding one coin `c` raises the value by exactly its face value (`addCoin(Coin)`). */
  lemma AddOneCoin(counts: seq<nat>, c: Coin)
    requires |counts| == |AllCoins|
    ensures Value(counts[c.Ordinal() := counts[c.Ordinal()] + 1]) == Value(counts) + c.Pence()
    ensures Tally(counts[c.Ordinal() := counts[c.Ordinal()] + 1]) == Tally(counts) + 1
  {
    WeighUpdate(counts, AllCoins, c.Ordinal(), counts[c.Ordinal()] + 1);
    TallyUpdate(counts, c.Ordinal(), counts[c.Ordinal()] + 1);
  }

  lemma {:induction false} TallyUpdate(counts: seq<nat>, k: nat, x: nat)
    requires k < |counts|
    ensures Tally(counts[k := x]) == Tally(counts) + x - counts[k]
  {
    if k == 0 {
      assert counts[k := x][1..] == counts[1..];
    } else {
      assert counts[k := x][1..] == counts[1..][k - 1 := x];
      TallyUpdate(counts[1..], k - 1, x);
    }
  }

  /** One denomination's share never exceeds the whole value. */
  lemma {:induction false} WeighTermBound(counts: seq<nat>, coins: seq<Coin>, k: nat)
    requires |counts| == |coins| && k < |counts|
    ensures counts[k] * coins[k].Pence() <= Weigh(counts, coins)
  {
    if k > 0 {
      WeighTermBound(counts[1..], coins[1..], k - 1);
    }
  }

  // ---------------------------------------------------------------- greedy change

  /** How many coins of value `coin` the greedy walk takes when `pence` is still owed. */
  function Use(pence: nat, coin: Coin, available: nat): (n: nat)
    ensures n * coin.Pence() <= pence
  {
    var n := Min(pence / coin.Pence(), available);
    MulDivBound(pence, coin.Pence(), n);
    n
  }

  lemma MulDivBound(n: nat, d: nat, q: nat)
    requires d > 0 && q <= n / d
    ensures q * d <= n
  {
    assert q * d <= (n / d) * d;
  }

  /**
   * Coins taken by the greedy walk over `coins` (in order) to make up `pence`
   * from the `avail` counts: at each coin, as many as are owed and available.
   */
  function Take(avail: seq<nat>, coins: seq<Coin>, pence: nat): (take: seq<nat>)
    requires |avail| == |coins|
    ensures |take| == |avail|
  {
    if avail == [] then []
    else
      var n := Use(pence, coins[0], avail[0]);
      [n] + Take(avail[1..], coins[1..], pence - n * coins[0].Pence())
  }

  /** What is still owed after the greedy walk (the final `pence` of `getChange`). */
  function Shortfall(avail: seq<nat>, coins: seq<Coin>, pence: nat): nat
    requires |avail| == |coins|
  {
    if avail == [] then pence
    else
      var n := Use(pence, coins[0], avail[0]);
      Shortfall(avail[1..], coins[1..], pence - n * coins[0].Pence())
  }

  /** The greedy change for `pence` from a store, walking the catalogue from £1 down to 10p. */
  function Greedy(avail: seq<nat>, pence: nat): (change: seq<nat>)
    requires |avail| == |AllCoins|
  {
    Take(avail, AllCoins, pence)
  }

  /** The coins taken are available, and together with the shortfall they make up the amount. */
  lemma {:induction false} TakeAccounts(avail: seq<nat>, coins: seq<Coin>, pence: nat)
    requires |avail| == |coins|
    ensures forall k :: 0 <= k < |avail| ==> Take(avail, coins, pence)[k] <= avail[k]
    ensures Weigh(Take(avail, coins, pence), coins) + Shortfall(avail, coins, pence) == pence
  {
    if avail != [] {
      var n := Use(pence, coins[0], avail[0]);
      var rest := pence - n * coins[0].Pence();
      TakeAccounts(avail[1..], coins[1..], rest);
      var t := Take(avail, coins, pence);
      assert t[1..] == Take(avail[1..], coins[1..], rest);
    }
  }

  /**
   * The greedy rule, stated per coin: the k-th count taken is the smaller of the number
   * of k-th coins that fit in what is still owed after the earlier coins, and the number held.
   */
  lemma {:induction false} TakeRule(avail: seq<nat>, coins: seq<Coin>, pence: nat, k: nat)
    requires |avail| == |coins| && k < |avail|
    ensures var t := Take(avail, coins, pence);
      t[k] == Min((pence - Weigh(t[..k], coins[..k])) / coins[k].Pence(), avail[k])
  {
    var t := Take(avail, coins, pence);
    if k > 0 {
      var n := Use(pence, coins[0], avail[0]);
      var rest := pence - n * coins[0].Pence();
      var t' := Take(avail[1..], coins[1..], rest);
      assert t == [n] + t';
      TakeRule(avail[1..], coins[1..], rest, k - 1);
      assert t[..k][1..] == t'[..k - 1];
      assert coins[..k][1..] == coins[1..][..k - 1];
    }
  }

  /**
   * One step of the walk over the catalogue from position `i`: when the walk from `i` with
   * `owed` still to pay yields the rest of the greedy change, the coin at `i` takes `use`,
   * as many as fit in `owed` and are held, and the walk from `i + 1` yields the remainder.
   */
  lemma GreedyStep(avail: seq<nat>, pence: nat, i: nat, owed: nat, use: nat)
    requires |avail| == |AllCoins| && i < |AllCoins|
    requires Take(avail[i..], AllCoins[i..], owed) == Greedy(avail, pence)[i..]
    requires use == Min(owed / AllCoins[i].Pence(), avail[i])
    ensures Greedy(avail, pence)[i] == use && use * AllCoins[i].Pence() <= owed
    ensures Take(avail[i + 1..], AllCoins[i + 1..], owed - use * AllCoins[i].Pence()) == Greedy(avail, pence)[i + 1..]
  {
    var g := Greedy(avail, pence);
    assert use == Use(owed, AllCoins[i], avail[i]);
    assert avail[i..][1..] == avail[i + 1..] && AllCoins[i..][1..] == AllCoins[i + 1..];
    assert g[i..][1..] == g[i + 1..];
  }

  /** What the greedy walk over the catalogue still owes when it reaches position `i`. */
  function Owed(avail: seq<nat>, pence: nat, i: nat): nat
    requires |avail| == |AllCoins| && i <= |AllCoins|
  {
    if i == 0 then pence
    else
      var before := Owed(avail, pence, i - 1);
      before - Use(before, AllCoins[i - 1], avail[i - 1]) * AllCoins[i - 1].Pence()
  }

  /** From position `i` on, the walk with `Owed(avail, pence, i)` still owed is the rest of the greedy change. */
  lemma {:induction false} OwedWalk(avail: seq<nat>, pence: nat, i: nat)
    requires |avail| == |AllCoins| && i <= |AllCoins|
    ensures Take(avail[i..], AllCoins[i..], Owed(avail, pence, i)) == Greedy(avail, pence)[i..]
  {
    if i > 0 {
      OwedWalk(avail, pence, i - 1);
      var before := Owed(avail, pence, i - 1);
      GreedyStep(avail, pence, i - 1, before, Use(before, AllCoins[i - 1], avail[i - 1]));
    }
  }

  /** Greedy change never exceeds the store, never exceeds the amount, and leaves the shortfall. */
  lemma GreedyWithinStore(avail: seq<nat>, pence: nat)
    requires |avail| == |AllCoins|
    ensures forall k :: 0 <= k < |AllCoins| ==> Greedy(avail, pence)[k] <= avail[k]
    ensures Value(Greedy(avail, pence)) + Shortfall(avail, AllCoins, pence) == pence
    ensures Value(Greedy(avail, pence)) <= pence
  {
    TakeAccounts(avail, AllCoins, pence);
  }

  /** The greedy rule for the catalogue. */
  lemma GreedyRule(avail: seq<nat>, pence: nat, k: nat)
    requires |avail| == |AllCoins| && k < |AllCoins|
    ensures var g := Greedy(avail, pence);
      g[k] == Min((pence - Weigh(g[..k], AllCoins[..k])) / AllCoins[k].Pence(), avail[k])
  {
    TakeRule(avail, AllCoins, pence, k);
  }

  lemma {:induction false} TakeNothing(avail: seq<nat>, coins: seq<Coin>)
    requires |avail| == |coins|
    ensures forall k :: 0 <= k < |avail| ==> Take(avail, coins, 0)[k] == 0
    ensures Shortfall(avail, coins, 0) == 0
  {
    if avail != [] {
      TakeNothing(avail[1..], coins[1..]);
      assert Take(avail, coins, 0)[1..] == Take(avail[1..], coins[1..], 0);
    }
  }

  lemma {:induction false} TakeEverything(avail: seq<nat>, coins: seq<Coin>)
    requires |avail| == |coins|
    ensures Take(avail, coins, Weigh(avail, coins)) == avail
    ensures Shortfall(avail, coins, Weigh(avail, coins)) == 0
  {
    if avail != [] {
      var p := coins[0].Pence();
      var w := Weigh(avail, coins);
      var w' := Weigh(avail[1..], coins[1..]);
      assert w == avail[0] * p + w';
      DivLowerBound(avail[0], p, w');
      var n := Use(w, coins[0], avail[0]);
      assert n == avail[0];
      TakeEverything(avail[1..], coins[1..]);
    }
  }

  lemma DivLowerBound(a: nat, d: nat, r: nat)
    requires d > 0
    ensures (a * d + r) / d >= a
  {
    var q := (a * d + r) / d;
    var m := (a * d + r) % d;
    assert a * d + r == q * d + m;
    assert (q - a + 1) * d == q * d + d - a * d;
    assert (q - a + 1) * d > 0;
  }

  // ---------------------------------------------------------------- getChange, canFindCorrectChange

  /**
   * The change `getChange(pence)` hands back from a store holding `avail`, or the error it
   * raises before touching the store: a request above the store's value, then a negative one.
   */
  function ChangeFor(avail: seq<nat>, pence: int): Result<seq<nat>, CoinError>
    requires |avail| == |AllCoins|
  {
    if Value(avail) < pence then Err(InsufficientBalance)
    else if pence < 0 then Err(NegativeAmount)
    else Ok(Greedy(avail, pence))
  }

  /** `canFindCorrectChange(value)`: does the greedy change come to exactly `value`? */
  function ExactChange(avail: seq<nat>, value: int): Result<bool, CoinError>
    requires |avail| == |AllCoins|
  {
    match ChangeFor(avail, value)
    case Err(e) => Err(e)
    case Ok(change) => Ok(Value(change) == value)
  }

  /** `getChange` succeeds exactly for amounts between 0 and the store's value. */
  lemma ChangeForSucceeds(avail: seq<nat>, pence: int)
    requires |avail| == |AllCoins|
    ensures ChangeFor(avail, pence).Ok? <==> 0 <= pence <= Value(avail)
    ensures ExactChange(avail, pence).Ok? <==> 0 <= pence <= Value(avail)
    ensures pence > Value(avail) ==> ChangeFor(avail, pence) == Err(InsufficientBalance)
    ensures pence < 0 ==> ChangeFor(avail, pence) == Err(NegativeAmount)
  {
  }

  /**
   * A "yes" from `canFindCorrectChange` means the change `getChange` then computes on the same
   * store is worth exactly the amount, and the store keeps exactly the rest, coin for coin.
   */
  lemma ExactChangeIsExact(avail: seq<nat>, value: int)
    requires |avail| == |AllCoins|
    requires ExactChange(avail, value) == Ok(true)
    ensures 0 <= value <= Value(avail)
    ensures ChangeFor(avail, value) == Ok(Greedy(avail, value))
    ensures Value(Greedy(avail, value)) == value
    ensures forall k :: 0 <= k < |AllCoins| ==> Greedy(avail, value)[k] <= avail[k]
    ensures Value(Minus(avail, Greedy(avail, value))) == Value(avail) - value
    ensures Tally(Minus(avail, Greedy(avail, value))) == Tally(avail) - Tally(Greedy(avail, value))
  {
    GreedyWithinStore(avail, value);
    RemovalConserves(avail, Greedy(avail, value));
  }

  /** Exact change is available precisely when the greedy walk leaves nothing owed. */
  lemma ExactChangeIffNoShortfall(avail: seq<nat>, value: nat)
    requires |avail| == |AllCoins| && value <= Value(avail)
    ensures ExactChange(avail, value) == Ok(true) <==> Shortfall(avail, AllCoins, value) == 0
  {
    GreedyWithinStore(avail, value);
  }

  /** Change for nothing is always found, and is no coins at all. */
  lemma ExactChangeForZero(avail: seq<nat>)
    requires |avail| == |AllCoins|
    ensures Greedy(avail, 0) == NoCoins
    ensures ExactChange(avail, 0) == Ok(true)
  {
    TakeNothing(avail, AllCoins);
    GreedyWithinStore(avail, 0);
  }

  /** The whole store can always be paid out: the greedy change for its value is all of it. */
  lemma ExactChangeForWholeStore(avail: seq<nat>)
    requires |avail| == |AllCoins|
    ensures Greedy(avail, Value(avail)) == avail
    ensures ExactChange(avail, Value(avail)) == Ok(true)
  {
    TakeEverything(avail, AllCoins);
  }

  /**
   * The check is greedy only: a store of one 50p and three 20p coins holds 60p in 20p coins,
   * yet the walk takes the 50p first and then cannot make up the last 10p.
   */
  lemma GreedyMissesSomeExactChange()
    ensures Value([0, 0, 3, 0]) == 60
    ensures ExactChange([0, 1, 3, 0], 60) == Ok(false)
  {
    ValueFormula([0, 0, 3, 0]);
    GreedyUnfolded([0, 1, 3, 0], 60, 0, 1, 0, 0);
    ValueFormula([0, 1, 0, 0]);
  }

  // ---------------------------------------------------------------- isValidPrice

  /** A price is valid when it is a whole number of the smallest coin (`isValidPrice`). */
  function IsValidPrice(pence: int): (valid: bool)
    ensures valid <==> pence == 10 * (pence / 10)
  {
    pence % AllCoins[|AllCoins| - 1].Pence() == 0
  }

  /** Every value a store can weigh is a whole number of 10p. */
  lemma WeighIsWholeTens(counts: seq<nat>, coins: seq<Coin>)
    requires |counts| == |coins|
    ensures Weigh(counts, coins) % 10 == 0
  {
    var tens := WeighInTens(counts, coins);
  }

  /** The weighed value as a number of 10p lots. */
  lemma {:induction false} WeighInTens(counts: seq<nat>, coins: seq<Coin>) returns (tens: nat)
    requires |counts| == |coins|
    ensures Weigh(counts, coins) == 10 * tens
  {
    if counts == [] {
      tens := 0;
    } else {
      var rest := WeighInTens(counts[1..], coins[1..]);
      var share := ShareInTens(counts[0], coins[0]);
      tens := share + rest;
    }
  }

  /** `n` coins of any one denomination come to `q` lots of 10p. */
  lemma ShareInTens(n: nat, c: Coin) returns (q: nat)
    ensures n * c.Pence() == 10 * q
  {
    match c
    case Pound => q := 10 * n;
    case Fifty => q := 5 * n;
    case Twenty => q := 2 * n;
    case Ten => q := n;
  }

  /** `getValue` written out: Σ count × face value over the four denominations. */
  lemma ValueFormula(counts: seq<nat>)
    requires |counts| == |AllCoins|
    ensures Value(counts) == 100 * counts[0] + 50 * counts[1] + 20 * counts[2] + 10 * counts[3]
  {
    var c1, c2, c3 := counts[1..], counts[2..], counts[3..];
    assert c1[1..] == c2 && c2[1..] == c3 && c3[1..] == [];
    assert AllCoins[1..][1..] == [Twenty, Ten] && AllCoins[1..][1..][1..] == [Ten];
    assert Weigh(c3, [Ten]) == 10 * counts[3];
    assert Weigh(c2, [Twenty, Ten]) == 20 * counts[2] + 10 * counts[3];
    assert Weigh(c1, [Fifty, Twenty, Ten]) == 50 * counts[1] + 20 * counts[2] + 10 * counts[3];
  }

  /**
   * The valid prices are exactly the amounts some store can hold: every store's value is
   * valid, and every valid non-negative price is the value of a store of 10p coins.
   */
  lemma ValidPricesArePayable(counts: seq<nat>, price: nat)
    requires |counts| == |AllCoins|
    ensures IsValidPrice(Value(counts))
    ensures IsValidPrice(price) <==> Value([0, 0, 0, price / 10]) == price
  {
    WeighIsWholeTens(counts, AllCoins);
    ValueFormula([0, 0, 0, price / 10]);
  }

  // ---------------------------------------------------------------- worked examples

  /**
   * The greedy walk written out coin by coin, for computing examples: given the number of
   * each coin the walk takes at its turn, the change is those four counts.
   */
  lemma GreedyUnfolded(avail: seq<nat>, pence: nat, n0: nat, n1: nat, n2: nat, n3: nat)
    requires |avail| == |AllCoins|
    requires n0 == Use(pence, Pound, avail[0])
    requires n1 == Use(pence - 100 * n0, Fifty, avail[1])
    requires n2 == Use(pence - 100 * n0 - 50 * n1, Twenty, avail[2])
    requires n3 == Use(pence - 100 * n0 - 50 * n1 - 20 * n2, Ten, avail[3])
    ensures Greedy(avail, pence) == [n0, n1, n2, n3]
  {
    var a1, a2, a3 := avail[1..], avail[2..], avail[3..];
    assert a1[1..] == a2 && a2[1..] == a3 && a3[1..] == [];
    assert AllCoins[1..][1..] == [Twenty, Ten] && AllCoins[1..][1..][1..] == [Ten];
    var p1 := pence - 100 * n0;
    var p2 := p1 - 50 * n1;
    var p3 := p2 - 20 * n2;
    assert Take(a3, [Ten], p3) == [n3];
    assert Take(a2, [Twenty, Ten], p2) == [n2, n3];
    assert Take(a1, [Fifty, Twenty, Ten], p1) == [n1, n2, n3];
  }

  /** The store (11, 7, 5, 3) of the unit tests is worth 1580p; 1400p of change exhausts the £1 coins and takes six 50p. */
  lemma ChangeExample1400()
    ensures Value([11, 7, 5, 3]) == 1580
    ensures Greedy([11, 7, 5, 3], 1400) == [11, 6, 0, 0]
    ensures Tally([11, 6, 0, 0]) == 17
  {
    ValueFormula([11, 7, 5, 3]);
    GreedyUnfolded([11, 7, 5, 3], 1400, 11, 6, 0, 0);
  }

  /** On the store (11, 7, 5, 0), worth 1550p, there is no greedy change for 30p but there is for 1530p. */
  lemma ExactChangeExample()
    ensures Value([11, 7, 5, 0]) == 1550
    ensures ExactChange([11, 7, 5, 0], 30) == Ok(false)
    ensures ExactChange([11, 7, 5, 0], 1530) == Ok(true)
  {
    var s := [11, 7, 5, 0];
    ValueFormula(s);
    GreedyUnfolded(s, 30, 0, 0, 1, 0);
    ValueFormula([0, 0, 1, 0]);
    GreedyUnfolded(s, 1530, 11, 7, 4, 0);
    ValueFormula([11, 7, 4, 0]);
  }
}
