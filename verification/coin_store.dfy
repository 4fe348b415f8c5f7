/**
 * `CoinStore`: a fixed-size multiset of coins, one count per catalogue entry, held in an
 * array that its methods update in place. Every method is specified against the pure
 * functions of module `Coins` applied to `Counts()`.
 */
module CoinStores {
  import opened Wrappers
  import opened Coins

  class CoinStore {
    /** How many of each coin are held, indexed by `Coin.Ordinal()`. */
    const coinCount: array<nat>

    predicate Valid()
    {
      coinCount.Length == |AllCoins|
    }

    /** The counts as a value. */
    function Counts(): (s: seq<nat>)
      reads coinCount
      requires Valid()
      ensures |s| == |AllCoins|
    {
      coinCount[..]
    }

    /** An empty store. */
    constructor Empty()
      ensures Valid() && fresh(coinCount)
      ensures Counts() == NoCoins
    {
      coinCount := new nat[] [0, 0, 0, 0];
    }

    /** A store holding the given numbers of £1, 50p, 20p and 10p coins (a shop float, say). */
    constructor (pounds: nat, fifties: nat, twenties: nat, tens: nat)
      ensures Valid() && fresh(coinCount)
      ensures Counts() == [pounds, fifties, twenties, tens]
    {
      coinCount := new nat[] [pounds, fifties, twenties, tens];
    }

    /** A store holding the same coins as `other`, which is left as it was. */
    constructor Copy(other: CoinStore)
      requires other.Valid()
      ensures Valid() && fresh(coinCount)
      ensures Counts() == other.Counts()
    {
      var counts := new nat[|AllCoins|];
      for i := |AllCoins| downto 0
        invariant forall k :: i <= k < |AllCoins| ==> counts[k] == other.coinCount[k]
      {
        counts[i] := other.coinCount[i];
      }
      coinCount := counts;
    }

    /** Total value held, in pence. */
    method GetValue() returns (value: nat)
      requires Valid()
      ensures value == Value(Counts())
    {
      value := 0;
      for i := 0 to |AllCoins|
        invariant value + Weigh(coinCount[i..], AllCoins[i..]) == Value(Counts())
      {
        assert coinCount[i..][1..] == coinCount[i + 1..];
        value := value + coinCount[i] * AllCoins[i].Pence();
      }
    }

    /** Number of coins held, whatever their denomination. */
    method GetCoinCount() returns (coins: nat)
      requires Valid()
      ensures coins == Tally(Counts())
    {
      coins := 0;
      for i := 0 to |AllCoins|
        invariant coins + Tally(coinCount[i..]) == Tally(Counts())
      {
        assert coinCount[i..][1..] == coinCount[i + 1..];
        coins := coins + coinCount[i];
      }
    }

    /** Number of coins `coin` held; their value never exceeds the store's. */
    function CountOf(coin: Coin): (n: nat)
      reads coinCount
      requires Valid()
      ensures n == Counts()[coin.Ordinal()]
      ensures n * coin.Pence() <= Value(Counts())
    {
      WeighTermBound(Counts(), AllCoins, coin.Ordinal());
      coinCount[coin.Ordinal()]
    }

    /** Add one coin: only its count rises, by one, and the value by its face value. */
    method AddCoin(coin: Coin)
      requires Valid()
      modifies coinCount
      ensures Counts() == old(Counts())[coin.Ordinal() := old(Counts())[coin.Ordinal()] + 1]
      ensures Value(Counts()) == old(Value(Counts())) + coin.Pence()
      ensures Tally(Counts()) == old(Tally(Counts())) + 1
    {
      AddOneCoin(Counts(), coin);
      coinCount[coin.Ordinal()] := coinCount[coin.Ordinal()] + 1;
    }

    /** Add one coin given by its face value; an unrecognised value is refused and nothing changes. */
    method AddCoinByValue(pence: int) returns (r: Result<Coin, CoinError>)
      requires Valid()
      modifies coinCount
      ensures r.Ok? <==> Find(pence).Some?
      ensures r.Err? ==> r.error == UnrecognisedCoin(pence) && Counts() == old(Counts())
      ensures r.Ok? ==> r.value.Pence() == pence
      ensures r.Ok? ==> Counts() == old(Counts())[r.value.Ordinal() := old(Counts())[r.value.Ordinal()] + 1]
      ensures r.Ok? ==> Value(Counts()) == old(Value(Counts())) + pence
    {
      var found := Find(pence);
      if found.None? {
        return Err(UnrecognisedCoin(pence));
      }
      AddCoin(found.value);
      r := Ok(found.value);
    }

    /**
     * Move every coin of `entered` into this store: this store gains exactly what `entered`
     * held and `entered` is left empty. A store moved into itself is left empty.
     */
    method AddCoins(entered: CoinStore)
      requires Valid() && entered.Valid()
      modifies coinCount, entered.coinCount
      ensures entered.coinCount != coinCount ==> Counts() == Plus(old(Counts()), old(entered.Counts()))
      ensures entered.Counts() == NoCoins
    {
      for i := 0 to |AllCoins|
        invariant forall k :: 0 <= k < i ==> entered.coinCount[k] == 0
        invariant entered.coinCount != coinCount ==>
          forall k :: 0 <= k < i ==> coinCount[k] == old(coinCount[k]) + old(entered.coinCount[k])
        invariant forall k :: i <= k < |AllCoins| ==>
          coinCount[k] == old(coinCount[k]) && entered.coinCount[k] == old(entered.coinCount[k])
      {
        coinCount[i] := coinCount[i] + entered.coinCount[i];
        entered.coinCount[i] := 0;
      }
    }

    /**
     * The greedy change for `pence`, or the error raised before any count is touched.
     * With `updateBalance` the coins handed out leave this store; without it nothing changes.
     */
    method TakeChange(pence: int, updateBalance: bool) returns (r: Result<CoinStore, CoinError>)
      requires Valid()
      modifies if updateBalance then {coinCount} else {}
      ensures r.Ok? <==> ChangeFor(old(Counts()), pence).Ok?
      ensures r.Err? ==> Err(r.error) == ChangeFor(old(Counts()), pence) && Counts() == old(Counts())
      ensures r.Ok? ==> fresh(r.value) && fresh(r.value.coinCount) && r.value.Valid()
      ensures r.Ok? ==> Ok(r.value.Counts()) == ChangeFor(old(Counts()), pence)
      ensures r.Ok? && updateBalance ==>
        forall k :: 0 <= k < |AllCoins| ==> old(Counts())[k] == Counts()[k] + r.value.Counts()[k]
      ensures !updateBalance ==> Counts() == old(Counts())
    {
      var total := GetValue();
      if total < pence {
        return Err(InsufficientBalance);
      }
      if pence < 0 {
        return Err(NegativeAmount);
      }
      var change := Walk(pence, updateBalance);
      r := Ok(change);
    }

    /**
     * The loop of `getChange`: from £1 down to 10p, as many of each coin as still fit in
     * what is owed and are held; with `updateBalance` each share leaves this store.
     */
    method Walk(pence: nat, updateBalance: bool) returns (change: CoinStore)
      requires Valid()
      modifies if updateBalance then {coinCount} else {}
      ensures fresh(change) && fresh(change.coinCount) && change.Valid()
      ensures change.Counts() == Greedy(old(Counts()), pence)
      ensures updateBalance ==>
        forall k :: 0 <= k < |AllCoins| ==> old(Counts())[k] == Counts()[k] + change.Counts()[k]
      ensures !updateBalance ==> Counts() == old(Counts())
    {
      ghost var avail := Counts();
      ghost var greedy := Greedy(avail, pence);
      change := new CoinStore.Empty();
      var owed: nat := pence;
      for i := 0 to |AllCoins|
        invariant change.coinCount != coinCount
        invariant forall k :: 0 <= k < i ==> change.coinCount[k] == greedy[k]
        invariant owed == Owed(avail, pence, i)
        invariant updateBalance ==> forall k :: 0 <= k < i ==> coinCount[k] + change.coinCount[k] == avail[k]
        invariant !updateBalance ==> coinCount[..] == avail
        invariant forall k :: i <= k < |AllCoins| ==> coinCount[k] == avail[k]
      {
        var coin := AllCoins[i];
        var use := Min(owed / coin.Pence(), coinCount[i]);
        OwedWalk(avail, pence, i);
        GreedyStep(avail, pence, i, owed, use);
        change.coinCount[i] := use;
        owed := owed - use * coin.Pence();
        if updateBalance {
          coinCount[i] := coinCount[i] - use;
        }
      }
      assert change.Counts() == greedy;
    }

    /** `getChange(pence)`: the greedy change, removed from this store. */
    method GetChange(pence: int) returns (r: Result<CoinStore, CoinError>)
      requires Valid()
      modifies coinCount
      ensures r.Ok? <==> 0 <= pence <= old(Value(Counts()))
      ensures r.Err? ==> Err(r.error) == ChangeFor(old(Counts()), pence) && Counts() == old(Counts())
      ensures r.Ok? ==> fresh(r.value) && fresh(r.value.coinCount) && r.value.Valid()
      ensures r.Ok? ==> r.value.Counts() == Greedy(old(Counts()), pence)
      ensures r.Ok? ==> forall k :: 0 <= k < |AllCoins| ==> r.value.Counts()[k] <= old(Counts())[k]
      ensures r.Ok? ==> Counts() == Minus(old(Counts()), r.value.Counts())
      ensures r.Ok? ==> Value(Counts()) + Value(r.value.Counts()) == old(Value(Counts()))
      ensures r.Ok? ==> Tally(Counts()) + Tally(r.value.Counts()) == old(Tally(Counts()))
    {
      ChangeForSucceeds(Counts(), pence);
      r := TakeChange(pence, true);
      if r.Ok? {
        GreedyWithinStore(old(Counts()), pence);
        RemovalConserves(old(Counts()), r.value.Counts());
      }
    }

    /**
     * Whether exact change for `value` can be found, leaving the store untouched; the
     * greedy computation is the one `GetChange` performs, so the two always agree.
     */
    method CanFindCorrectChange(value: int) returns (r: Result<bool, CoinError>)
      requires Valid()
      ensures r == ExactChange(Counts(), value)
    {
      var change := TakeChange(value, false);
      if change.Err? {
        return Err(change.error);
      }
      var got := change.value.GetValue();
      r := Ok(got == value);
    }
  }
}
