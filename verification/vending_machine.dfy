/**
 * `VendingMachine`: the stock array, the bank, the customer's credit and the running flag,
 * updated in place. Every operation states its new `State()` exactly: `Create` as `Load` and
 * `Initial`, `VendItem` as `Vend`, `Sell` as `Commit`, `InsertMoney` and `CoinReturn` as the
 * `MachineSpec` functions of the same name, and the smaller steps by the state they leave.
 */
module VendingMachines {
  import opened Wrappers
  import opened Coins
  import opened CoinStores
  import opened StockItems
  import opened MachineSpec

  class VendingMachine {
    /** Coins the customer has inserted and not yet spent. */
    var userBalance: CoinStore
    /** The machine's own coins (the float given at construction, then takings). */
    const bank: CoinStore
    /** One slot per location 'A'..'Z'; `null` where nothing is configured. */
    const stock: array<StockItem?>
    var isOn: bool

    ghost var Repr: set<object?>

    ghost predicate Valid()
      reads this, Repr
    {
      && this in Repr && stock in Repr
      && bank in Repr && bank.coinCount in Repr
      && userBalance in Repr && userBalance.coinCount in Repr
      && bank.Valid() && userBalance.Valid()
      && bank.coinCount != userBalance.coinCount
      && stock.Length == Locations
      && forall i :: 0 <= i < Locations && stock[i] != null ==> stock[i] in Repr && stock[i].location == Letter(i)
    }

    /** The slot at index `i` as a value. */
    ghost function SlotAt(i: nat): Option<Slot>
      reads this, Repr
      requires Valid() && i < Locations
    {
      if stock[i] == null then None else Some(stock[i].AsSlot())
    }

    ghost function Table(n: nat): (t: seq<Option<Slot>>)
      reads this, Repr
      requires Valid() && n <= Locations
      ensures |t| == n
      ensures forall i :: 0 <= i < n ==> t[i] == SlotAt(i)
    {
      if n == 0 then [] else Table(n - 1) + [SlotAt(n - 1)]
    }

    /** The machine as a value. */
    ghost function State(): (m: MachineState)
      reads this, Repr
      requires Valid()
      ensures WellFormed(m)
    {
      MachineState(isOn, Table(Locations), bank.Counts(), userBalance.Counts())
    }

    /** Wraps a stock array already checked by `Create`; the machine starts switched off. */
    constructor Init(table: array<StockItem?>, initialBalance: CoinStore)
      requires table.Length == Locations && initialBalance.Valid()
      requires forall i :: 0 <= i < Locations && table[i] != null ==> table[i].location == Letter(i)
      ensures Valid()
      ensures stock == table && bank == initialBalance
      ensures State() == Initial(State().stock, initialBalance.Counts())
      ensures forall i :: 0 <= i < Locations ==> SlotAt(i) == if table[i] == null then None else Some(table[i].AsSlot())
    {
      stock := table;
      bank := initialBalance;
      var credit := new CoinStore.Empty();
      userBalance := credit;
      isOn := false;
      Repr := {this, table, initialBalance, initialBalance.coinCount, credit, credit.coinCount}
        + set i | 0 <= i < Locations && table[i] != null :: table[i];
    }

    /**
     * The constructor: the stock table read from the definitions (see `LoadStock`) and the
     * float as the bank; the machine starts switched off with no credit.
     */
    static method Create(items: seq<StockItem>, initialBalance: CoinStore) returns (r: Result<VendingMachine, ConfigError>)
      requires initialBalance.Valid()
      ensures r.Err? ==> Load(Defs(items)) == Err(r.error)
      ensures r.Ok? ==> Load(Defs(items)).Ok? && fresh(r.value) && r.value.Valid()
      ensures r.Ok? ==> r.value.State() == Initial(Load(Defs(items)).value, initialBalance.Counts())
      ensures r.Ok? ==> r.value.bank == initialBalance
    {
      var loaded := LoadStock(items);
      if loaded.Err? {
        return Err(loaded.error);
      }
      var table := loaded.value;
      var machine := new VendingMachine.Init(table, initialBalance);
      assert machine.State().stock == Load(Defs(items)).value;
      r := Ok(machine);
    }

    /**
     * The constructor's loading loop: reads the definitions in order, placing each at the
     * index of its location, refusing a location outside 'A'..'Z', a location already taken,
     * or an invalid price, and finally a machine whose total quantity is zero.
     */
    static method LoadStock(items: seq<StockItem>) returns (r: Result<array<StockItem?>, ConfigError>)
      ensures r.Err? ==> Load(Defs(items)) == Err(r.error)
      ensures r.Ok? ==> Load(Defs(items)).Ok? && fresh(r.value) && r.value.Length == Locations
      ensures r.Ok? ==> forall x :: 0 <= x < Locations ==>
        if r.value[x] == null then Load(Defs(items)).value[x] == None
        else Load(Defs(items)).value[x] == Some(r.value[x].AsSlot()) && r.value[x].location == Letter(x)
    {
      ghost var defs := Defs(items);
      var table := new StockItem?[Locations](_ => null);
      ghost var placed := NoStock();
      var itemCount := 0;
      var i := 0;
      while i < |items|
        invariant 0 <= i <= |items| && |placed| == Locations
        invariant forall x :: 0 <= x < Locations ==>
          (if table[x] == null then placed[x] == None else placed[x] == Some(table[x].AsSlot()) && table[x].location == Letter(x))
        invariant LoadFrom(defs, i, placed, itemCount) == Load(defs)
      {
        var item := items[i];
        var index := ItemIndex(item.location);
        if index.None? {
          return Err(InvalidLocation(item.location));
        }
        var idx := index.value;
        if table[idx] != null {
          return Err(DuplicateLocation(item.location));
        }
        if !IsValidPrice(item.value) {
          return Err(InvalidPrice(item.location, item.value));
        }
        table[idx] := item;
        placed := placed[idx := Some(item.AsSlot())];
        itemCount := itemCount + item.quantityRemaining;
        i := i + 1;
      }
      if itemCount == 0 {
        return Err(EmptyMachine);
      }
      r := Ok(table);
    }

    /** `isEmpty`: whether no configured item has any quantity left. */
    method IsEmpty() returns (empty: bool)
      requires Valid()
      ensures empty == SoldOut(State().stock)
    {
      for i := 0 to Locations
        invariant forall k :: 0 <= k < i && SlotAt(k).Some? ==> SlotAt(k).value.quantity <= 0
      {
        if stock[i] != null && stock[i].quantityRemaining > 0 {
          assert State().stock[i] == SlotAt(i);
          return false;
        }
      }
      return true;
    }

    /**
     * `canFindCorrectChange(change)`: whether the bank and the credit together could pay
     * `change` exactly, computed on copies so that neither store changes.
     */
    method CanFindCorrectChange(change: int) returns (r: Result<bool, CoinError>)
      requires Valid()
      ensures r == ExactChange(Plus(State().bank, State().user), change)
    {
      var test := new CoinStore.Copy(bank);
      var entered := new CoinStore.Copy(userBalance);
      test.AddCoins(entered);
      r := test.CanFindCorrectChange(change);
    }

    /**
     * `vendItem(location)`: raises for a location outside 'A'..'Z'; returns no coins when
     * the item is absent or exhausted, the credit is short, or exact change cannot be made;
     * otherwise sells one, banks the credit, pays out the greedy change and switches off
     * when the sale emptied the machine. The stock is decremented only once the change is
     * known to be available.
     */
    method VendItem(location: char) returns (r: Result<Option<CoinStore>, MachineError>)
      requires Valid()
      modifies Repr
      ensures Valid() && Repr == old(Repr)
      ensures State() == Vend(old(State()), location).next
      ensures r.Err? <==> Vend(old(State()), location).outcome.Failed?
      ensures r.Err? ==> Vend(old(State()), location).outcome == Failed(r.error)
      ensures r == Ok(None) <==> Vend(old(State()), location).outcome in {OutOfStock, InsufficientFunds, InsufficientChange}
      ensures r.Ok? && r.value.Some? ==> fresh(r.value.value) && fresh(r.value.value.coinCount) && r.value.value.Valid()
      ensures r.Ok? && r.value.Some? ==> Vend(old(State()), location).outcome == Sold(r.value.value.Counts())
    {
      ghost var m := State();
      var index := ItemIndex(location);
      if index.None? {
        return Err(UnknownLocation(location));
      }
      var idx := index.value;
      var item := stock[idx];
      assert m.stock[idx] == SlotAt(idx);
      if item == null || item.quantityRemaining <= 0 {
        return Ok(None);
      }
      var credit := userBalance.GetValue();
      if credit < item.value {
        return Ok(None);
      }
      var change := credit - item.value;
      var feasible := CanFindCorrectChange(change);
      if feasible.Err? {
        return Err(ChangeRefused(feasible.error));
      }
      if !feasible.value {
        return Ok(None);
      }
      var coins := Sell(idx, change);
      r := Ok(Some(coins));
    }

    /** The committed sale of the item at `idx`, paying `change`, which is known to be exact. */
    method Sell(idx: nat, change: int) returns (coins: CoinStore)
      requires Valid() && idx < Locations && stock[idx] != null
      requires ExactChange(Plus(State().bank, State().user), change) == Ok(true)
      modifies Repr
      ensures Valid() && Repr == old(Repr)
      ensures fresh(coins) && fresh(coins.coinCount) && coins.Valid()
      ensures Commit(old(State()), idx, old(stock[idx].AsSlot()), change) == VendStep(State(), Sold(coins.Counts()))
    {
      TakeOne(idx);
      coins := PayOut(change);
      var empty := IsEmpty();
      if empty {
        SetOff();
      }
    }

    /** One fewer of the item at index `idx`; nothing else changes. */
    method TakeOne(idx: nat)
      requires Valid() && idx < Locations && stock[idx] != null
      modifies stock[idx]
      ensures Valid()
      ensures State() == old(State()).(stock := old(State()).stock[idx := Some(old(stock[idx].AsSlot()).(quantity := old(stock[idx].quantityRemaining) - 1))])
    {
      ghost var before := State().stock;
      var item := stock[idx];
      item.quantityRemaining := item.quantityRemaining - 1;
      forall k | 0 <= k < Locations && k != idx
        ensures SlotAt(k) == before[k]
      {
        assert stock[k] != item;
      }
      assert State().stock == before[idx := Some(item.AsSlot())];
    }

    /**
     * The credit moves into the bank and the greedy change for `change` leaves it; the
     * caller has established that the change is exact.
     */
    method PayOut(change: int) returns (coins: CoinStore)
      requires Valid()
      requires ExactChange(Plus(State().bank, State().user), change) == Ok(true)
      modifies bank.coinCount, userBalance.coinCount
      ensures Valid()
      ensures fresh(coins) && fresh(coins.coinCount) && coins.Valid()
      ensures coins.Counts() == Greedy(Plus(old(State()).bank, old(State()).user), change)
      ensures forall k :: 0 <= k < |AllCoins| ==> coins.Counts()[k] <= Plus(old(State()).bank, old(State()).user)[k]
      ensures State() == old(State()).(bank := Minus(Plus(old(State()).bank, old(State()).user), coins.Counts()), user := NoCoins)
    {
      ghost var pool := Plus(State().bank, State().user);
      ExactChangeIsExact(pool, change);
      MergeConserves(State().bank, State().user);
      bank.AddCoins(userBalance);
      var got := bank.GetChange(change);
      assert got.Ok?;
      coins := got.value;
    }

    /** `getUserBalance`: the credit, in pence. */
    method GetUserBalance() returns (pence: nat)
      requires Valid()
      ensures pence == Value(State().user)
    {
      pence := userBalance.GetValue();
    }

    /** `isOn`: the running flag. */
    function IsOn(): (on: bool)
      reads this, Repr
      requires Valid()
      ensures on == State().on
    {
      isOn
    }

    /** `setOn`: only the running flag changes. */
    method SetOn()
      requires Valid()
      modifies this
      ensures Valid() && Repr == old(Repr)
      ensures State() == old(State()).(on := true)
    {
      isOn := true;
    }

    /** `setOff`: only the running flag changes. */
    method SetOff()
      requires Valid()
      modifies this
      ensures Valid() && Repr == old(Repr)
      ensures State() == old(State()).(on := false)
    {
      isOn := false;
    }

    /**
     * `insertMoney(pence)`: refused with `NotRunning` while off; otherwise a recognised coin
     * joins the credit (`Ok(true)`) and any other value is rejected (`Ok(false)`).
     */
    method InsertMoney(pence: int) returns (r: Result<bool, MachineError>)
      requires Valid()
      modifies userBalance.coinCount
      ensures Valid() && Repr == old(Repr)
      ensures State() == MachineSpec.InsertMoney(old(State()), pence).next
      ensures r == MachineSpec.InsertMoney(old(State()), pence).result
    {
      if !isOn {
        return Err(NotRunning);
      }
      var added := userBalance.AddCoinByValue(pence);
      r := Ok(added.Ok?);
    }

    /** `coinReturn`: the credit is handed back whole; the bank and the stock are untouched. */
    method CoinReturn()
      requires Valid()
      modifies this
      ensures Valid() && fresh(Repr - old(Repr))
      ensures State() == MachineSpec.CoinReturn(old(State()))
    {
      var emptied := new CoinStore.Empty();
      userBalance := emptied;
      Repr := Repr + {emptied, emptied.coinCount};
    }
  }
}
