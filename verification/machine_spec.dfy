/**
 * The vending machine as a pure state machine: the stock table built by the constructor,
 * the sale protocol of `vendItem`, coin insertion, coin return and the on/off switch.
 * Class `VendingMachine` is proved to follow these functions; the lemmas here state what
 * the protocol guarantees.
 */
module MachineSpec {
  import opened Wrappers
  import opened Coins
  import opened StockItems

  /** Number of item locations, 'A' to 'Z'. */
  const Locations: nat := 26

  /** The location letter of stock index `i`. */
  function Letter(i: nat): char
    requires i < Locations
  {
    (i + 'A' as int) as char
  }

  /** `validateItemPos`: the stock index of a location, when it lies in 'A'..'Z'. */
  function ItemIndex(location: char): (r: Option<nat>)
    ensures r.Some? <==> 'A' <= location <= 'Z'
    ensures r.Some? ==> r.value < Locations && Letter(r.value) == location
  {
    if location < 'A' || location > 'Z' then None else Some(location as int - 'A' as int)
  }

  // ---------------------------------------------------------------- construction

  datatype ConfigError =
    | InvalidLocation(location: char)
    | DuplicateLocation(location: char)
    | InvalidPrice(location: char, price: int)
    | EmptyMachine

  /** A stock table with nothing configured. */
  function NoStock(): (table: seq<Option<Slot>>)
    ensures |table| == Locations
    ensures forall x :: 0 <= x < |table| ==> table[x] == None
  {
    seq(Locations, _ => None)
  }

  /** Total quantity of the first `n` definitions. */
  function QuantityOf(defs: seq<Slot>, n: nat): int
    requires n <= |defs|
  {
    if n == 0 then 0 else QuantityOf(defs, n - 1) + defs[n - 1].quantity
  }

  /**
   * The constructor's loading loop from the `i`-th definition on, given the table filled and
   * the quantity counted so far: each definition is checked for its location, for a location
   * already taken and for its price, in that order, and the first failure ends the load.
   */
  function LoadFrom(defs: seq<Slot>, i: nat, table: seq<Option<Slot>>, count: int): (r: Result<seq<Option<Slot>>, ConfigError>)
    requires i <= |defs| && |table| == Locations
    ensures r.Ok? ==> |r.value| == Locations
    decreases |defs| - i
  {
    if i == |defs| then
      if count == 0 then Err(EmptyMachine) else Ok(table)
    else
      var d := defs[i];
      match ItemIndex(d.location)
      case None => Err(InvalidLocation(d.location))
      case Some(idx) =>
        if table[idx].Some? then Err(DuplicateLocation(d.location))
        else if !IsValidPrice(d.price) then Err(InvalidPrice(d.location, d.price))
        else LoadFrom(defs, i + 1, table[idx := Some(d)], count + d.quantity)
  }

  /** The stock table the constructor builds from the loader's definitions, or why it refuses them. */
  function Load(defs: seq<Slot>): Result<seq<Option<Slot>>, ConfigError>
  {
    LoadFrom(defs, 0, NoStock(), 0)
  }

  /** Location in 'A'..'Z' and a price that is a whole number of 10p coins. */
  predicate Acceptable(d: Slot)
  {
    'A' <= d.location <= 'Z' && IsValidPrice(d.price)
  }

  predicate DistinctLocations(defs: seq<Slot>)
  {
    forall j, k :: 0 <= j < k < |defs| ==> defs[j].location != defs[k].location
  }

  /** Every definition acceptable and at its own location: all that is left to check is the total. */
  predicate Consistent(defs: seq<Slot>)
  {
    (forall k :: 0 <= k < |defs| ==> Acceptable(defs[k])) && DistinctLocations(defs)
  }

  /** Table `table` holds exactly the first `i` definitions, each at the index of its location. */
  ghost predicate Placed(defs: seq<Slot>, i: nat, table: seq<Option<Slot>>)
    requires i <= |defs| && |table| == Locations
  {
    && (forall k :: 0 <= k < i ==> ItemIndex(defs[k].location).Some? && table[ItemIndex(defs[k].location).value] == Some(defs[k]))
    && (forall x :: 0 <= x < Locations && table[x].Some? ==> table[x].value in defs[..i] && table[x].value.location == Letter(x))
  }

  /** A definition whose location is already in the table repeats an earlier location. */
  lemma DuplicateFound(defs: seq<Slot>, i: nat, table: seq<Option<Slot>>, idx: nat)
    requires i < |defs| && |table| == Locations && Placed(defs, i, table)
    requires ItemIndex(defs[i].location) == Some(idx) && table[idx].Some?
    ensures !DistinctLocations(defs)
  {
    var e := table[idx].value;
    assert e in defs[..i];
    var j :| 0 <= j < i && defs[..i][j] == e;
    assert defs[j].location == defs[i].location;
  }

  /** Placing an acceptable definition at a free location keeps the prefix consistent and placed. */
  lemma PlaceNext(defs: seq<Slot>, i: nat, table: seq<Option<Slot>>, idx: nat)
    requires i < |defs| && |table| == Locations
    requires Consistent(defs[..i]) && Placed(defs, i, table)
    requires ItemIndex(defs[i].location) == Some(idx) && table[idx].None? && IsValidPrice(defs[i].price)
    ensures Consistent(defs[..i + 1])
    ensures Placed(defs, i + 1, table[idx := Some(defs[i])])
  {
    var d := defs[i];
    var prefix := defs[..i + 1];
    forall j, k | 0 <= j < k < |prefix|
      ensures prefix[j].location != prefix[k].location
    {
      if k < i {
        assert defs[..i][j] == prefix[j] && defs[..i][k] == prefix[k];
      }
    }
    forall k | 0 <= k < |prefix|
      ensures Acceptable(prefix[k])
    {
      if k < i {
        assert defs[..i][k] == prefix[k];
      }
    }
    var table' := table[idx := Some(d)];
    forall x | 0 <= x < Locations && table'[x].Some?
      ensures table'[x].value in prefix && table'[x].value.location == Letter(x)
    {
      if x != idx {
        assert table[x].value in defs[..i];
      }
    }
  }

  lemma {:induction false} LoadFromCorrect(defs: seq<Slot>, i: nat, table: seq<Option<Slot>>, count: int)
    requires i <= |defs| && |table| == Locations
    requires Consistent(defs[..i]) && Placed(defs, i, table) && count == QuantityOf(defs, i)
    ensures LoadFrom(defs, i, table, count).Ok? <==> Consistent(defs) && QuantityOf(defs, |defs|) != 0
    ensures LoadFrom(defs, i, table, count) == Err(EmptyMachine) <==> Consistent(defs) && QuantityOf(defs, |defs|) == 0
    ensures LoadFrom(defs, i, table, count).Ok? ==> Placed(defs, |defs|, LoadFrom(defs, i, table, count).value)
    decreases |defs| - i
  {
    if i == |defs| {
      assert defs[..i] == defs;
    } else {
      var d := defs[i];
      if ItemIndex(d.location).None? || !IsValidPrice(d.price) {
        assert !Acceptable(defs[i]);
      } else {
        var idx := ItemIndex(d.location).value;
        if table[idx].Some? {
          DuplicateFound(defs, i, table, idx);
        } else {
          PlaceNext(defs, i, table, idx);
          LoadFromCorrect(defs, i + 1, table[idx := Some(d)], count + d.quantity);
        }
      }
    }
  }

  /**
   * Construction succeeds exactly when every location lies in 'A'..'Z', no two definitions
   * share a location, every price is valid and the total quantity is not zero (so an empty
   * list of definitions is refused); it fails with `EmptyMachine` exactly when only the total
   * is wrong. On success every definition sits at the index of its location and nothing else
   * is configured.
   */
  lemma LoadSucceedsIff(defs: seq<Slot>)
    ensures Load(defs).Ok? <==> Consistent(defs) && QuantityOf(defs, |defs|) != 0
    ensures Load(defs) == Err(EmptyMachine) <==> Consistent(defs) && QuantityOf(defs, |defs|) == 0
    ensures Load(defs).Ok? ==> |Load(defs).value| == Locations
    ensures Load(defs).Ok? ==> forall k :: 0 <= k < |defs| ==>
      ItemIndex(defs[k].location).Some? && Load(defs).value[ItemIndex(defs[k].location).value] == Some(defs[k])
    ensures Load(defs).Ok? ==> forall x :: 0 <= x < Locations && Load(defs).value[x].Some? ==>
      Load(defs).value[x].value in defs && Load(defs).value[x].value.location == Letter(x)
  {
    assert defs[..0] == [];
    LoadFromCorrect(defs, 0, NoStock(), 0);
    if Load(defs).Ok? {
      assert defs[..|defs|] == defs;
    }
  }

  /** The construction scenarios of the unit tests. */
  lemma LoadExamples()
    ensures Load([]) == Err(EmptyMachine)
    ensures Load([Slot('A', 10, 5), Slot('A', 20, 3)]) == Err(DuplicateLocation('A'))
    ensures Load([Slot('a', 10, 5)]) == Err(InvalidLocation('a'))
    ensures Load([Slot('A', 9, 5)]) == Err(InvalidPrice('A', 9))
    ensures Load([Slot('A', 60, 0), Slot('B', 100, 0)]) == Err(EmptyMachine)
  {
  }

  // ---------------------------------------------------------------- machine state

  /** The machine: running flag, stock table, the bank's coins and the customer's inserted coins. */
  datatype MachineState = MachineState(on: bool, stock: seq<Option<Slot>>, bank: seq<nat>, user: seq<nat>)

  predicate WellFormed(m: MachineState)
  {
    |m.stock| == Locations && |m.bank| == |AllCoins| && |m.user| == |AllCoins|
  }

  /** A freshly built machine: off, with the loaded stock, the float as bank and no credit. */
  function Initial(stock: seq<Option<Slot>>, float: seq<nat>): (m: MachineState)
  {
    MachineState(false, stock, float, NoCoins)
  }

  datatype MachineError =
    | NotRunning                    // coin inserted while the machine is off
    | UnknownLocation(location: char)
    | ChangeRefused(error: CoinError)

  /** `isEmpty`: no configured item has any quantity left. */
  predicate SoldOut(stock: seq<Option<Slot>>)
  {
    forall k :: 0 <= k < |stock| && stock[k].Some? ==> stock[k].value.quantity <= 0
  }

  // ---------------------------------------------------------------- the sale protocol

  datatype VendOutcome =
    | Sold(change: seq<nat>)
    | OutOfStock
    | InsufficientFunds
    | InsufficientChange
    | Failed(error: MachineError)   // an exception escapes vendItem

  datatype VendStep = VendStep(next: MachineState, outcome: VendOutcome)

  /**
   * The committed sale: one fewer of the item; every inserted coin moves to the bank; the
   * greedy change for `due` leaves the bank; the machine switches off when nothing is left.
   */
  function Commit(m: MachineState, idx: nat, item: Slot, due: int): (r: VendStep)
    requires WellFormed(m) && idx < Locations
    requires ExactChange(Plus(m.bank, m.user), due) == Ok(true)
  {
    var pool := Plus(m.bank, m.user);
    ExactChangeIsExact(pool, due);
    var change := Greedy(pool, due);
    var stock' := m.stock[idx := Some(item.(quantity := item.quantity - 1))];
    VendStep(MachineState(if SoldOut(stock') then false else m.on, stock', Minus(pool, change), NoCoins), Sold(change))
  }

  /**
   * `vendItem(location)` with the stock decrement placed after the change check: an unknown
   * location raises; an absent or exhausted item, too little credit, or change that cannot be
   * made exactly from the bank and the customer's coins together, are refused without any
   * change of state; otherwise the sale is committed.
   */
  function Vend(m: MachineState, location: char): (r: VendStep)
    requires WellFormed(m)
  {
    match ItemIndex(location)
    case None => VendStep(m, Failed(UnknownLocation(location)))
    case Some(idx) =>
      if m.stock[idx].None? || m.stock[idx].value.quantity <= 0 then VendStep(m, OutOfStock)
      else
        var item := m.stock[idx].value;
        if Value(m.user) < item.price then VendStep(m, InsufficientFunds)
        else
          var due := Value(m.user) - item.price;
          match ExactChange(Plus(m.bank, m.user), due)
          case Err(e) => VendStep(m, Failed(ChangeRefused(e)))
          case Ok(feasible) =>
            if !feasible then VendStep(m, InsufficientChange)
            else Commit(m, idx, item, due)
  }

  /**
   * `vendItem(location)` as the source orders it: the item's quantity is decremented once
   * the credit is found sufficient, before the change check, and is not restored when that
   * check fails or raises.
   */
  function VendAsWritten(m: MachineState, location: char): (r: VendStep)
    requires WellFormed(m)
    ensures WellFormed(r.next)
    ensures !r.outcome.Sold? ==> r.next.bank == m.bank && r.next.user == m.user && r.next.on == m.on
    ensures forall i :: 0 <= i < Locations ==>
      r.next.stock[i] == m.stock[i]
      || (m.stock[i].Some? && r.next.stock[i] == Some(m.stock[i].value.(quantity := m.stock[i].value.quantity - 1)))
  {
    match ItemIndex(location)
    case None => VendStep(m, Failed(UnknownLocation(location)))
    case Some(idx) =>
      if m.stock[idx].None? || m.stock[idx].value.quantity <= 0 then VendStep(m, OutOfStock)
      else
        var item := m.stock[idx].value;
        if Value(m.user) < item.price then VendStep(m, InsufficientFunds)
        else
          var decremented := m.(stock := m.stock[idx := Some(item.(quantity := item.quantity - 1))]);
          var due := Value(m.user) - item.price;
          match ExactChange(Plus(m.bank, m.user), due)
          case Err(e) => VendStep(decremented, Failed(ChangeRefused(e)))
          case Ok(feasible) =>
            if !feasible then VendStep(decremented, InsufficientChange)
            else Commit(m, idx, item, due)
  }

  /** The item at `location` that a sale could sell, with quantity left. */
  predicate Available(m: MachineState, location: char)
    requires WellFormed(m)
  {
    ItemIndex(location).Some? && m.stock[ItemIndex(location).value].Some?
    && m.stock[ItemIndex(location).value].value.quantity > 0
  }

  function ItemAt(m: MachineState, location: char): Slot
    requires WellFormed(m) && Available(m, location)
  {
    m.stock[ItemIndex(location).value].value
  }

  /** The stock with one fewer of the item at `location`. */
  function OneLess(m: MachineState, location: char): (stock: seq<Option<Slot>>)
    requires WellFormed(m) && Available(m, location)
  {
    m.stock[ItemIndex(location).value := Some(ItemAt(m, location).(quantity := ItemAt(m, location).quantity - 1))]
  }

  /** A refused or failed sale leaves the whole machine exactly as it was. */
  lemma VendFailureChangesNothing(m: MachineState, location: char)
    requires WellFormed(m)
    ensures !Vend(m, location).outcome.Sold? ==> Vend(m, location).next == m
  {
  }

  /**
   * A sale goes through exactly when the item is available, the credit covers the price,
   * and exact greedy change for the difference exists in the bank and the credit together.
   */
  lemma VendSucceedsIff(m: MachineState, location: char)
    requires WellFormed(m)
    ensures Vend(m, location).outcome.Sold? <==>
      Available(m, location) && Value(m.user) >= ItemAt(m, location).price
      && ExactChange(Plus(m.bank, m.user), Value(m.user) - ItemAt(m, location).price) == Ok(true)
  {
  }

  /**
   * What a sale does: one fewer of the item and nothing else in the stock, no credit left,
   * change worth exactly the credit less the price, every coin conserved denomination by
   * denomination between bank, credit and change, and the machine off exactly when the
   * sale left every item exhausted.
   */
  lemma VendSoldEffects(m: MachineState, location: char)
    requires WellFormed(m)
    requires Vend(m, location).outcome.Sold?
    ensures WellFormed(Vend(m, location).next)
    ensures Vend(m, location).next.stock == OneLess(m, location)
    ensures Vend(m, location).next.user == NoCoins
    ensures |Vend(m, location).outcome.change| == |AllCoins|
    ensures Value(Vend(m, location).outcome.change) == Value(m.user) - ItemAt(m, location).price
    ensures forall k :: 0 <= k < |AllCoins| ==>
      Vend(m, location).next.bank[k] + Vend(m, location).outcome.change[k] == m.bank[k] + m.user[k]
    ensures Value(Vend(m, location).next.bank) + Value(Vend(m, location).outcome.change) == Value(m.bank) + Value(m.user)
    ensures Vend(m, location).next.on <==> m.on && !SoldOut(Vend(m, location).next.stock)
  {
    var item := ItemAt(m, location);
    var due := Value(m.user) - item.price;
    var pool := Plus(m.bank, m.user);
    ExactChangeIsExact(pool, due);
    MergeConserves(m.bank, m.user);
  }

  /**
   * Paying the exact price never needs change: an available item sells, for no change,
   * whatever the bank holds.
   */
  lemma VendExactPayment(m: MachineState, location: char)
    requires WellFormed(m) && Available(m, location)
    requires Value(m.user) == ItemAt(m, location).price
    ensures Vend(m, location).outcome == Sold(NoCoins)
  {
    ExactChangeForZero(Plus(m.bank, m.user));
  }

  /**
   * For an item with a non-negative price the change owed never exceeds what the bank and
   * the credit hold together, so the change check inside a sale can only raise when the
   * item's price is negative (which construction does not refuse).
   */
  lemma VendRefusesChangeOnlyBelowZero(m: MachineState, location: char)
    requires WellFormed(m)
    ensures Vend(m, location).outcome.Failed? && Vend(m, location).outcome.error.ChangeRefused? ==>
      Available(m, location) && ItemAt(m, location).price < 0
  {
    MergeConserves(m.bank, m.user);
    if Available(m, location) && 0 <= ItemAt(m, location).price <= Value(m.user) {
      var due := Value(m.user) - ItemAt(m, location).price;
      ChangeForSucceeds(Plus(m.bank, m.user), due);
    }
  }

  /** `vendItem` does not consult the running flag: a sale goes the same way on or off. */
  lemma VendIgnoresRunningFlag(m: MachineState, location: char, on: bool)
    requires WellFormed(m)
    ensures Vend(m.(on := on), location).outcome == Vend(m, location).outcome
  {
  }

  /**
   * As written, the source and the corrected sale agree except when the change check fails
   * or raises: then the source has still taken one of the item out of stock.
   */
  lemma VendAsWrittenDiffers(m: MachineState, location: char)
    requires WellFormed(m)
    ensures VendAsWritten(m, location).outcome == Vend(m, location).outcome
    ensures var o := Vend(m, location).outcome;
      !(o == InsufficientChange || (o.Failed? && o.error.ChangeRefused?)) ==>
        VendAsWritten(m, location).next == Vend(m, location).next
    ensures var o := Vend(m, location).outcome;
      (o == InsufficientChange || (o.Failed? && o.error.ChangeRefused?)) ==>
        var item := ItemAt(m, location);
        VendAsWritten(m, location).next
          == m.(stock := m.stock[ItemIndex(location).value := Some(item.(quantity := item.quantity - 1))])
  {
  }

  /** The unit tests' machine: A at 60p, B at 100p, C at 170p, two of each, at 'A'..'C'. */
  function TestStock(): (stock: seq<Option<Slot>>)
  {
    NoStock()[0 := Some(Slot('A', 60, 2))][1 := Some(Slot('B', 100, 2))][2 := Some(Slot('C', 170, 2))]
  }

  /**
   * The source's refusal for want of change still uses up stock: with an empty bank and a
   * £1 credit, asking for the 60p item is refused, yet one of the two is gone; the corrected
   * sale leaves both.
   */
  lemma VendAsWrittenLosesStock()
    ensures var m := MachineState(true, TestStock(), NoCoins, [1, 0, 0, 0]);
      && WellFormed(m)
      && VendAsWritten(m, 'A').outcome == InsufficientChange
      && VendAsWritten(m, 'A').next.stock[0] == Some(Slot('A', 60, 1))
      && Vend(m, 'A').outcome == InsufficientChange
      && Vend(m, 'A').next.stock[0] == Some(Slot('A', 60, 2))
  {
    assert Plus(NoCoins, [1, 0, 0, 0]) == [1, 0, 0, 0];
    ValueFormula([1, 0, 0, 0]);
    NoChangeFromOnePound();
  }

  /** A single pound coin cannot make 40p. */
  lemma NoChangeFromOnePound()
    ensures ExactChange([1, 0, 0, 0], 40) == Ok(false)
  {
    ValueFormula([1, 0, 0, 0]);
    GreedyUnfolded([1, 0, 0, 0], 40, 0, 0, 0, 0);
    ValueFormula(NoCoins);
  }

  /**
   * Unit-test scenario: bank (5, 5, 1, 5), £1 inserted, the 60p item sells and the 40p
   * change is one 20p and two 10p; no credit remains.
   */
  lemma VendExampleOneTwentyTwoTens()
    ensures var m := MachineState(true, TestStock(), [5, 5, 1, 5], [1, 0, 0, 0]);
      && WellFormed(m)
      && Vend(m, 'A').outcome == Sold([0, 0, 1, 2])
      && Vend(m, 'A').next.user == NoCoins
      && Vend(m, 'A').next.stock[0] == Some(Slot('A', 60, 1))
  {
    var pool := Plus([5, 5, 1, 5], [1, 0, 0, 0]);
    assert pool == [6, 5, 1, 5];
    ValueFormula([1, 0, 0, 0]);
    GreedyUnfolded(pool, 40, 0, 0, 1, 2);
    ValueFormula([0, 0, 1, 2]);
  }

  // ---------------------------------------------------------------- coins in and out, power

  datatype InsertStep = InsertStep(next: MachineState, result: Result<bool, MachineError>)

  /**
   * `insertMoney(pence)`: refused with an error while off; otherwise a recognised coin is
   * added to the credit, and an unrecognised one is rejected leaving everything as it was.
   */
  function InsertMoney(m: MachineState, pence: int): InsertStep
    requires WellFormed(m)
  {
    if !m.on then InsertStep(m, Err(NotRunning))
    else
      match Find(pence)
      case None => InsertStep(m, Ok(false))
      case Some(coin) =>
        InsertStep(m.(user := m.user[coin.Ordinal() := m.user[coin.Ordinal()] + 1]), Ok(true))
  }

  lemma InsertMoneyEffects(m: MachineState, pence: int)
    requires WellFormed(m)
    ensures var r := InsertMoney(m, pence);
      && WellFormed(r.next)
      && (r.result == Err(NotRunning) <==> !m.on)
      && (r.result == Ok(true) <==> m.on && Find(pence).Some?)
      && (r.result != Ok(true) ==> r.next == m)
      && (r.result == Ok(true) ==> Value(r.next.user) == Value(m.user) + pence)
      && r.next.bank == m.bank && r.next.stock == m.stock && r.next.on == m.on
  {
    if m.on && Find(pence).Some? {
      AddOneCoin(m.user, Find(pence).value);
    }
  }

  /** `coinReturn`: the credit is handed back (not banked); nothing else changes. */
  function CoinReturn(m: MachineState): (r: MachineState)
  {
    m.(user := NoCoins)
  }

  // ---------------------------------------------------------------- sessions

  /** What a customer or operator can do to the machine. */
  datatype Action = SwitchOn | SwitchOff | Insert(pence: int) | Select(location: char) | Cancel

  /** The new state, and the money that came in (accepted coins) and went out (change, returned credit). */
  datatype Effect = Effect(next: MachineState, paidIn: nat, paidOut: nat)

  function Apply(m: MachineState, a: Action): (e: Effect)
    requires WellFormed(m)
    ensures WellFormed(e.next)
  {
    match a
    case SwitchOn => Effect(m.(on := true), 0, 0)
    case SwitchOff => Effect(m.(on := false), 0, 0)
    case Insert(pence) =>
      var r := InsertMoney(m, pence);
      if r.result == Ok(true) then Effect(r.next, pence, 0) else Effect(r.next, 0, 0)
    case Select(location) =>
      var r := Vend(m, location);
      if r.outcome.Sold? then
        VendSoldEffects(m, location);
        Effect(r.next, 0, Value(r.outcome.change))
      else Effect(r.next, 0, 0)
    case Cancel => Effect(CoinReturn(m), 0, Value(m.user))
  }

  function Run(m: MachineState, actions: seq<Action>): (e: Effect)
    requires WellFormed(m)
    ensures WellFormed(e.next)
    decreases |actions|
  {
    if actions == [] then Effect(m, 0, 0)
    else
      var first := Apply(m, actions[0]);
      var rest := Run(first.next, actions[1..]);
      Effect(rest.next, first.paidIn + rest.paidIn, first.paidOut + rest.paidOut)
  }

  /** One action conserves money: bank plus credit plus what went out equals what was there plus what came in. */
  lemma ApplyConservesMoney(m: MachineState, a: Action)
    requires WellFormed(m)
    ensures var e := Apply(m, a);
      Value(e.next.bank) + Value(e.next.user) + e.paidOut == Value(m.bank) + Value(m.user) + e.paidIn
  {
    match a
    case Insert(pence) => InsertMoneyEffects(m, pence);
    case Select(location) =>
      if Vend(m, location).outcome.Sold? {
        VendSoldEffects(m, location);
      }
    case Cancel => ValueFormula(NoCoins);
    case _ =>
  }

  /**
   * Over any session, no coin is created or destroyed: the bank and the credit at the end,
   * plus all change and returned credit, equal the bank and credit at the start plus every
   * coin accepted.
   */
  lemma {:induction false} RunConservesMoney(m: MachineState, actions: seq<Action>)
    requires WellFormed(m)
    ensures var e := Run(m, actions);
      Value(e.next.bank) + Value(e.next.user) + e.paidOut == Value(m.bank) + Value(m.user) + e.paidIn
    decreases |actions|
  {
    if actions != [] {
      ApplyConservesMoney(m, actions[0]);
      RunConservesMoney(Apply(m, actions[0]).next, actions[1..]);
    }
  }

  /** Item `after` is `before` with possibly fewer left: same location, same price. */
  predicate NoRestock(before: seq<Option<Slot>>, after: seq<Option<Slot>>)
  {
    |before| == |after| &&
    forall k :: 0 <= k < |before| ==>
      (before[k].Some? <==> after[k].Some?) &&
      (before[k].Some? ==>
        && after[k].value.location == before[k].value.location
        && after[k].value.price == before[k].value.price
        && after[k].value.quantity <= before[k].value.quantity)
  }

  /**
   * Over any session stock is never added, moved or repriced, and quantities never rise.
   */
  lemma {:induction false} RunNeverRestocks(m: MachineState, actions: seq<Action>)
    requires WellFormed(m)
    ensures NoRestock(m.stock, Run(m, actions).next.stock)
    decreases |actions|
  {
    if actions != [] {
      var first := Apply(m, actions[0]);
      match actions[0] {
        case Insert(pence) => InsertMoneyEffects(m, pence);
        case Select(location) =>
          if Vend(m, location).outcome.Sold? {
            VendSoldEffects(m, location);
          }
        case _ =>
      }
      assert NoRestock(m.stock, first.next.stock);
      RunNeverRestocks(first.next, actions[1..]);
    }
  }
}
