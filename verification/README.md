# Vending machine model

A Dafny model of a coin-operated vending machine with 26 item locations ('A'..'Z'), a bank
of £1, 50p, 20p and 10p coins, and a customer credit. The customer inserts coins, picks a
location, and receives the item together with change computed greedily (largest coin first)
from the bank and the inserted coins together; a sale that cannot be paid exactly is refused.

The model follows the three classes of the original program:

- `coins.dfy` (module `Coins`): the `Coin` enumeration and `Coin.find`, and the arithmetic of
  a coin store as pure functions over per-denomination counts: value, coin count, merge and
  removal, the greedy change walk (`Take`, `Greedy`, `Shortfall`), the outcome of `getChange`
  (`ChangeFor`) and of `canFindCorrectChange` (`ExactChange`), and `isValidPrice`.
- `coin_store.dfy` (module `CoinStores`): class `CoinStore`, whose counts live in an
  `array<nat>` updated in place. Every method is specified against the functions of `Coins`.
- `stock_item.dfy` (module `StockItems`): class `StockItem` with constant location and price
  and a mutable remaining quantity, and its value form `Slot`.
- `machine_spec.dfy` (module `MachineSpec`): the machine as a pure state
  (`MachineState`: running flag, stock table, bank counts, credit counts) with the
  construction check (`Load`), the sale protocol (`Vend`, and `VendAsWritten` for the order of
  the original code), coin insertion, coin return, and sessions of actions (`Run`).
- `vending_machine.dfy` (module `VendingMachines`): class `VendingMachine` with the stock array,
  the two coin stores and the flag. `State()` abstracts it to a `MachineState`, and each
  method states the new `State()` exactly: `Create` as `Load` and `Initial`, `VendItem` as
  `Vend`, `Sell` as `Commit`, `InsertMoney` and `CoinReturn` as the `MachineSpec` functions
  of the same name, and the smaller steps (`TakeOne`, `PayOut`, `SetOn`, `SetOff`) by the
  state they leave.
- `wrappers.dfy`: `Option` and `Result`, standing for `null` returns and exceptions.

Exceptions become `Err` results: `CoinError` for `CoinStore` and `ConfigError` for the
constructor. `MachineError` covers `insertMoney` while off, an invalid location given to
`vendItem`, and an exception escaping from the change check.

## Model

| member | source | states |
|---|---|---|
| `Coins.CatalogueDescending` | src/vendingMachine/CoinStore.java:12 | the coins are declared in strictly descending value and the last one is 10p |
| `Coins.FindIn` | src/vendingMachine/CoinStore.java:28-35 | a coin found has the searched face value; no coin of the list has it when none is found |
| `Coins.Find` | src/vendingMachine/CoinStore.java:28-35 | `Coin.find` returns the coin with the given face value; when it finds none, no coin has that value |
| `Coins.ValueFormula` | src/vendingMachine/CoinStore.java:79-85 | a store's value is 100×£1 + 50×50p + 20×20p + 10×10p |
| `Coins.AddOneCoin` | src/vendingMachine/CoinStore.java:118-120 | one more coin c raises the value by exactly c's face value and the coin count by one |
| `Coins.MergeConserves` | src/vendingMachine/CoinStore.java:126-131 | merging two stores adds their values and their coin counts |
| `Coins.RemovalConserves` | src/vendingMachine/CoinStore.java:185-187 | removing coins that are held lowers value and coin count by exactly theirs |
| `Coins.Use` | src/vendingMachine/CoinStore.java:181-184 | the coins of one denomination taken never exceed the amount still owed |
| `Coins.TakeAccounts` | src/vendingMachine/CoinStore.java:179-188 | each count taken is within the count held, and the change's value plus what is still owed equals the amount asked |
| `Coins.TakeRule` | src/vendingMachine/CoinStore.java:179-188 | greedy rule: the k-th count is min(remaining after the earlier coins / face value, count held) |
| `Coins.GreedyWithinStore` | src/vendingMachine/CoinStore.java:179-188 | the change never exceeds the store per denomination and is worth at most the amount asked |
| `Coins.GreedyRule` | src/vendingMachine/CoinStore.java:179-188 | the greedy rule over the four coins in descending order |
| `Coins.ChangeForSucceeds` | src/vendingMachine/CoinStore.java:171-177 | `getChange` fails with "insufficient balance" above the store's value, with "negative" below zero, and succeeds exactly in between |
| `Coins.ExactChangeIsExact` | src/vendingMachine/CoinStore.java:138-150 | when `canFindCorrectChange(v)` is true, `getChange(v)` on the same store returns change worth exactly v, and the store keeps its value less v, coin for coin |
| `Coins.ExactChangeIffNoShortfall` | src/vendingMachine/CoinStore.java:138-140 | `canFindCorrectChange(v)` is true iff the greedy walk leaves nothing owed |
| `Coins.ExactChangeForZero` | src/vendingMachine/CoinStore.java:138-140 | change for 0 is always found and is no coins at all |
| `Coins.ExactChangeForWholeStore` | src/vendingMachine/CoinStore.java:171-188 | the whole store is always exact change for its own value, and is all of it |
| `Coins.GreedyMissesSomeExactChange` | src/vendingMachine/CoinStore.java:138-140 | the check is greedy only: one 50p and three 20p give no change for 60p although three 20p make 60p |
| `Coins.IsValidPrice` | src/vendingMachine/CoinStore.java:159-162 | a price, negative ones included, is valid exactly when it is a whole number of 10p (the smallest coin) |
| `Coins.ValidPricesArePayable` | src/vendingMachine/CoinStore.java:159-162 | every store's value is a valid price, and a non-negative price is valid iff a store of 10p coins is worth exactly that price |
| `Coins.ChangeExample1400` | test/vendingMachine/CoinStoreTest.java:147-167 | (11,7,5,3) is worth 1580p and its greedy change for 1400p is (11,6,0,0), 17 coins |
| `Coins.ExactChangeExample` | test/vendingMachine/CoinStoreTest.java:82-100 | on (11,7,5,0), worth 1550p, there is no exact change for 30p but there is for 1530p |
| `CoinStores.CoinStore.Empty` | src/vendingMachine/CoinStore.java:42-44 | a new store holds no coins |
| `CoinStores.CoinStore.constructor` | src/vendingMachine/CoinStore.java:47-52 | a new store holds the given numbers of £1, 50p, 20p and 10p |
| `CoinStores.CoinStore.Copy` | src/vendingMachine/CoinStore.java:57-60 | a fresh store with the same counts as the original |
| `CoinStores.CoinStore.GetValue` | src/vendingMachine/CoinStore.java:79-85 | the loop's total is the store's value |
| `CoinStores.CoinStore.GetCoinCount` | src/vendingMachine/CoinStore.java:91-97 | the loop's total is the number of coins held |
| `CoinStores.CoinStore.CountOf` | src/vendingMachine/CoinStore.java:102-104 | the count of one coin, whose worth never exceeds the store's value |
| `CoinStores.CoinStore.AddCoin` | src/vendingMachine/CoinStore.java:118-120 | only that coin's count rises, by one; value up by its face value, coin count by one |
| `CoinStores.CoinStore.AddCoinByValue` | src/vendingMachine/CoinStore.java:111-113 | an unrecognised value fails and nothing changes; otherwise exactly the matching coin is added |
| `CoinStores.CoinStore.AddCoins` | src/vendingMachine/CoinStore.java:126-131 | this store gains exactly what the other held and the other is left empty (a store merged into itself is emptied) |
| `CoinStores.CoinStore.TakeChange` | src/vendingMachine/CoinStore.java:171-195 | errors are raised before any count changes; the change is the greedy change; with `updateBalance` old count = new count + change count per coin, without it nothing changes |
| `CoinStores.CoinStore.Walk` | src/vendingMachine/CoinStore.java:179-193 | the loop builds exactly the greedy change of the old counts; with `updateBalance` old count = new count + change count per coin, without it the store is unchanged |
| `CoinStores.CoinStore.GetChange` | src/vendingMachine/CoinStore.java:148-150 | succeeds iff 0 ≤ amount ≤ value; returns the greedy change, within the store, removed from it; value and coin count conserved |
| `CoinStores.CoinStore.CanFindCorrectChange` | src/vendingMachine/CoinStore.java:138-140 | the answer is the greedy check, errors included, and the store is unchanged |
| `StockItems.StockItem.constructor` | src/vendingMachine/StockItem.java:10-14 | location, price and quantity are stored as given, without validation |
| `MachineSpec.ItemIndex` | src/vendingMachine/VendingMachine.java:62-67 | a location has an index iff it lies in 'A'..'Z'; the index is below 26 and maps back to the location |
| `MachineSpec.LoadFromCorrect` | src/vendingMachine/VendingMachine.java:28-41 | from any point of the loading loop, the load succeeds iff the definitions are all acceptable, at distinct locations, with a non-zero total, and places each at its index |
| `MachineSpec.LoadSucceedsIff` | src/vendingMachine/VendingMachine.java:24-43 | construction succeeds iff every location is in 'A'..'Z', no location repeats, every price is valid and the total quantity is not 0; "empty" exactly when only the total fails; each item sits at its location and nothing else is configured |
| `MachineSpec.LoadExamples` | test/vendingMachine/VendingMachineTest.java:44-91 | no definitions, a repeated 'A', location 'a' and price 9p are refused with the matching error |
| `MachineSpec.VendFailureChangesNothing` | src/vendingMachine/VendingMachine.java:92-112 | a refused or failed sale leaves the whole machine unchanged |
| `MachineSpec.VendSucceedsIff` | src/vendingMachine/VendingMachine.java:92-112 | a sale goes through iff the item is present with quantity left, the credit covers the price and exact change exists in bank plus credit |
| `MachineSpec.VendSoldEffects` | src/vendingMachine/VendingMachine.java:105-127 | a sale removes one item, empties the credit, pays change worth credit − price, keeps bank + credit = new bank + change per denomination, and switches off iff nothing is left |
| `MachineSpec.VendExactPayment` | test/vendingMachine/VendingMachineTest.java:139-149 | paying exactly the price always sells, for no change, whatever the bank holds |
| `MachineSpec.VendRefusesChangeOnlyBelowZero` | src/vendingMachine/VendingMachine.java:106-109 | the change check raises only for an item with a negative price |
| `MachineSpec.VendIgnoresRunningFlag` | src/vendingMachine/VendingMachine.java:92-130 | `vendItem` does not look at the running flag |
| `MachineSpec.VendAsWritten` | src/vendingMachine/VendingMachine.java:92-112 | `vendItem` in the original order: whatever the outcome, every slot is either unchanged or has exactly one fewer item, and a sale that does not happen leaves the bank, the credit and the flag as they were |
| `MachineSpec.VendAsWrittenDiffers` | src/vendingMachine/VendingMachine.java:105-112 | the original order agrees with the corrected sale except that a sale refused for change still loses one item |
| `MachineSpec.VendAsWrittenLosesStock` | test/vendingMachine/VendingMachineTest.java:139-149 | empty bank, £1 credit, 60p item: the original refuses the sale yet leaves one item instead of two |
| `MachineSpec.NoChangeFromOnePound` | test/vendingMachine/VendingMachineTest.java:139-149 | a lone £1 coin is no exact change for 40p |
| `MachineSpec.VendExampleOneTwentyTwoTens` | test/vendingMachine/VendingMachineTest.java:113-124 | bank (5,5,1,5) and £1 credit: the 60p item sells with one 20p and two 10p, and no credit remains |
| `MachineSpec.InsertMoneyEffects` | src/vendingMachine/VendingMachine.java:163-177 | off: error and nothing changes; on: a recognised coin is accepted and raises the credit by its value, anything else is rejected with nothing changed |
| `MachineSpec.ApplyConservesMoney` | src/vendingMachine/VendingMachine.java:115-119 | one action never creates or destroys money |
| `MachineSpec.RunConservesMoney` | src/vendingMachine/VendingMachine.java:92-186 | over any session, bank + credit + money paid out = initial bank + credit + coins accepted |
| `MachineSpec.RunNeverRestocks` | src/vendingMachine/StockItem.java:7-9 | over any session, no slot appears or disappears, locations and prices never change and quantities never rise |
| `VendingMachines.VendingMachine.Init` | src/vendingMachine/VendingMachine.java:11-14 | the new machine holds the given stock array and the float as its bank, has an empty credit and is switched off |
| `VendingMachines.VendingMachine.Create` | src/vendingMachine/VendingMachine.java:24-43 | fails exactly as `Load` does; on success a fresh machine, off, with the loaded stock, the float as bank and no credit |
| `VendingMachines.VendingMachine.LoadStock` | src/vendingMachine/VendingMachine.java:25-40 | the loading loop fails exactly as `Load` does, with the same error; on success every location holds the item `Load` places there, and that item's location letter matches its index |
| `VendingMachines.VendingMachine.IsEmpty` | src/vendingMachine/VendingMachine.java:48-55 | true iff no configured item has quantity left |
| `VendingMachines.VendingMachine.CanFindCorrectChange` | src/vendingMachine/VendingMachine.java:76-80 | the greedy check on bank plus credit, computed on copies |
| `VendingMachines.VendingMachine.VendItem` | src/vendingMachine/VendingMachine.java:92-130 | the new state and result are those of `Vend`: an exception iff the location is invalid or the change check raises, no coins iff refused, the change of the committed sale otherwise |
| `VendingMachines.VendingMachine.Sell` | src/vendingMachine/VendingMachine.java:105-127 | the committed sale moves the state exactly as `Commit` |
| `VendingMachines.VendingMachine.TakeOne` | src/vendingMachine/VendingMachine.java:105 | one fewer of that item and nothing else changes |
| `VendingMachines.VendingMachine.PayOut` | src/vendingMachine/VendingMachine.java:115-119 | credit moved into the bank, greedy change taken out of it, credit left empty |
| `VendingMachines.VendingMachine.GetUserBalance` | src/vendingMachine/VendingMachine.java:135-137 | the credit's value |
| `VendingMachines.VendingMachine.IsOn` | src/vendingMachine/VendingMachine.java:140-142 | the running flag of the state |
| `VendingMachines.VendingMachine.SetOn` | src/vendingMachine/VendingMachine.java:145-149 | only the running flag changes, to on |
| `VendingMachines.VendingMachine.SetOff` | src/vendingMachine/VendingMachine.java:152-154 | only the running flag changes, to off |
| `VendingMachines.VendingMachine.InsertMoney` | src/vendingMachine/VendingMachine.java:163-177 | new state and result are those of `MachineSpec.InsertMoney` |
| `VendingMachines.VendingMachine.CoinReturn` | src/vendingMachine/VendingMachine.java:183-186 | the credit becomes empty, nothing is banked, bank, stock and flag are unchanged |

## Left out

- Console output (`toString` of a coin store and the messages of `vendItem`, `insertMoney` and `coinReturn`): it is I/O and formats with floating point.
- The loader interface: construction takes the definitions as a finite sequence of `StockItem`s instead of calling `getNextItem()` until it returns `null`.
- `getA`, `getB`, `getC`: fixed-location wrappers around `vendItem`.
- Java's 32-bit `int`: counts, values and quantities are unbounded, so overflow of a sum or of the total quantity is not modelled.
- CoinStores.CoinStore.constructor: counts are `nat`, whereas the original accepts negative counts without checking.
- VendingMachines.VendingMachine.VendItem: follows the corrected order (see Findings), not the original decrement-before-check; the original order is `MachineSpec.VendAsWritten`.
- The constructor keeps the caller's float object as its bank and the caller's `StockItem` objects in its stock array. The model does the same, but says nothing about what the caller later does with them.
- `canFindCorrectChange` is only the greedy check. Whether some other combination of coins would make the change is not claimed; `Coins.GreedyMissesSomeExactChange` shows a case where the two differ.
- Prices that are negative multiples of 10 pass `isValidPrice` and are accepted at construction, as in the original code. Selling such an item owes change above the credit, which can make the change check raise (`MachineSpec.VendRefusesChangeOnlyBelowZero`).

## Findings

| source | as written | input that shows it | evidently intended | confidence | as-written member | corrected member |
|---|---|---|---|---|---|---|
| src/vendingMachine/VendingMachine.java:105-112 | the item's quantity is decremented before the change check, and a sale refused for want of change returns `null` without restoring it | bank empty, items A 60p ×2, B 100p ×2, C 170p ×2, £1 inserted, `vendItem('A')`: refused, yet A has 1 left | a refused sale leaves the stock as it was | not executed | `MachineSpec.VendAsWritten`, `MachineSpec.VendAsWrittenLosesStock` | `VendingMachines.VendingMachine.VendItem`, `MachineSpec.VendFailureChangesNothing` |
