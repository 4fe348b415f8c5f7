/**
 * `StockItem`: one item definition bound to a location. Its location and price are fixed
 * at construction; only the remaining quantity changes, when a sale is committed.
 */
module StockItems {

  /** The value of a stock item: its location letter, its price in pence and its quantity left. */
  datatype Slot = Slot(location: char, price: int, quantity: int)

  class StockItem {
    const location: char
    const value: int
    var quantityRemaining: int

    /** Stores its arguments as given; nothing is validated here. */
    constructor (location: char, value: int, loadedQuantity: int)
      ensures this.location == location && this.value == value
      ensures quantityRemaining == loadedQuantity
    {
      this.location := location;
      this.value := value;
      this.quantityRemaining := loadedQuantity;
    }

    /** The item as a value. */
    function AsSlot(): Slot
      reads this
    {
      Slot(location, value, quantityRemaining)
    }
  }

  /** The definitions a list of stock items carries, in order. */
  ghost function Defs(items: seq<StockItem>): (defs: seq<Slot>)
    reads items
    ensures |defs| == |items|
    ensures forall k :: 0 <= k < |items| ==> defs[k] == items[k].AsSlot()
  {
    if items == [] then [] else [items[0].AsSlot()] + Defs(items[1..])
  }
}
