/** The stock-bearing `Item` of the domain model: an object with mutable fields that the
    rule engines update in place, and `ItemData`, the value of all its fields at one moment. */
module ItemModel {
  import opened Common

  /** The fields of an item, as a value (also the shape of a stored row). */
  datatype ItemData = ItemData(
    itemId: string,
    name: string,
    description: string,
    quantity: int,
    borrowedQuantity: int,
    createdAt: Timestamp,
    updatedAt: Timestamp)
  {
    /** The two counters are not negative: the ledger's invariant. */
    predicate StockValid() {
      quantity >= 0 && borrowedQuantity >= 0
    }

    /** Units owned: available plus lent out. */
    function Total(): int {
      quantity + borrowedQuantity
    }
  }

  class Item {
    var itemId: string
    var name: string
    var description: string
    var quantity: int
    var borrowedQuantity: int
    var createdAt: Timestamp
    var updatedAt: Timestamp

    /** Stores every argument as given; `borrowedQuantity` defaults to 0. The timestamps
        default to the clock in the source and are passed in here. No validation is done,
        so non-negative counters are kept by the rules, not by construction. */
    constructor (itemId: string, name: string, description: string, quantity: int,
                 borrowedQuantity: int := 0, createdAt: Timestamp, updatedAt: Timestamp)
      ensures Data() == ItemData(itemId, name, description, quantity, borrowedQuantity, createdAt, updatedAt)
    {
      this.itemId := itemId;
      this.name := name;
      this.quantity := quantity;
      this.borrowedQuantity := borrowedQuantity;
      this.createdAt := createdAt;
      this.updatedAt := updatedAt;
      this.description := description;
    }

    function Data(): ItemData
      reads this
    {
      ItemData(itemId, name, description, quantity, borrowedQuantity, createdAt, updatedAt)
    }
  }

  /** The names of a list of items, in order. */
  function NamesOf(items: seq<Item>): (r: seq<string>)
    reads items
    ensures |r| == |items|
    ensures forall i :: 0 <= i < |items| ==> r[i] == items[i].name
  {
    seq(|items|, i requires 0 <= i < |items| reads items => items[i].name)
  }

  /** The default in use: an item built without a borrowed count starts with nothing lent out. */
  method NewItemDefaultsToNothingBorrowed(itemId: string, name: string, description: string,
                                          quantity: int, now: Timestamp)
    returns (item: Item)
    ensures item.borrowedQuantity == 0
    ensures item.itemId == itemId && item.name == name && item.description == description
    ensures item.quantity == quantity
  {
    item := new Item(itemId, name, description, quantity, createdAt := now, updatedAt := now);
  }
}
