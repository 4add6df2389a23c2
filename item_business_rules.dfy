/** `ItemBusinessRules`: the older rule engine, where each move is a `validate*` guard
    followed by an unguarded `execute*` that updates the item in place. */
module ItemBusinessRules {
  import opened Common
  import opened JsNumber
  import opened Names
  import opened ItemModel
  import opened Ledger
  import ItemService

  /** `validateUniqueItem`: the very object of the first case-insensitive name match gets
      `quantity` added and is returned; with no match, null and no item changes. */
  method ValidateUniqueItem(name: string, quantity: int, existingItems: seq<Item>) returns (r: Item?)
    modifies existingItems
    ensures var k := FirstMatch(old(NamesOf(existingItems)), name);
      if k < 0 then r == null
      else r == existingItems[k] && r.Data() == old(r.Data()).(quantity := old(r.quantity) + quantity)
    ensures forall x :: x in existingItems && x != r ==> x.Data() == old(x.Data())
  {
    var k := FindIndex(NamesOf(existingItems), (n: string) => SameName(n, name));
    if k < 0 {
      return null;
    }
    r := existingItems[k];
    r.quantity := r.quantity + quantity;
  }

  /** `validateBorrowItem`: fails when the amount is below 1, otherwise when the stock is
      short; it only reads the item. */
  function ValidateBorrowItem(item: Item, borrowQuantity: int): (r: Outcome)
    reads item
    ensures r.Pass? <==> 1 <= borrowQuantity <= item.quantity
    ensures borrowQuantity < 1 ==> r == Fail(Failure(Plain, "Borrow quantity not be less than 1"))
    ensures borrowQuantity >= 1 && item.quantity < borrowQuantity ==>
      r == Fail(Failure(Plain, "Not enough quantity available"))
  {
    if borrowQuantity < 1 then Fail(Failure(Plain, "Borrow quantity not be less than 1"))
    else if item.quantity < borrowQuantity then Fail(Failure(Plain, "Not enough quantity available"))
    else Pass
  }

  /** `executeBorrowItem`: moves the amount unconditionally and returns the same object. */
  method ExecuteBorrowItem(item: Item, borrowQuantity: int) returns (r: Item)
    modifies item
    ensures r == item && item.Data() == Lent(old(item.Data()), borrowQuantity)
  {
    item.quantity := item.quantity - borrowQuantity;
    item.borrowedQuantity := item.borrowedQuantity + borrowQuantity;
    r := item;
  }

  /** `validateReturnItem`: fails when the amount is below 1, otherwise when it exceeds
      the borrowed count; it only reads the item. */
  function ValidateReturnItem(item: Item, returnQuantity: int): (r: Outcome)
    reads item
    ensures r.Pass? <==> 1 <= returnQuantity <= item.borrowedQuantity
    ensures returnQuantity < 1 ==> r == Fail(Failure(Plain, "Return quantity not be less than 1"))
    ensures returnQuantity >= 1 && item.borrowedQuantity < returnQuantity ==>
      r == Fail(Failure(Plain, "Invalid return quantity"))
  {
    if returnQuantity < 1 then Fail(Failure(Plain, "Return quantity not be less than 1"))
    else if item.borrowedQuantity < returnQuantity then Fail(Failure(Plain, "Invalid return quantity"))
    else Pass
  }

  /** `executeReturnItem`: moves the amount back unconditionally and returns the same object. */
  method ExecuteReturnItem(item: Item, returnQuantity: int) returns (r: Item)
    modifies item
    ensures r == item && item.Data() == Restocked(old(item.Data()), returnQuantity)
  {
    item.quantity := item.quantity + returnQuantity;
    item.borrowedQuantity := item.borrowedQuantity - returnQuantity;
    r := item;
  }

  /** Validate-then-execute keeps the counters non-negative and the total fixed; the
      execute step alone does not (it has no guard), so the guard is the precondition. */
  lemma ValidatedBorrowKeepsStock(item: Item, n: int)
    requires item.Data().StockValid()
    requires ValidateBorrowItem(item, n).Pass?
    ensures Lent(item.Data(), n).StockValid()
    ensures Lent(item.Data(), n).Total() == item.Data().Total()
  {
  }

  lemma ValidatedReturnKeepsStock(item: Item, n: int)
    requires item.Data().StockValid()
    requires ValidateReturnItem(item, n).Pass?
    ensures Restocked(item.Data(), n).StockValid()
    ensures Restocked(item.Data(), n).Total() == item.Data().Total()
  {
  }

  /** Without the guard the execute step can drive the stock negative: 10 units, 11 lent. */
  lemma UnguardedBorrowCanOverdraw()
    ensures exists d: ItemData, n: int :: d.StockValid() && !Lent(d, n).StockValid()
  {
    var d := ItemData("1", "Sample Item", "Test Item", 10, 2, 0, 0);
    assert !Lent(d, 11).StockValid();
  }

  /** On integer amounts the two rule engines accept the same borrows and returns and
      produce the same counters; only the error messages and kinds differ. */
  lemma AgreesWithItemService(item: Item, n: int)
    ensures ValidateBorrowItem(item, n).Pass? <==> ItemService.Borrowing(item.Data(), Int(n)).Ok?
    ensures ValidateBorrowItem(item, n).Pass? ==>
      ItemService.Borrowing(item.Data(), Int(n)).value == Lent(item.Data(), n)
    ensures ValidateReturnItem(item, n).Pass? <==> ItemService.Returning(item.Data(), Int(n)).Ok?
    ensures ValidateReturnItem(item, n).Pass? ==>
      ItemService.Returning(item.Data(), Int(n)).value == Restocked(item.Data(), n)
  {
  }
}
