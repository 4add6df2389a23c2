/** `ItemService`: the rule engine of the domain model. Guards are functions; the
    operations that change an item work on the `Item` object in place. Each in-place
    operation is specified by a function on `ItemData`. */
module ItemService {
  import opened Common
  import opened JsNumber
  import opened Names
  import opened ItemModel
  import opened Ledger

  /** `updateQuantity`: adds a signed delta to `quantity` and to nothing else. */
  method UpdateQuantity(item: Item, quantity: int)
    modifies item
    ensures item.Data() == old(item.Data()).(quantity := old(item.quantity) + quantity)
  {
    item.quantity := item.quantity + quantity;
  }

  /** `updateBorrowedQuantity`: adds a signed delta to `borrowedQuantity` and to nothing else. */
  method UpdateBorrowedQuantity(item: Item, quantity: int)
    modifies item
    ensures item.Data() == old(item.Data()).(borrowedQuantity := old(item.borrowedQuantity) + quantity)
  {
    item.borrowedQuantity := item.borrowedQuantity + quantity;
  }

  function PositiveQuantityMessage(operation: string): string {
    operation + " quantity must be a valid positive number"
  }

  /** `validatePositiveQuantity`: accepts exactly the integers from 1 up. */
  function ValidatePositiveQuantity(quantity: Amount, operation: string): (r: Outcome)
    ensures r.Pass? <==> quantity.Int? && quantity.i >= 1
    ensures r.Fail? ==> r.failure == Failure(BadRequest, PositiveQuantityMessage(operation))
  {
    if IsNaN(quantity) || !IsInteger(quantity) || AtMostZero(quantity) then
      Fail(Failure(BadRequest, PositiveQuantityMessage(operation)))
    else
      Pass
  }

  /** `validateSearchResults`: an empty result is NotFound naming the query. */
  function ValidateSearchResults<T>(items: seq<T>, query: string): (r: Outcome)
    ensures r.Pass? <==> |items| > 0
    ensures r.Fail? ==> r.failure == Failure(NotFound, "No matching items found for query: " + query)
  {
    if |items| == 0 then Fail(Failure(NotFound, "No matching items found for query: " + query))
    else Pass
  }

  function MissingItemMessage(itemId: string): string {
    "Item with ID " + itemId + " not found"
  }

  /** `validateExistingItem`: an absent item is NotFound naming the id. */
  function ValidateExistingItem(item: Item?, itemId: string): (r: Outcome)
    ensures r.Pass? <==> item != null
    ensures r.Fail? ==> r.failure == Failure(NotFound, MissingItemMessage(itemId))
  {
    if item == null then Fail(Failure(NotFound, MissingItemMessage(itemId))) else Pass
  }

  /** `validateUniqueItem`: the first item whose name matches case-insensitively gets
      `quantity` added and is returned; with no match, null is returned and no item changes. */
  method ValidateUniqueItem(name: string, quantity: int, existingItems: seq<Item>) returns (r: Item?)
    modifies existingItems
    ensures var k := FirstMatch(old(NamesOf(existingItems)), name);
      if k < 0 then r == null
      else r == existingItems[k] && r.Data() == old(r.Data()).(quantity := old(r.quantity) + quantity)
    ensures forall x :: x in existingItems && x != r ==> x.Data() == old(x.Data())
  {
    var k := FirstMatch(NamesOf(existingItems), name);
    if k < 0 {
      return null;
    }
    r := existingItems[k];
    UpdateQuantity(r, quantity);
  }

  /** What `validateAndBorrowItem` does to an item's fields: a positive integer amount not
      above the stock moves from `quantity` to `borrowedQuantity`; otherwise the failure it
      throws. The amount check comes first. Taking the whole stock is allowed. */
  function Borrowing(d: ItemData, borrowQuantity: Amount): (r: Result<ItemData>)
    ensures r.Ok? <==> borrowQuantity.Int? && 1 <= borrowQuantity.i <= d.quantity
    ensures r.Ok? ==> r.value == Lent(d, borrowQuantity.i)
    ensures !(borrowQuantity.Int? && borrowQuantity.i >= 1) ==>
      r == Err(Failure(BadRequest, PositiveQuantityMessage("Borrow")))
    ensures borrowQuantity.Int? && borrowQuantity.i >= 1 && d.quantity < borrowQuantity.i ==>
      r == Err(Failure(BadRequest, "Insufficient quantity available"))
  {
    match ValidatePositiveQuantity(borrowQuantity, "Borrow")
    case Fail(f) => Err(f)
    case Pass =>
      if d.quantity < borrowQuantity.i then Err(Failure(BadRequest, "Insufficient quantity available"))
      else Ok(Lent(d, borrowQuantity.i))
  }

  /** What `validateAndReturnItem` does to an item's fields: a positive integer amount not
      above the borrowed count moves back to `quantity`; otherwise the failure it throws. */
  function Returning(d: ItemData, returnQuantity: Amount): (r: Result<ItemData>)
    ensures r.Ok? <==> returnQuantity.Int? && 1 <= returnQuantity.i <= d.borrowedQuantity
    ensures r.Ok? ==> r.value == Restocked(d, returnQuantity.i)
    ensures !(returnQuantity.Int? && returnQuantity.i >= 1) ==>
      r == Err(Failure(BadRequest, PositiveQuantityMessage("Return")))
    ensures returnQuantity.Int? && returnQuantity.i >= 1 && d.borrowedQuantity < returnQuantity.i ==>
      r == Err(Failure(BadRequest, "Return quantity exceeds borrowed quantity"))
  {
    match ValidatePositiveQuantity(returnQuantity, "Return")
    case Fail(f) => Err(f)
    case Pass =>
      if d.borrowedQuantity < returnQuantity.i then
        Err(Failure(BadRequest, "Return quantity exceeds borrowed quantity"))
      else Ok(Restocked(d, returnQuantity.i))
  }

  /** `validateAndBorrowItem`: validates, then updates the item in place and returns it.
      A failure leaves the item exactly as it was. */
  method ValidateAndBorrowItem(item: Item, borrowQuantity: Amount) returns (r: Result<Item>)
    modifies item
    ensures var expected := Borrowing(old(item.Data()), borrowQuantity);
      match expected
      case Ok(d) => r == Ok(item) && item.Data() == d
      case Err(f) => r == Err(f) && item.Data() == old(item.Data())
  {
    var check := ValidatePositiveQuantity(borrowQuantity, "Borrow");
    if check.Fail? {
      return Err(check.failure);
    }
    if item.quantity < borrowQuantity.i {
      return Err(Failure(BadRequest, "Insufficient quantity available"));
    }
    UpdateQuantity(item, -borrowQuantity.i);
    UpdateBorrowedQuantity(item, borrowQuantity.i);
    r := Ok(item);
  }

  /** `validateAndReturnItem`: validates, then updates the item in place and returns it.
      A failure leaves the item exactly as it was. */
  method ValidateAndReturnItem(item: Item, returnQuantity: Amount) returns (r: Result<Item>)
    modifies item
    ensures var expected := Returning(old(item.Data()), returnQuantity);
      match expected
      case Ok(d) => r == Ok(item) && item.Data() == d
      case Err(f) => r == Err(f) && item.Data() == old(item.Data())
  {
    var check := ValidatePositiveQuantity(returnQuantity, "Return");
    if check.Fail? {
      return Err(check.failure);
    }
    if item.borrowedQuantity < returnQuantity.i {
      return Err(Failure(BadRequest, "Return quantity exceeds borrowed quantity"));
    }
    UpdateQuantity(item, returnQuantity.i);
    UpdateBorrowedQuantity(item, -returnQuantity.i);
    r := Ok(item);
  }
}
