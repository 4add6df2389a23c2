/** Properties of the ledger over many requests, under `ItemService`'s rules. A failed
    request leaves the item as it was, as every use case writes nothing on failure. */
module StockLedger {
  import opened Common
  import opened JsNumber
  import opened ItemModel
  import opened Ledger
  import opened ItemService

  datatype Request = BorrowRequest(amount: Amount) | ReturnRequest(amount: Amount)

  function Step(d: ItemData, req: Request): Result<ItemData> {
    match req
    case BorrowRequest(a) => Borrowing(d, a)
    case ReturnRequest(a) => Returning(d, a)
  }

  /** The item after the requests in order; a rejected request changes nothing. */
  function Replay(d: ItemData, reqs: seq<Request>): ItemData
    decreases |reqs|
  {
    if reqs == [] then d
    else
      var s := Step(d, reqs[0]);
      Replay(if s.Ok? then s.value else d, reqs[1..])
  }

  /** After any sequence of borrow and return requests both counters are still
      non-negative, the total is unchanged and no other field has moved. */
  lemma {:induction false} ReplayKeepsLedger(d: ItemData, reqs: seq<Request>)
    requires d.StockValid()
    ensures Replay(d, reqs).StockValid()
    ensures Replay(d, reqs).Total() == d.Total()
    ensures Replay(d, reqs).(quantity := d.quantity, borrowedQuantity := d.borrowedQuantity) == d
    decreases |reqs|
  {
    if reqs != [] {
      var s := Step(d, reqs[0]);
      var next := if s.Ok? then s.value else d;
      assert next.StockValid() && next.Total() == d.Total();
      assert next.(quantity := d.quantity, borrowedQuantity := d.borrowedQuantity) == d;
      ReplayKeepsLedger(next, reqs[1..]);
    }
  }

  /** A borrow followed by a return of the same amount restores both counters. */
  lemma ReturnUndoesBorrow(d: ItemData, n: int)
    requires d.StockValid() && Borrowing(d, Int(n)).Ok?
    ensures Returning(Borrowing(d, Int(n)).value, Int(n)) == Ok(d)
  {
    LendingAndRestockingAreInverse(d, n);
  }

  /** The cases of the unit tests: 10 in stock and none lent, borrowing 5 gives 5/5 and
      borrowing -15, 0 or 15 fails; with 5 lent, returning 3 gives 13/2 and returning -5, 0
      or 15 fails; 1.5, 0.5, -1.5, NaN and Infinity are never valid amounts. */
  lemma UnitTestExamples(d: ItemData)
    requires d.quantity == 10 && d.borrowedQuantity == 0
    ensures Borrowing(d, Int(5)).Ok? && Borrowing(d, Int(5)).value.quantity == 5
    ensures Borrowing(d, Int(5)).value.borrowedQuantity == 5
    ensures Borrowing(d, Int(-15)).Err? && Borrowing(d, Int(0)).Err?
    ensures Borrowing(d, Int(15)) == Err(Failure(BadRequest, "Insufficient quantity available"))
    ensures var lent := d.(borrowedQuantity := 5);
      Returning(lent, Int(3)).Ok? && Returning(lent, Int(3)).value.quantity == 13 &&
      Returning(lent, Int(3)).value.borrowedQuantity == 2 &&
      Returning(lent, Int(-5)).Err? && Returning(lent, Int(0)).Err? &&
      Returning(lent, Int(15)) == Err(Failure(BadRequest, "Return quantity exceeds borrowed quantity"))
    ensures Borrowing(d, Fraction).Err? && Borrowing(d, NaN).Err? && Returning(d, Infinity).Err?
  {
  }

  /** `n` borrow requests of the same amount, one after another: the final item and how
      many of them succeeded. */
  function BorrowRepeatedly(d: ItemData, a: Amount, n: nat): (ItemData, nat)
    decreases n
  {
    if n == 0 then (d, 0)
    else
      match Borrowing(d, a)
      case Ok(next) =>
        var (final, count) := BorrowRepeatedly(next, a, n - 1);
        (final, count + 1)
      case Err(_) => BorrowRepeatedly(d, a, n - 1)
  }

  /** Serialised borrows of `m` units each against a stock of `k`: the number `s` that
      succeed is the largest that fits, i.e. `m * s <= k` and either all `n` succeeded or
      fewer than `m` units are left (so `s` is `min(n, floor(k / m))`); the stock never goes
      negative and the lent units are exactly `m * s`. */
  lemma {:induction false} RepeatedBorrowsSucceedWhileStockLasts(d: ItemData, m: int, n: nat)
    requires m >= 1 && d.StockValid()
    ensures var (final, s) := BorrowRepeatedly(d, Int(m), n);
      s <= n && m * s <= d.quantity && (s == n || d.quantity - m * s < m)
      && final == Lent(d, m * s) && final.StockValid()
    decreases n
  {
    if n > 0 {
      if m <= d.quantity {
        var next := Lent(d, m);
        RepeatedBorrowsSucceedWhileStockLasts(next, m, n - 1);
        var (final, s) := BorrowRepeatedly(next, Int(m), n - 1);
        assert BorrowRepeatedly(d, Int(m), n) == (final, s + 1);
        assert m * (s + 1) == m * s + m;
      } else {
        RepeatedBorrowsSucceedWhileStockLasts(d, m, n - 1);
      }
    }
  }
}
