/** The two ledger moves shared by both rule engines: lending `n` units out of stock and
    taking `n` units back in. Neither is guarded here; the guards live in the engines. */
module Ledger {
  import opened ItemModel

  /** `n` units move from `quantity` to `borrowedQuantity`; nothing else changes. */
  function Lent(d: ItemData, n: int): (r: ItemData)
    ensures r.Total() == d.Total()
    ensures r.quantity == d.quantity - n && r.borrowedQuantity == d.borrowedQuantity + n
    ensures r.(quantity := d.quantity, borrowedQuantity := d.borrowedQuantity) == d
  {
    d.(quantity := d.quantity - n, borrowedQuantity := d.borrowedQuantity + n)
  }

  /** `n` units move from `borrowedQuantity` back to `quantity`; nothing else changes. */
  function Restocked(d: ItemData, n: int): (r: ItemData)
    ensures r.Total() == d.Total()
    ensures r.quantity == d.quantity + n && r.borrowedQuantity == d.borrowedQuantity - n
    ensures r.(quantity := d.quantity, borrowedQuantity := d.borrowedQuantity) == d
  {
    d.(quantity := d.quantity + n, borrowedQuantity := d.borrowedQuantity - n)
  }

  /** Returning what was lent restores the item, and the other way round. */
  lemma LendingAndRestockingAreInverse(d: ItemData, n: int)
    ensures Restocked(Lent(d, n), n) == d
    ensures Lent(Restocked(d, n), n) == d
  {
  }
}
