/** The in-memory list store (`src/infrastructure/repositories/item.repository.ts`): a
    list of entity objects, pushed to, assigned at an index and spliced, each position
    found with `findIndex` on the id. */
module InMemoryRepository {
  import opened ItemEntity

  /** `s.splice(start, 1)` on what remains: a negative start counts from the end (and is
      clamped at 0); a start at or past the end removes nothing. */
  function SpliceOne<T>(s: seq<T>, start: int): (r: seq<T>)
    ensures -|s| <= start < |s| ==> |r| == |s| - 1
    ensures 0 <= start < |s| ==> r == s[..start] + s[start + 1..]
    ensures start == -1 && |s| > 0 ==> r == s[..|s| - 1]
    ensures start >= |s| || s == [] ==> r == s
  {
    var from := if start < 0 then (if |s| + start < 0 then 0 else |s| + start)
                else (if start > |s| then |s| else start);
    if from < |s| then s[..from] + s[from + 1..] else s
  }

  class ItemRepository {
    var items: seq<Item>

    /** `[...initialItems]`: a new list holding the very same objects. */
    constructor (initialItems: seq<Item>)
      ensures items == initialItems
    {
      items := initialItems;
    }

    ghost function View(): seq<ItemRecord>
      reads this, items
    {
      Records(items)
    }

    /** `create`: appends the object at the end and returns it. */
    method Create(item: Item) returns (r: Item)
      modifies this
      ensures items == old(items) + [item] && r == item
      ensures View() == old(View()) + [item.Record()]
    {
      items := items + [item];
      r := item;
    }

    /** `getAll`: the list itself, in insertion order. */
    method GetAll() returns (r: seq<Item>)
      ensures r == items
    {
      r := items;
    }

    /** `getById`: the first object with that id, or none. */
    method GetById(id: string) returns (r: Item?)
      ensures var k := IndexOfId(items, id); r == if k < 0 then null else items[k]
      ensures r != null ==> r.id == id && r in items
      ensures r == null ==> forall x :: x in items ==> x.id != id
    {
      var k := IndexOfId(items, id);
      r := if k < 0 then null else items[k];
    }

    /** `update`: the object replaces the first one with the same id and is returned; with
        no such object the assignment lands at index -1, which is not an element, so the
        list is unchanged. */
    method Update(updatedItem: Item) returns (r: Item)
      modifies this
      ensures r == updatedItem
      ensures var k := IndexOfId(old(items), updatedItem.id);
        if k < 0 then items == old(items) else items == old(items)[k := updatedItem]
    {
      var index := IndexOfId(items, updatedItem.id);
      if index >= 0 {
        items := items[index := updatedItem];
      }
      r := updatedItem;
    }

    /** `delete`: `splice(findIndex(...), 1)`. With no such id the index is -1, and the
        splice removes the last element. */
    method Delete(id: string)
      modifies this
      ensures items == SpliceOne(old(items), IndexOfId(old(items), id))
    {
      var index := IndexOfId(items, id);
      items := SpliceOne(items, index);
    }
  }

  /** Deleting an id that is present removes exactly that object and keeps the rest in order. */
  lemma DeletePresentRemovesIt(items: seq<Item>, id: string)
    requires IndexOfId(items, id) >= 0
    ensures var k := IndexOfId(items, id);
      SpliceOne(items, k) == items[..k] + items[k + 1..] && |SpliceOne(items, k)| == |items| - 1
  {
  }

  /** Deleting an id that is absent from a non-empty list removes its last element: the
      callers must check first. */
  lemma DeleteMissingRemovesLast(items: seq<Item>, id: string)
    requires IndexOfId(items, id) < 0 && items != []
    ensures SpliceOne(items, IndexOfId(items, id)) == items[..|items| - 1]
  {
  }
}
