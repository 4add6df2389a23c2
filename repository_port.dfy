/** The repository port the use cases of the domain model depend on (`findAll`,
    `findById`, `create`, `update`, `delete`, `search`), given a storage-independent
    meaning: a table of rows with unique ids. Reads hand out fresh `Item` objects, as an
    ORM does; every write the store is asked to do is recorded in `issued`, and a write
    whose kind is in `rejects` fails without changing any row. `search` is left
    uninterpreted: it is whatever function of the current rows and the arguments the
    store was built with. */
module RepositoryPort {
  import opened Common
  import opened ItemModel

  datatype SortOrder = Asc | Desc

  /** What a client sends to `create`; the store assigns the id and the timestamps, and
      `borrowedQuantity` is 0 unless supplied. */
  datatype CreateItemDto = CreateItemDto(name: string, description: string, quantity: int,
                                         borrowedQuantity: Option<int>)

  /** A partial update: only the supplied fields change. */
  datatype Patch = Patch(name: Option<string>, description: Option<string>,
                         quantity: Option<int>, borrowedQuantity: Option<int>)

  datatype Write = Created(dto: CreateItemDto) | Updated(itemId: string, patch: Patch) | Deleted(itemId: string)

  datatype WriteKind = CreateWrite | UpdateWrite | DeleteWrite

  const Rejected := Failure(Storage, "write rejected by the store")

  function Patched(d: ItemData, p: Patch): (r: ItemData)
    ensures r.itemId == d.itemId && r.createdAt == d.createdAt && r.updatedAt == d.updatedAt
  {
    d.(name := p.name.GetOr(d.name), description := p.description.GetOr(d.description),
       quantity := p.quantity.GetOr(d.quantity), borrowedQuantity := p.borrowedQuantity.GetOr(d.borrowedQuantity))
  }

  /** The patch that writes only `quantity`. */
  function QuantityPatch(quantity: int): Patch {
    Patch(None, None, Some(quantity), None)
  }

  /** The patch an item object makes when it is passed whole to `update`. */
  function FullPatch(d: ItemData): Patch {
    Patch(Some(d.name), Some(d.description), Some(d.quantity), Some(d.borrowedQuantity))
  }

  /** Writing a whole item back over the row it was read from stores exactly that item. */
  lemma FullPatchStoresItem(row: ItemData, d: ItemData)
    requires d.itemId == row.itemId && d.createdAt == row.createdAt && d.updatedAt == row.updatedAt
    ensures Patched(row, FullPatch(d)) == d
  {
  }

  predicate DistinctIds(rows: seq<ItemData>) {
    forall i, j :: 0 <= i < j < |rows| ==> rows[i].itemId != rows[j].itemId
  }

  function IndexOfId(rows: seq<ItemData>, itemId: string): (r: int)
    ensures -1 <= r < |rows|
    ensures r >= 0 ==> rows[r].itemId == itemId
    ensures r < 0 ==> forall j :: 0 <= j < |rows| ==> rows[j].itemId != itemId
  {
    FindIndex(rows, (d: ItemData) => d.itemId == itemId)
  }

  /** With unique ids, a row's id finds that row. */
  lemma IndexOfOwnId(rows: seq<ItemData>, k: int)
    requires DistinctIds(rows) && 0 <= k < |rows|
    ensures IndexOfId(rows, rows[k].itemId) == k
  {
  }

  function RowNames(rows: seq<ItemData>): (r: seq<string>)
    ensures |r| == |rows| && forall i :: 0 <= i < |rows| ==> r[i] == rows[i].name
  {
    seq(|rows|, i requires 0 <= i < |rows| => rows[i].name)
  }

  /** The length of the longest id in use. */
  function LongestId(rows: seq<ItemData>): (r: nat)
    ensures forall i :: 0 <= i < |rows| ==> |rows[i].itemId| <= r
  {
    if rows == [] then 0
    else
      var rest := LongestId(rows[1..]);
      if |rows[0].itemId| > rest then |rows[0].itemId| else rest
  }

  /** An id no row uses (the store's stand-in for a generated uuid). */
  function FreshId(rows: seq<ItemData>): (r: string)
    ensures forall i :: 0 <= i < |rows| ==> rows[i].itemId != r
  {
    seq(LongestId(rows) + 1, _ => '#')
  }

  function NewRow(rows: seq<ItemData>, dto: CreateItemDto, now: Timestamp): ItemData {
    ItemData(FreshId(rows), dto.name, dto.description, dto.quantity, dto.borrowedQuantity.GetOr(0), now, now)
  }

  /** The rows after `update(itemId, p)`: the row with that id is patched; no row, no change. */
  function UpdatedRows(rows: seq<ItemData>, itemId: string, p: Patch): seq<ItemData> {
    var k := IndexOfId(rows, itemId);
    if k < 0 then rows else rows[k := Patched(rows[k], p)]
  }

  /** The rows after `delete(itemId)`: the row with that id is removed; no row, no change. */
  function DeletedRows(rows: seq<ItemData>, itemId: string): seq<ItemData> {
    var k := IndexOfId(rows, itemId);
    if k < 0 then rows else rows[..k] + rows[k + 1..]
  }

  /** Each write keeps the ids unique. */
  lemma CreateKeepsIdsDistinct(rows: seq<ItemData>, dto: CreateItemDto, now: Timestamp)
    requires DistinctIds(rows)
    ensures DistinctIds(rows + [NewRow(rows, dto, now)])
  {
  }

  lemma UpdateKeepsIdsDistinct(rows: seq<ItemData>, itemId: string, p: Patch)
    requires DistinctIds(rows)
    ensures DistinctIds(UpdatedRows(rows, itemId, p))
  {
  }

  lemma {:induction false} DeleteKeepsIdsDistinct(rows: seq<ItemData>, itemId: string)
    requires DistinctIds(rows)
    ensures DistinctIds(DeletedRows(rows, itemId))
  {
    var k := IndexOfId(rows, itemId);
    if k >= 0 {
      var del := rows[..k] + rows[k + 1..];
      forall i, j | 0 <= i < j < |del| ensures del[i].itemId != del[j].itemId {
        var i' := if i < k then i else i + 1;
        var j' := if j < k then j else j + 1;
        assert del[i] == rows[i'] && del[j] == rows[j'];
      }
    }
  }

  /** Fresh item objects holding the given rows, one per row, in order. */
  method Materialize(rows: seq<ItemData>) returns (items: seq<Item>)
    ensures |items| == |rows|
    ensures forall i :: 0 <= i < |rows| ==> fresh(items[i]) && items[i].Data() == rows[i]
  {
    items := [];
    for i := 0 to |rows|
      invariant |items| == i
      invariant forall j :: 0 <= j < i ==> fresh(items[j]) && items[j].Data() == rows[j]
    {
      var d := rows[i];
      var item := new Item(d.itemId, d.name, d.description, d.quantity, d.borrowedQuantity,
                           d.createdAt, d.updatedAt);
      items := items + [item];
    }
  }

  class ItemRepository {
    var rows: seq<ItemData>
    var issued: seq<Write>
    const rejects: set<WriteKind>
    const search: (seq<ItemData>, string, string, SortOrder) -> seq<ItemData>
    const now: Timestamp

    ghost predicate Valid()
      reads this
    {
      DistinctIds(rows)
    }

    constructor (rows: seq<ItemData>, rejects: set<WriteKind>,
                 search: (seq<ItemData>, string, string, SortOrder) -> seq<ItemData>, now: Timestamp)
      requires DistinctIds(rows)
      ensures Valid() && this.rows == rows && issued == []
      ensures this.rejects == rejects && this.search == search && this.now == now
    {
      this.rows := rows;
      this.issued := [];
      this.rejects := rejects;
      this.search := search;
      this.now := now;
    }

    /** `findAll`: every row, in table order, as fresh objects. */
    method FindAll() returns (items: seq<Item>)
      ensures |items| == |rows|
      ensures forall i :: 0 <= i < |rows| ==> fresh(items[i]) && items[i].Data() == rows[i]
    {
      items := Materialize(rows);
    }

    /** `findById`: the row with that id as a fresh object, or null. */
    method FindById(itemId: string) returns (item: Item?)
      ensures var k := IndexOfId(rows, itemId);
        if k < 0 then item == null else item != null && fresh(item) && item.Data() == rows[k]
    {
      var k := IndexOfId(rows, itemId);
      if k < 0 {
        return null;
      }
      var d := rows[k];
      item := new Item(d.itemId, d.name, d.description, d.quantity, d.borrowedQuantity,
                       d.createdAt, d.updatedAt);
    }

    /** `search`: whatever the store's search yields over the current rows for these
        arguments, as fresh objects. */
    method Search(query: string, sortBy: string, order: SortOrder) returns (items: seq<Item>)
      ensures |items| == |search(rows, query, sortBy, order)|
      ensures forall i :: 0 <= i < |items| ==> fresh(items[i]) && items[i].Data() == search(rows, query, sortBy, order)[i]
    {
      items := Materialize(search(rows, query, sortBy, order));
    }

    /** `create`: appends a row with a new id, or is rejected and changes nothing. */
    method Create(dto: CreateItemDto) returns (r: Result<Item>)
      requires Valid()
      modifies this
      ensures Valid() && issued == old(issued) + [Created(dto)]
      ensures CreateWrite in rejects ==> r == Err(Rejected) && rows == old(rows)
      ensures CreateWrite !in rejects ==>
        rows == old(rows) + [NewRow(old(rows), dto, now)] &&
        r.Ok? && fresh(r.value) && r.value.Data() == NewRow(old(rows), dto, now)
    {
      issued := issued + [Created(dto)];
      if CreateWrite in rejects {
        return Err(Rejected);
      }
      var d := NewRow(rows, dto, now);
      CreateKeepsIdsDistinct(rows, dto, now);
      rows := rows + [d];
      var item := new Item(d.itemId, d.name, d.description, d.quantity, d.borrowedQuantity,
                           d.createdAt, d.updatedAt);
      r := Ok(item);
    }

    /** `update`: patches the row with that id, or is rejected and changes nothing. */
    method Update(itemId: string, p: Patch) returns (r: Outcome)
      requires Valid()
      modifies this
      ensures Valid() && issued == old(issued) + [Updated(itemId, p)]
      ensures UpdateWrite in rejects ==> r == Fail(Rejected) && rows == old(rows)
      ensures UpdateWrite !in rejects ==> r == Pass && rows == UpdatedRows(old(rows), itemId, p)
    {
      issued := issued + [Updated(itemId, p)];
      if UpdateWrite in rejects {
        return Fail(Rejected);
      }
      UpdateKeepsIdsDistinct(rows, itemId, p);
      rows := UpdatedRows(rows, itemId, p);
      r := Pass;
    }

    /** `delete`: removes the row with that id, or is rejected and changes nothing. */
    method Delete(itemId: string) returns (r: Outcome)
      requires Valid()
      modifies this
      ensures Valid() && issued == old(issued) + [Deleted(itemId)]
      ensures DeleteWrite in rejects ==> r == Fail(Rejected) && rows == old(rows)
      ensures DeleteWrite !in rejects ==> r == Pass && rows == DeletedRows(old(rows), itemId)
    {
      issued := issued + [Deleted(itemId)];
      if DeleteWrite in rejects {
        return Fail(Rejected);
      }
      DeleteKeepsIdsDistinct(rows, itemId);
      rows := DeletedRows(rows, itemId);
      r := Pass;
    }
  }
}
