/** The use cases of the domain model (`src/application/item/use-cases`): each reads
    through the repository port, applies `ItemService`, and writes back. No write is
    issued on any failure path; on success exactly one is. */
module ItemUseCases {
  import opened Common
  import opened JsNumber
  import opened Names
  import opened ItemModel
  import opened ItemService
  import opened RepositoryPort

  /** `GetItemByIdUseCase.execute`: the stored item with that id, or NotFound. */
  method GetItemById(repo: ItemRepository, itemId: string) returns (r: Result<Item>)
    ensures var k := IndexOfId(repo.rows, itemId);
      if k < 0 then r == Err(Failure(NotFound, MissingItemMessage(itemId)))
      else r.Ok? && r.value.Data() == repo.rows[k]
  {
    var item := repo.FindById(itemId);
    var check := ValidateExistingItem(item, itemId);
    if check.Fail? {
      return Err(check.failure);
    }
    r := Ok(item);
  }

  /** `SearchItemUseCase.execute`: the arguments go to `search` unchanged (`sortBy`
      defaulting to "name"); an empty result is NotFound naming the query. */
  method SearchItems(repo: ItemRepository, query: string, sortBy: Option<string>, order: SortOrder)
    returns (r: Result<seq<Item>>)
    ensures var found := repo.search(repo.rows, query, sortBy.GetOr("name"), order);
      if found == [] then r == Err(Failure(NotFound, "No matching items found for query: " + query))
      else r.Ok? && |r.value| == |found| && forall i :: 0 <= i < |found| ==> r.value[i].Data() == found[i]
  {
    var items := repo.Search(query, sortBy.GetOr("name"), order);
    var check := ValidateSearchResults(items, query);
    if check.Fail? {
      return Err(check.failure);
    }
    r := Ok(items);
  }

  /** `UpdateItemUseCase.execute`: an absent id is NotFound with no write; otherwise one
      `update(itemId, patch)` is issued, with no borrow or return rule applied, and the
      item is read again after the write. */
  method UpdateItem(repo: ItemRepository, itemId: string, patch: Patch) returns (r: Result<Item?>)
    requires repo.Valid()
    modifies repo
    ensures repo.Valid()
    ensures var k := IndexOfId(old(repo.rows), itemId);
      if k < 0 then
        r == Err(Failure(NotFound, MissingItemMessage(itemId))) &&
        repo.issued == old(repo.issued) && repo.rows == old(repo.rows)
      else
        repo.issued == old(repo.issued) + [Updated(itemId, patch)] &&
        if UpdateWrite in repo.rejects then r == Err(Rejected) && repo.rows == old(repo.rows)
        else
          repo.rows == old(repo.rows)[k := Patched(old(repo.rows)[k], patch)] &&
          r.Ok? && r.value != null && r.value.Data() == Patched(old(repo.rows)[k], patch)
  {
    var item := repo.FindById(itemId);
    var check := ValidateExistingItem(item, itemId);
    if check.Fail? {
      return Err(check.failure);
    }
    ghost var k := IndexOfId(repo.rows, itemId);
    var written := repo.Update(itemId, patch);
    if written.Fail? {
      return Err(written.failure);
    }
    IndexOfOwnId(repo.rows, k);
    var reread := repo.FindById(itemId);
    r := Ok(reread);
  }

  /** `BorrowItemUseCase.execute`: find, check existence, borrow in place, write the whole
      item back once and return it. Any failure before the write issues no write. */
  method BorrowItem(repo: ItemRepository, itemId: string, quantity: Amount) returns (r: Result<Item>)
    requires repo.Valid()
    modifies repo
    ensures repo.Valid()
    ensures var k := IndexOfId(old(repo.rows), itemId);
      if k < 0 then
        r == Err(Failure(NotFound, MissingItemMessage(itemId))) &&
        repo.issued == old(repo.issued) && repo.rows == old(repo.rows)
      else match Borrowing(old(repo.rows)[k], quantity)
        case Err(f) => r == Err(f) && repo.issued == old(repo.issued) && repo.rows == old(repo.rows)
        case Ok(d) =>
          repo.issued == old(repo.issued) + [Updated(itemId, FullPatch(d))] &&
          if UpdateWrite in repo.rejects then r == Err(Rejected) && repo.rows == old(repo.rows)
          else r.Ok? && r.value.Data() == d && repo.rows == old(repo.rows)[k := d]
  {
    var item := repo.FindById(itemId);
    var check := ValidateExistingItem(item, itemId);
    if check.Fail? {
      return Err(check.failure);
    }
    ghost var row := item.Data();
    var borrowed := ValidateAndBorrowItem(item, quantity);
    if borrowed.Err? {
      return Err(borrowed.failure);
    }
    FullPatchStoresItem(row, item.Data());
    var written := repo.Update(itemId, FullPatch(item.Data()));
    if written.Fail? {
      return Err(written.failure);
    }
    r := Ok(item);
  }

  /** `ReturnItemUseCase.execute`: find, check existence, return in place, write the whole
      item back once and return it. Any failure before the write issues no write. */
  method ReturnItem(repo: ItemRepository, itemId: string, quantity: Amount) returns (r: Result<Item>)
    requires repo.Valid()
    modifies repo
    ensures repo.Valid()
    ensures var k := IndexOfId(old(repo.rows), itemId);
      if k < 0 then
        r == Err(Failure(NotFound, MissingItemMessage(itemId))) &&
        repo.issued == old(repo.issued) && repo.rows == old(repo.rows)
      else match Returning(old(repo.rows)[k], quantity)
        case Err(f) => r == Err(f) && repo.issued == old(repo.issued) && repo.rows == old(repo.rows)
        case Ok(d) =>
          repo.issued == old(repo.issued) + [Updated(itemId, FullPatch(d))] &&
          if UpdateWrite in repo.rejects then r == Err(Rejected) && repo.rows == old(repo.rows)
          else r.Ok? && r.value.Data() == d && repo.rows == old(repo.rows)[k := d]
  {
    var item := repo.FindById(itemId);
    var check := ValidateExistingItem(item, itemId);
    if check.Fail? {
      return Err(check.failure);
    }
    ghost var row := item.Data();
    var returned := ValidateAndReturnItem(item, quantity);
    if returned.Err? {
      return Err(returned.failure);
    }
    FullPatchStoresItem(row, item.Data());
    var written := repo.Update(itemId, FullPatch(item.Data()));
    if written.Fail? {
      return Err(written.failure);
    }
    r := Ok(item);
  }

  function DeletedMessage(itemId: string): string {
    "Item with ID " + itemId + " has been deleted successfully."
  }

  /** `DeleteItemUseCase.execute`: an absent id is NotFound and `delete` is never called;
      otherwise exactly one `delete(itemId)` removes that row and no other. */
  method DeleteItem(repo: ItemRepository, itemId: string) returns (r: Result<string>)
    requires repo.Valid()
    modifies repo
    ensures repo.Valid()
    ensures var k := IndexOfId(old(repo.rows), itemId);
      if k < 0 then
        r == Err(Failure(NotFound, MissingItemMessage(itemId))) &&
        repo.issued == old(repo.issued) && repo.rows == old(repo.rows)
      else
        repo.issued == old(repo.issued) + [Deleted(itemId)] &&
        if DeleteWrite in repo.rejects then r == Err(Rejected) && repo.rows == old(repo.rows)
        else r == Ok(DeletedMessage(itemId)) && repo.rows == old(repo.rows)[..k] + old(repo.rows)[k + 1..]
  {
    var item := repo.FindById(itemId);
    var check := ValidateExistingItem(item, itemId);
    if check.Fail? {
      return Err(check.failure);
    }
    var deleted := repo.Delete(itemId);
    if deleted.Fail? {
      return Err(deleted.failure);
    }
    r := Ok(DeletedMessage(itemId));
  }

  /** `CreateItemUseCase.execute`: reads every item first; when one has the same name
      ignoring case (the first in table order), its quantity plus the requested one is
      written through the update use case and that result returned, with no create;
      otherwise exactly one `create(dto)` is issued, with no update. */
  method CreateItem(repo: ItemRepository, dto: CreateItemDto) returns (r: Result<Item?>)
    requires repo.Valid()
    modifies repo
    ensures repo.Valid()
    ensures var k := FirstMatch(RowNames(old(repo.rows)), dto.name);
      if k >= 0 then
        var target := old(repo.rows)[k];
        var merged := Patched(target, QuantityPatch(target.quantity + dto.quantity));
        repo.issued == old(repo.issued) + [Updated(target.itemId, QuantityPatch(target.quantity + dto.quantity))] &&
        if UpdateWrite in repo.rejects then r == Err(Rejected) && repo.rows == old(repo.rows)
        else r.Ok? && r.value != null && r.value.Data() == merged && repo.rows == old(repo.rows)[k := merged]
      else
        var created := NewRow(old(repo.rows), dto, repo.now);
        repo.issued == old(repo.issued) + [Created(dto)] &&
        if CreateWrite in repo.rejects then r == Err(Rejected) && repo.rows == old(repo.rows)
        else r.Ok? && r.value != null && r.value.Data() == created && repo.rows == old(repo.rows) + [created]
  {
    var existingItems := repo.FindAll();
    assert NamesOf(existingItems) == RowNames(repo.rows);
    var updatedItem := ValidateUniqueItem(dto.name, dto.quantity, existingItems);
    if updatedItem != null {
      ghost var k := FirstMatch(RowNames(repo.rows), dto.name);
      IndexOfOwnId(repo.rows, k);
      var updateItemDto := QuantityPatch(updatedItem.quantity);
      r := UpdateItem(repo, updatedItem.itemId, updateItemDto);
      return;
    }
    var created := repo.Create(dto);
    if created.Err? {
      return Err(created.failure);
    }
    r := Ok(created.value);
  }
}
