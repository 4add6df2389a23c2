/** The use cases of `src/application/items/use-cases`: create, update, delete and get on
    the in-memory list store, and the return use case built on `ItemBusinessRules`. */
module ItemsUseCases {
  import opened Common
  import opened ItemEntity
  import opened InMemoryRepository
  import ItemModel
  import opened Ledger
  import ItemBusinessRules
  import RepositoryPort
  import ItemService

  datatype CreateItemDto = CreateItemDto(name: string, description: Option<string>, status: Status)

  datatype UpdateItemDto = UpdateItemDto(name: Option<string>, description: Option<string>, status: Option<Status>)

  /** A JavaScript truthiness test on an optional string: absent and "" are false. */
  predicate Truthy(s: Option<string>) {
    s.Some? && s.value != ""
  }

  /** The record after the update use case: each of name, description and status is taken
      from the request only when the request's value is truthy, and `updatedAt` becomes
      `now`; the id and `createdAt` never change. */
  function PatchedRecord(rec: ItemRecord, dto: UpdateItemDto, now: Timestamp): (r: ItemRecord)
    ensures r.id == rec.id && r.createdAt == rec.createdAt && r.updatedAt == now
    ensures r.name == (if Truthy(dto.name) then dto.name.value else rec.name)
    ensures r.description == (if Truthy(dto.description) then dto.description else rec.description)
    ensures r.status == (if dto.status.Some? then dto.status.value else rec.status)
  {
    rec.(name := if Truthy(dto.name) then dto.name.value else rec.name,
         description := if Truthy(dto.description) then dto.description else rec.description,
         status := if dto.status.Some? then dto.status.value else rec.status,
         updatedAt := now)
  }

  /** `CreateItemUseCase.execute`: a new object from the generated id, the request's
      fields and the clock, appended to the store and returned. There is no check on the
      name, so an existing name gets a second record. */
  method CreateItem(repo: ItemRepository, dto: CreateItemDto, newId: string, now: Timestamp) returns (r: Item)
    modifies repo
    ensures fresh(r) && r.Record() == ItemRecord(newId, dto.name, dto.description, dto.status, now, now)
    ensures repo.items == old(repo.items) + [r]
    ensures repo.View() == old(repo.View()) + [r.Record()]
  {
    var newItem := new Item(newId, dto.name, dto.description, dto.status, now, now);
    r := repo.Create(newItem);
  }

  /** `GetItemByIdUseCase.execute`: the first stored object with that id, or NotFound. */
  method GetItemById(repo: ItemRepository, id: string) returns (r: Result<Item>)
    ensures var k := IndexOfId(repo.items, id);
      if k < 0 then r == Err(Failure(NotFound, ItemService.MissingItemMessage(id))) else r == Ok(repo.items[k])
    ensures r.Ok? ==> r.value.id == id
  {
    var item := repo.GetById(id);
    if item == null {
      return Err(Failure(NotFound, ItemService.MissingItemMessage(id)));
    }
    r := Ok(item);
  }

  /** Two lookups with no write in between give the same answer. */
  method GetItemByIdTwice(repo: ItemRepository, id: string) returns (first: Result<Item>, second: Result<Item>)
    ensures first == second
  {
    first := GetItemById(repo, id);
    second := GetItemById(repo, id);
  }

  /** `DeleteItemUseCase.execute`: an absent id is NotFound and nothing is removed (so the
      store's remove-the-last-element path is never reached from here); otherwise the first
      object with that id goes and the others keep their order. */
  method DeleteItem(repo: ItemRepository, id: string) returns (r: Result<string>)
    modifies repo
    ensures var k := IndexOfId(old(repo.items), id);
      if k < 0 then r == Err(Failure(NotFound, ItemService.MissingItemMessage(id))) && repo.items == old(repo.items)
      else (r == Ok("Delete successful") && repo.items == old(repo.items)[..k] + old(repo.items)[k + 1..]
            && |repo.items| == |old(repo.items)| - 1)
  {
    var item := repo.GetById(id);
    if item == null {
      return Err(Failure(NotFound, ItemService.MissingItemMessage(id)));
    }
    repo.Delete(id);
    r := Ok("Delete successful");
  }

  /** The assignments of the update use case on the stored object. */
  method AssignFields(item: Item, dto: UpdateItemDto, now: Timestamp)
    modifies item
    ensures item.Record() == PatchedRecord(old(item.Record()), dto, now)
  {
    if Truthy(dto.name) {
      item.name := dto.name.value;
    }
    if Truthy(dto.description) {
      item.description := dto.description;
    }
    if dto.status.Some? {
      item.status := dto.status.value;
    }
    item.updatedAt := now;
  }

  /** `UpdateItemUseCase.execute`: an absent id is NotFound and the store is unchanged;
      otherwise the stored object itself is patched and written back at its own position.
      The list keeps its length and objects; every other object is untouched (a position
      holding the same object shows the same patch). */
  method UpdateItem(repo: ItemRepository, id: string, dto: UpdateItemDto, now: Timestamp) returns (r: Result<Item>)
    modifies repo, repo.items
    ensures repo.items == old(repo.items)
    ensures var k := IndexOfId(old(repo.items), id);
      if k < 0 then r == Err(Failure(NotFound, ItemService.MissingItemMessage(id))) && repo.View() == old(repo.View())
      else
        var target := old(repo.items)[k];
        r == Ok(target) && target.Record() == PatchedRecord(old(target.Record()), dto, now) &&
        forall j :: 0 <= j < |repo.items| && repo.items[j] != target ==>
          repo.items[j].Record() == old(repo.items[j].Record())
  {
    var item := repo.GetById(id);
    if item == null {
      return Err(Failure(NotFound, ItemService.MissingItemMessage(id)));
    }
    ghost var k := IndexOfId(repo.items, id);
    AssignFields(item, dto, now);
    assert IdsOf(repo.items) == old(IdsOf(repo.items));
    var updated := repo.Update(item);
    r := Ok(updated);
  }

  /** `ReturnItemUseCase.execute` (the `ItemBusinessRules` variant, over the repository
      port): an absent id is NotFound, thrown outside the try block and so not converted;
      then validate, execute in place and write, where any failure, the rule's or the
      store's, is re-raised as BadRequest with the same message. No write happens unless
      validation passed; then exactly one. */
  method ReturnItem(repo: RepositoryPort.ItemRepository, id: string, quantity: int)
    returns (r: Result<ItemModel.Item>)
    requires repo.Valid()
    modifies repo
    ensures repo.Valid()
    ensures var k := RepositoryPort.IndexOfId(old(repo.rows), id);
      if k < 0 then
        r == Err(Failure(NotFound, "Item with id " + id + " not found")) &&
        repo.issued == old(repo.issued) && repo.rows == old(repo.rows)
      else
        var row := old(repo.rows)[k];
        if quantity < 1 then
          r == Err(Failure(BadRequest, "Return quantity not be less than 1")) &&
          repo.issued == old(repo.issued) && repo.rows == old(repo.rows)
        else if row.borrowedQuantity < quantity then
          r == Err(Failure(BadRequest, "Invalid return quantity")) &&
          repo.issued == old(repo.issued) && repo.rows == old(repo.rows)
        else
          var d := Restocked(row, quantity);
          repo.issued == old(repo.issued) + [RepositoryPort.Updated(id, RepositoryPort.FullPatch(d))] &&
          if RepositoryPort.UpdateWrite in repo.rejects then
            r == Err(Failure(BadRequest, RepositoryPort.Rejected.message)) && repo.rows == old(repo.rows)
          else r.Ok? && r.value.Data() == d && repo.rows == old(repo.rows)[k := d]
  {
    var item := repo.FindById(id);
    if item == null {
      return Err(Failure(NotFound, "Item with id " + id + " not found"));
    }
    var check := ItemBusinessRules.ValidateReturnItem(item, quantity);
    if check.Fail? {
      return Err(Failure(BadRequest, check.failure.message));
    }
    ghost var row := item.Data();
    var updatedItem := ItemBusinessRules.ExecuteReturnItem(item, quantity);
    RepositoryPort.FullPatchStoresItem(row, updatedItem.Data());
    var written := repo.Update(id, RepositoryPort.FullPatch(updatedItem.Data()));
    if written.Fail? {
      return Err(Failure(BadRequest, written.failure.message));
    }
    r := Ok(updatedItem);
  }
}
