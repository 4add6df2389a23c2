# Inventory stock ledger — a Dafny model

This project models the core of an inventory management service for borrowing and returning items. Each item carries two counters:

- `quantity` — the units on the shelf;
- `borrowedQuantity` — the units out on loan.

Borrowing `n` moves `n` units from the shelf to the loan counter, and returning does the reverse. An amount must be a positive integer. No counter may go below zero. Creating an item whose name matches an existing item's name, ignoring ASCII case, adds the new quantity to the existing item instead of creating a second one.

The model follows the code's layers:

| module | file | what it holds |
|---|---|---|
| `Common` | `common.dfy` | `Option`, `Result`, `Outcome`, the failure kinds, and `FindIndex` (the `Array.prototype.findIndex` / `find` search) |
| `JsNumber` | `js_number.dfy` | the JavaScript numbers a request can carry: an integer, a fraction, `NaN` or `Infinity` |
| `Names` | `names.dfy` | ASCII lower-casing and the first case-insensitive name match |
| `ItemModel` | `item_model.dfy` | the quantity item (`src/domain/item/model/item.model.ts`) as a class, plus its value snapshot `ItemData` |
| `Ledger` | `ledger.dfy` | the two counter moves, lending and restocking |
| `ItemService` | `item_service.dfy` | the static validators and the borrow/return operations of `ItemService` |
| `ItemBusinessRules` | `item_business_rules.dfy` | the older rule set, with its own messages and its split between validate and execute |
| `StockLedger` | `stock_ledger.dfy` | sequences of requests and what they preserve |
| `RepositoryPort` | `repository_port.dfy` | the abstract `ItemRepository`, as a table of rows with distinct ids, a log of issued writes and a set of write kinds the store rejects |
| `ItemUseCases` | `item_use_cases.dfy` | the use cases under `src/application/item` |
| `ItemEntity` | `item_entity.dfy` | the status-carrying entity (`src/domain/entities/item.entity.ts`) and the five seed items |
| `InMemoryRepository` | `in_memory_repository.dfy` | the list-backed store (`src/infrastructure/repositories/item.repository.ts`) |
| `ItemsUseCases` | `items_use_cases.dfy` | the use cases under `src/application/items` |

## How the model represents the source

**Exceptions.** A thrown exception becomes an `Err` or `Fail` value carrying a `Failure(kind, message)`. The kinds are:

- `BadRequest` and `NotFound` for `BadRequestError`/`BadRequestException` and `NotFoundError`/`NotFoundException`;
- `Plain` for a bare `Error`;
- `Storage` for a write the store refuses.

The messages are the source's own strings.

**Mutation.** Objects the source mutates in place are Dafny classes. This covers both `Item` classes and the in-memory store's list. The methods that mutate them state their new state in terms of the functions of `Ledger` and `ItemService`. What those functions preserve is then proved as lemmas.

**The repository port.** The port's persistence is abstract. The model is a table of rows with distinct ids plus a log of the writes issued. A write of a kind listed in `rejects` fails and changes nothing, which models a database error.

**Where the code and its documentation disagree, the model follows the code:**

- Borrow and return never touch `updatedAt`.
- Every quantity failure in `ItemService` is a `BadRequest`. There are no separate kinds for insufficient stock.
- The application/item delete use case calls `ItemBusinessRules.validateExistingItem` from `src/domain/item/business-rules/item.business-rules.ts`. That file is not part of this model. Its check is taken to be `ItemService.validateExistingItem`, which has the same name and signature.
- The in-memory store behaves as follows when the id is not present:
  - `update` leaves the list's elements as they are, because `items[-1] = x` only sets a property.
  - `delete` removes the last element, because `splice(-1, 1)` counts from the end (`InMemoryRepository.DeleteMissingRemovesLast`). The only use case that reaches this store's `delete`, `src/application/items/use-cases/delete-item.use-case.ts`, checks the id first, so this branch is not reached through it. The application/item delete use case goes through the repository port, where deleting a missing id removes nothing.

## Model

| member | source | states |
|---|---|---|
| Common.FindIndex | src/infrastructure/repositories/item.repository.ts:23-29 | the index of the first element satisfying the predicate, or -1 exactly when none does |
| Names.LowerChar | src/domain/item/service/item.service.ts:74 | an upper-case ASCII letter becomes its lower-case partner (code point + 32, so distinct letters stay distinct), lower-case letters and non-letters are kept, and the result is never upper-case |
| Names.Lower | src/domain/item/service/item.service.ts:74 | lower-casing keeps the length and folds each character on its own |
| Names.LowerIdempotent | src/domain/item/service/item.service.ts:73-75 | folding a folded name changes nothing, so a folded name is its own merge key |
| Names.SameAsFolded | src/domain/item/service/item.service.ts:73-75 | every name matches its own lower-cased form |
| Names.FirstMatch | src/domain/item/service/item.service.ts:73-75 | the first name equal to the given one ignoring case, and no earlier name matches; -1 exactly when no name matches |
| Names.NameMatchExamples | src/domain/item/service/item.service.spec.ts:71-84 | "Item A" is found for "Item A" and for "item a"; "Item B" is not found |
| ItemModel.Item.constructor | src/domain/item/model/item.model.ts:15-32 | every field holds the argument given for it, and `borrowedQuantity` defaults to 0 |
| ItemModel.NewItemDefaultsToNothingBorrowed | src/domain/item/model/item.model.ts:20 | an item built without a borrowed count has nothing on loan and holds the other arguments |
| Ledger.Lent | src/domain/item/service/item.service.ts:97-98 | lending `n` moves `n` units from the shelf to the loan counter, keeps the total, and changes no other field |
| Ledger.Restocked | src/domain/item/service/item.service.ts:116-117 | restocking `n` moves `n` units back, keeps the total, and changes no other field |
| Ledger.LendingAndRestockingAreInverse | src/domain/item/service/item.service.ts:90-119 | restocking what was lent, or lending what was restocked, gives back the original item |
| ItemService.UpdateQuantity | src/domain/item/service/item.service.ts:16-18 | the shelf counter grows by the signed amount, and nothing else in the item changes |
| ItemService.UpdateBorrowedQuantity | src/domain/item/service/item.service.ts:25-27 | the loan counter grows by the signed amount, and nothing else in the item changes |
| ItemService.ValidatePositiveQuantity | src/domain/item/service/item.service.ts:35-39 | passes exactly for integers of at least 1; NaN, fractions, infinities, zero and negatives fail with BadRequest "`<operation>` quantity must be a valid positive number" |
| ItemService.ValidateSearchResults | src/domain/item/service/item.service.ts:47-51 | passes exactly when the result list is non-empty; otherwise NotFound naming the query |
| ItemService.ValidateExistingItem | src/domain/item/service/item.service.ts:59-63 | passes exactly when the item is present; otherwise NotFound "Item with ID `<id>` not found" |
| ItemService.ValidateUniqueItem | src/domain/item/service/item.service.ts:72-81 | returns the first item whose name matches ignoring case, with the quantity added to it, and leaves every other item unchanged; returns null and changes nothing when no name matches |
| ItemService.Borrowing | src/domain/item/service/item.service.ts:90-100 | succeeds exactly for an integer amount from 1 up to the shelf count, and the result is the item lent that amount; an invalid amount is reported before a shortage |
| ItemService.Returning | src/domain/item/service/item.service.ts:109-119 | succeeds exactly for an integer amount from 1 up to the loan count, and the result is the item restocked by that amount; an invalid amount is reported before an excess |
| ItemService.ValidateAndBorrowItem | src/domain/item/service/item.service.ts:90-100 | on success returns the same object, now holding `Borrowing`'s result; on failure returns its error and leaves the item untouched |
| ItemService.ValidateAndReturnItem | src/domain/item/service/item.service.ts:109-119 | on success returns the same object, now holding `Returning`'s result; on failure returns its error and leaves the item untouched |
| ItemBusinessRules.ValidateUniqueItem | src/domain/business-rules/item.business-rules.ts:14-25 | same merge as the service: the first case-insensitive match gains the quantity, all other items are unchanged, and null is returned when nothing matches |
| ItemBusinessRules.ValidateBorrowItem | src/domain/business-rules/item.business-rules.ts:33-41 | passes exactly when 1 <= n <= quantity; "Borrow quantity not be less than 1" is checked before "Not enough quantity available" |
| ItemBusinessRules.ExecuteBorrowItem | src/domain/business-rules/item.business-rules.ts:49-53 | the item becomes `Lent(old, n)` and the same object is returned |
| ItemBusinessRules.ValidateReturnItem | src/domain/business-rules/item.business-rules.ts:61-69 | passes exactly when 1 <= n <= borrowedQuantity; "Return quantity not be less than 1" is checked before "Invalid return quantity" |
| ItemBusinessRules.ExecuteReturnItem | src/domain/business-rules/item.business-rules.ts:77-81 | the item becomes `Restocked(old, n)` and the same object is returned |
| ItemBusinessRules.ValidatedBorrowKeepsStock | src/domain/business-rules/item.business-rules.ts:33-53 | a borrow that passed validation keeps both counters non-negative and the total unchanged |
| ItemBusinessRules.ValidatedReturnKeepsStock | src/domain/business-rules/item.business-rules.ts:61-81 | a return that passed validation keeps both counters non-negative and the total unchanged |
| ItemBusinessRules.UnguardedBorrowCanOverdraw | src/domain/business-rules/item.business-rules.ts:49-53 | executing a borrow without validating first can drive the shelf count below zero |
| ItemBusinessRules.AgreesWithItemService | src/domain/business-rules/item.business-rules.ts:33-81 | on integer amounts both rule sets accept the same borrows and returns and produce the same counters; they differ only in the failures: the rules raise a bare error (`Plain`) with their own wording where the service raises BadRequest |
| StockLedger.ReplayKeepsLedger | src/domain/item/service/item.service.ts:90-119 | any sequence of borrow and return requests, valid or not, keeps both counters non-negative, the total fixed, and the name, id, description and timestamps untouched |
| StockLedger.ReturnUndoesBorrow | src/domain/item/service/item.service.ts:90-119 | returning exactly what was just borrowed succeeds and restores the item |
| StockLedger.UnitTestExamples | src/domain/item/service/item.service.spec.ts:33-115 | 10 on the shelf, borrow 5 gives 5/5; borrow -15, 0 or 15 fails; with 5 lent, return 3 gives 13/2; return -5, 0 or 15 fails; fractions, NaN and Infinity fail |
| StockLedger.RepeatedBorrowsSucceedWhileStockLasts | src/domain/item/service/item.service.ts:90-100 | repeated borrows of `m` succeed until the shelf holds less than `m`, and the result is the item lent `m` times the number of successes |
| RepositoryPort.FullPatchStoresItem | src/domain/item/repositories/item.repository.ts:13 | writing back a whole item through `update` stores that item's counters and fields in the row |
| RepositoryPort.IndexOfOwnId | src/domain/item/repositories/item.repository.ts:11 | with distinct ids, looking up a row's own id finds that row |
| RepositoryPort.CreateKeepsIdsDistinct | src/domain/item/repositories/item.repository.ts:12 | a created row gets an id that no existing row has |
| RepositoryPort.UpdateKeepsIdsDistinct | src/domain/item/repositories/item.repository.ts:13 | a patch never changes ids, so they stay distinct |
| RepositoryPort.DeleteKeepsIdsDistinct | src/domain/item/repositories/item.repository.ts:14 | removing rows keeps the remaining ids distinct |
| RepositoryPort.Materialize | src/domain/item/repositories/item.repository.ts:10 | one fresh object per row, in order, holding that row |
| RepositoryPort.ItemRepository.constructor | src/domain/item/repositories/item.repository.ts:9-16 | a store over the given table with distinct ids and an empty write log |
| RepositoryPort.ItemRepository.FindAll | src/domain/item/repositories/item.repository.ts:10 | every row, in table order, as fresh objects |
| RepositoryPort.ItemRepository.FindById | src/domain/item/repositories/item.repository.ts:11 | a fresh object holding the row with that id, or null exactly when no row has it |
| RepositoryPort.ItemRepository.Search | src/domain/item/repositories/item.repository.ts:15 | the store's answer over the current rows for (query, sortBy, order), as fresh objects |
| RepositoryPort.ItemRepository.Create | src/domain/item/repositories/item.repository.ts:12 | logs the write; either appends one row with a new id (borrowed count 0 by default) and returns it, or is rejected and the table is unchanged |
| RepositoryPort.ItemRepository.Update | src/domain/item/repositories/item.repository.ts:13 | logs the write; either patches the row with that id and no other row, or is rejected and the table is unchanged |
| RepositoryPort.ItemRepository.Delete | src/domain/item/repositories/item.repository.ts:14 | logs the write; either removes the rows with that id and keeps the rest in order, or is rejected and the table is unchanged |
| ItemUseCases.GetItemById | src/application/item/use-cases/find-item-by-id.use-case.ts:20-26 | the stored item for that id, or NotFound "Item with ID `<id>` not found"; nothing is written |
| ItemUseCases.SearchItems | src/application/item/use-cases/search-item.use-case.ts:21-27 | the store's search with `sortBy` defaulting to "name", or NotFound naming the query when nothing matches; nothing is written |
| ItemUseCases.UpdateItem | src/application/item/use-cases/update-item.use-case.ts:22-30 | a missing id is NotFound with no write; otherwise exactly one update is issued and the item read back afterwards is returned |
| ItemUseCases.BorrowItem | src/application/item/use-cases/borrow-item.use-case.ts:21-30 | a missing id is NotFound and a rejected amount gives `Borrowing`'s error, both with no write; otherwise one update writes `Borrowing`'s result and returns it |
| ItemUseCases.ReturnItem | src/application/item/use-cases/return-item.use-case.ts:21-30 | a missing id is NotFound and a rejected amount gives `Returning`'s error, both with no write; otherwise one update writes `Returning`'s result and returns it |
| ItemUseCases.DeleteItem | src/application/item/use-cases/delete-item.use-case.ts:18-26 | a missing id is NotFound with no write; otherwise one delete is issued and the row is gone, with the message "Item with ID `<id>` has been deleted successfully." |
| ItemUseCases.CreateItem | src/application/item/use-cases/create-item.use-case.ts:25-41 | when a stored name matches ignoring case, the first such item's quantity becomes its old quantity plus the new one, through one update, and no row is added; otherwise one create appends the new item |
| ItemEntity.Item.constructor | src/domain/entities/item.entity.ts:1-10 | every field holds the argument given for it |
| ItemEntity.IndexOfId | src/infrastructure/repositories/item.repository.ts:24 | the first object with that id, or -1 exactly when none has it |
| ItemEntity.InitialItems | src/infrastructure/data/initial-item-data.ts:4-45 | five new objects holding the seed items in order: Macbook Air, Projector, iPhone, iPad and Wireless headphones, with their descriptions and statuses |
| InMemoryRepository.SpliceOne | src/infrastructure/repositories/item.repository.ts:36 | `splice(start, 1)`: an index inside the list removes that element, -1 removes the last one, and an index past the end removes nothing |
| InMemoryRepository.ItemRepository.constructor | src/infrastructure/repositories/item.repository.ts:8 | the store starts holding the initial objects themselves, in order |
| InMemoryRepository.ItemRepository.Create | src/infrastructure/repositories/item.repository.ts:14-17 | the object is appended at the end and returned |
| InMemoryRepository.ItemRepository.GetAll | src/infrastructure/repositories/item.repository.ts:19-21 | the list itself |
| InMemoryRepository.ItemRepository.GetById | src/infrastructure/repositories/item.repository.ts:23-26 | the first object with that id, which is in the list; null exactly when no object has it |
| InMemoryRepository.ItemRepository.Update | src/infrastructure/repositories/item.repository.ts:28-32 | the object takes the place of the first one with its id; with no such id the list is unchanged |
| InMemoryRepository.ItemRepository.Delete | src/infrastructure/repositories/item.repository.ts:34-37 | the list after `splice(findIndex(id), 1)` |
| InMemoryRepository.DeletePresentRemovesIt | src/infrastructure/repositories/item.repository.ts:34-37 | deleting a present id removes exactly that object and keeps the others in order |
| InMemoryRepository.DeleteMissingRemovesLast | src/infrastructure/repositories/item.repository.ts:34-37 | deleting an absent id from a non-empty list removes its last object |
| ItemsUseCases.PatchedRecord | src/application/items/use-cases/update-item.use-case.ts:14-18 | id and creation time are kept and the update time is now; name and description change only to a non-empty value, and status only when given |
| ItemsUseCases.AssignFields | src/application/items/use-cases/update-item.use-case.ts:14-18 | the object's record becomes `PatchedRecord` of its old record |
| ItemsUseCases.CreateItem | src/application/items/use-cases/create-item.use-case.ts:10-21 | a new object with the generated id, the given fields and both timestamps set to now is appended and returned |
| ItemsUseCases.GetItemById | src/application/items/use-cases/get-item-by-id.use-case.ts:9-13 | the first object with that id, or NotFound "Item with ID `<id>` not found"; the store is unchanged |
| ItemsUseCases.GetItemByIdTwice | src/application/items/use-cases/get-item-by-id.use-case.ts:9-13 | two lookups of the same id give the same answer |
| ItemsUseCases.DeleteItem | src/application/items/use-cases/delete-item.use-case.ts:8-13 | a missing id is NotFound and the list is unchanged; otherwise exactly that object is removed, the others keep their order, and the message is "Delete successful" |
| ItemsUseCases.UpdateItem | src/application/items/use-cases/update-item.use-case.ts:10-20 | a missing id is NotFound with nothing changed; otherwise the stored object is patched in place, stays in its slot and is returned |
| ItemsUseCases.ReturnItem | src/application/items/use-cases/return-item.use-case.ts:11-24 | a missing id is NotFound "Item with id `<id>` not found" with no write; a rule failure or a rejected write becomes BadRequest with the same message; otherwise one update stores `Restocked` and returns it |

## Left out

- Asynchrony, concurrency and transactions. Every repository call is taken as one atomic step.
- HTTP controllers, the response interceptor, the DTO validation decorators, TypeORM and the `ItemRepositoryImplement` classes are not part of this model. The application/item use cases are modelled over the abstract repository port instead.
- The database's search semantics: `RepositoryPort.ItemRepository.Search` returns whatever an uninterpreted function of the current rows and (query, sortBy, order) yields. Substring matching and sorting are not modelled.
- Repository reads never fail, and reads are not logged. Only writes can be rejected.
- uuid generation and the clock:
  - the port names a new row with a string longer than every id in use, and stamps rows with the store's `now`;
  - the in-memory use cases take the generated id and the current time as parameters;
  - the seed items take their ids and time as parameters.
- The `findAll` use cases (`find-items.use-case.ts`, `get-items.use-case.ts`) return the repository's list unchanged, which `FindAll`/`GetAll` already state.
- The application/items borrow, search and find-by-id use cases are not core and are not modelled.
- `description?` on the quantity item is a plain string, because its constructor requires one.
- ItemBusinessRules.ValidateBorrowItem: takes integer amounts only. The `@IsInt @Min(1)` constraints of the DTOs are taken as a documented precondition. The visible wiring installs no ValidationPipe, though: `src/main.ts` sets no global pipe and the controller takes a bare `@Body()`. A NaN amount therefore passes both guards (`NaN < 1` and `quantity < NaN` are false), and a fraction is compared as a number. Neither is modelled.
- ItemBusinessRules.ValidateReturnItem: takes integer amounts only, for the same reason. A NaN amount passes both of its guards in the source.
- ItemsUseCases.ReturnItem: takes integer amounts only, for the same reason. In the source a NaN amount passes validation, and `executeReturnItem` then writes NaN counters through `update`. It also runs over the repository port rather than the TypeORM-backed store it is wired to. The rule set's item entity has no counters, so the quantity item stands in for it.
- InMemoryRepository.ItemRepository.GetAll: returns the list as a value. The source returns the store's own array, so a caller that pushes to or splices the result changes the store. That aliasing of the array itself is not modelled; the item objects in it are shared.
- Names.Lower: lower-casing covers the ASCII letters A-Z only. JavaScript's `toLowerCase` also folds non-ASCII letters (É becomes é). So "ÉCRAN" and "écran" merge in the source, but in the model they are different names and a second item is created.
- Number precision: counters and amounts are unbounded integers. The source adds and subtracts IEEE doubles (`item.quantity += quantity`), which lose exactness above 2^53. That rounding is not modelled.
- StockLedger.RepeatedBorrowsSucceedWhileStockLasts: states the number of successes `s` through `m * s <= quantity` and, unless all `n` succeeded, `quantity - m * s < m`, rather than by division.
