# Items API: in-memory store and CRUD controller, modelled in Dafny

The system is a small CRUD web API for "items" (id, name, price, creation
date). Requests reach an `ItemsController`, which looks an item up by id in a
repository, answers 404 when it is absent, and otherwise reads, replaces or
removes it. The repository modelled here is the in-memory one: a list of items
seeded with three fixtures, searched by linear scan and edited in place.

The model has three layers:

- `ItemTable` (item_table.dfy) treats the list as a table keyed by id. It
  gives the searches the store performs (`Where(...).SingleOrDefault()`,
  `List.FindIndex`) and the edits it makes (indexer store, `RemoveAt`) as
  functions. The lemmas say what lookups see after each edit, and when ids
  stay unique.
- `InMemRepository.InMemItemsRespository` (in_mem_repository.dfy) is the
  store as a class. It holds a `seq<Item>` that its methods reassign.
  `FindIndex` and `GetItem` are scanning loops proved against `IndexOf` and
  `SingleOrDefault`.
- `ItemsApi` (items_api.dfy) states what each route handler answers and
  leaves in the store, as functions of the stored list. Its lemmas give the
  API's promises: not-found exactly on absent ids, create/update/delete
  followed by get, nothing changed on the not-found paths, and the handlers
  never make the store index with -1.
  `Controllers.ItemsController` (synchronous revision) and
  `WebApiControllers.ItemsController` (asynchronous revision) are classes
  over the store. Each of their methods is proved to behave as the matching
  `ItemsApi` function.

Exceptions are values here. `SingleOrDefault` on a second match gives
`Failure(MoreThanOneMatch)`. Indexing or `RemoveAt` with -1 gives
`Threw(ArgumentOutOfRange)`, and the list is unchanged, because it throws
before it mutates. An exception that escapes a handler is the response
`Fault`. Nothing forbids duplicate ids, so no operation requires unique ids.
The lemmas that need them say so, and the store's `Valid()` is that
invariant, tracked by every mutating method.

Nondeterministic inputs are parameters. The ids from `Guid.NewGuid()` and
the times from `DateTimeOffset.UtcNow` are passed to the store's constructor
and to `CreateItem`.

The model follows the code on three points that a reader of the API might
expect otherwise:

- The items in the modelled code have no description field.
- The controllers have no name filter.
- Update and delete of a missing id are not undefined: the in-memory store
  throws `ArgumentOutOfRange`.

## Model

| member | source | states |
|---|---|---|
| Mapper.ToDto | WebApi/Mappers/DtoMapper.cs:29 | the DTO equals the entity member by member |
| Mapper.ToItem | WebApi/Mappers/DtoMapper.cs:25 | the entity equals the DTO member by member |
| Mapper.MapAll | WebApi/Mappers/DtoMapper.cs:31 | one DTO per entity, same length and order, each equal to its entity member by member |
| Mapper.RoundTrip | WebApi/Mappers/DtoMapper.cs:19-20 | the map and its reverse map undo each other in both directions |
| ItemTable.Matches | Repositories/InMemItemsRespository.cs:25 | the filtered list holds only items with the id, and is empty exactly when no stored item has it |
| ItemTable.MatchesMember | Repositories/InMemItemsRespository.cs:25 | an item is among the matches iff it is stored and carries the id |
| ItemTable.SingleOrDefault | Repositories/InMemItemsRespository.cs:25 | null exactly when no stored item has the id; a found item is stored and has the id; the only exception is "more than one match" |
| ItemTable.IndexOf | Repositories/InMemItemsRespository.cs:35 | -1 exactly when the id is absent; otherwise the first position holding the id |
| ItemTable.Replace | Repositories/InMemItemsRespository.cs:35-36 | throws ArgumentOutOfRange exactly when the id is absent; otherwise the same length, the new item at the found position, all other positions unchanged |
| ItemTable.Remove | Repositories/InMemItemsRespository.cs:41-42 | throws ArgumentOutOfRange exactly when the id is absent; otherwise one item shorter, items before the found position unchanged and those after it shifted down by one |
| ItemTable.MatchesUnique | Repositories/InMemItemsRespository.cs:25 | with unique ids at most one item matches |
| ItemTable.TwoMatchesDuplicate | Repositories/InMemItemsRespository.cs:25 | two matches imply two positions holding the id |
| ItemTable.DuplicateTwoMatches | Repositories/InMemItemsRespository.cs:25 | two positions holding the id imply two matches |
| ItemTable.LookupUnique | Repositories/InMemItemsRespository.cs:23-26 | with unique ids the lookup never throws, and on a stored id it returns the item at the position FindIndex finds |
| ItemTable.LookupFailsIffDuplicate | Repositories/InMemItemsRespository.cs:25 | the lookup throws exactly when two stored items share the id |
| ItemTable.AppendUnique | Repositories/InMemItemsRespository.cs:28-31 | appending keeps ids unique exactly when they were unique and the new id is fresh |
| ItemTable.AppendLookup | Repositories/InMemItemsRespository.cs:28-31 | after an append, the new id finds the new item, or throws if it was already stored; other ids look up as before |
| ItemTable.ReplaceUnique | Repositories/InMemItemsRespository.cs:33-37 | replacing by id keeps ids unique, in both directions |
| ItemTable.ReplaceLookup | Repositories/InMemItemsRespository.cs:33-37 | after a replace, other ids look up as before, and with unique ids the replaced id finds the new item |
| ItemTable.RemoveUnique | Repositories/InMemItemsRespository.cs:39-43 | removing keeps ids unique |
| ItemTable.RemoveLookupOther | Repositories/InMemItemsRespository.cs:39-43 | after a remove, other ids look up as before |
| ItemTable.RemoveLookupSelf | Repositories/InMemItemsRespository.cs:39-43 | with unique ids, the removed id is then absent (the lookup returns null) |
| InMemRepository.InMemItemsRespository.constructor | Repositories/InMemItemsRespository.cs:11-16 | the store holds exactly Potion (9), Iron sword (20), Bronze Shield (19) in that order, with the given ids and times; it is valid iff the three ids are distinct |
| InMemRepository.InMemItemsRespository.GetItems | Repositories/InMemItemsRespository.cs:18-21 | returns every stored item in insertion order and changes nothing |
| InMemRepository.InMemItemsRespository.FindIndex | Repositories/InMemItemsRespository.cs:35 | the scan returns -1 iff the id is absent, else the first position holding it |
| InMemRepository.InMemItemsRespository.GetItem | Repositories/InMemItemsRespository.cs:23-26 | the scan returns null iff the id is absent, throws iff it is duplicated (so never on a valid store), and otherwise returns the single match |
| InMemRepository.InMemItemsRespository.CreateItem | Repositories/InMemItemsRespository.cs:28-31 | appends the item, with no duplicate check; the store stays valid iff the id was fresh |
| InMemRepository.InMemItemsRespository.UpdateItem | Repositories/InMemItemsRespository.cs:33-37 | completes iff the id is stored, and then overwrites that position only; otherwise throws ArgumentOutOfRange and leaves the list unchanged; validity is unchanged |
| InMemRepository.InMemItemsRespository.DeleteItem | Repositories/InMemItemsRespository.cs:39-43 | completes iff the id is stored, and then removes that item keeping the others in order; otherwise throws ArgumentOutOfRange and leaves the list unchanged; keeps a valid store valid |
| ItemsApi.NewItem | Controllers/ItemsController.cs:55-61 | the new item has the supplied id and creation time and the request's name and price |
| ItemsApi.Edited | Controllers/ItemsController.cs:79-83 | the copy keeps the existing id and creation date and takes name and price from the request |
| ItemsApi.List | Controllers/ItemsController.cs:31-35 | GET /items answers one field-for-field copy per stored item, in order |
| ItemsApi.Get | Controllers/ItemsController.cs:39-49 | GET /items/{id} is NotFound iff the id is absent; otherwise Ok with a copy of a stored item carrying the id, or a fault; the lemmas below give the rest |
| ItemsApi.Create | Controllers/ItemsController.cs:53-66 | POST answers Created routed to the supplied id and appends exactly the answered item after the unchanged earlier items |
| ItemsApi.Update | Controllers/ItemsController.cs:70-88 | PUT keeps the store's length, changes the store only when it answers NoContent, and otherwise answers NotFound or a fault; the lemmas below give the rest |
| ItemsApi.Delete | Controllers/ItemsController.cs:92-104 | DELETE shortens the store by one exactly when it answers NoContent, otherwise leaves it unchanged and answers NotFound or a fault; the lemmas below give the rest |
| ItemsApi.GetNotFound | Controllers/ItemsController.cs:39-49 | GET /items/{id} is NotFound iff the id is absent, and fails iff the id is duplicated |
| ItemsApi.GetFound | WebApi/Controllers/ItemsController.cs:41-48 | with unique ids, GET on a stored id answers a value equal field-for-field to the stored item |
| ItemsApi.CreateThenGet | Controllers/ItemsController.cs:53-66 | POST appends an item with the request's name and price and the supplied id and time, answers it routed to its id, keeps earlier items; with a fresh id GET then returns it and other ids are unaffected |
| ItemsApi.CreateTakenId | Controllers/ItemsController.cs:55-63 | creating with an id already stored breaks uniqueness, and GET on that id then throws |
| ItemsApi.UpdateNeverOutOfRange | Controllers/ItemsController.cs:72-85 | PUT never makes the store index with -1; it faults only when the looked-up id is duplicated |
| ItemsApi.UpdateAbsent | Controllers/ItemsController.cs:70-77 | PUT on an absent id answers NotFound and leaves the store unchanged |
| ItemsApi.UpdateInPlace | Controllers/ItemsController.cs:79-87 | PUT on a stored id answers NoContent and overwrites that position in place, keeping id and creation date and taking name and price from the request; other positions are unchanged and ids stay unique |
| ItemsApi.UpdateThenGet | Controllers/ItemsController.cs:79-87 | after PUT on a stored id, GET on it answers the new name and price with the old id and creation date |
| ItemsApi.UpdateKeepsOthers | Controllers/ItemsController.cs:70-85 | PUT on any id, in any store (duplicates included), leaves GET on every other id unchanged |
| ItemsApi.DeleteNeverOutOfRange | Controllers/ItemsController.cs:94-101 | DELETE never makes the store remove at -1; it faults only when the looked-up id is duplicated |
| ItemsApi.DeleteAbsent | Controllers/ItemsController.cs:92-99 | DELETE on an absent id answers NotFound and leaves the store unchanged |
| ItemsApi.DeleteRemoves | Controllers/ItemsController.cs:92-104 | DELETE on a stored id answers NoContent and removes exactly that item, keeping the others in order; ids stay unique |
| ItemsApi.DeleteThenGet | Controllers/ItemsController.cs:94-101 | after DELETE on a stored id, GET on it is NotFound |
| ItemsApi.DeleteKeepsOthers | Controllers/ItemsController.cs:92-101 | DELETE on any id, in any store (duplicates included), leaves GET on every other id unchanged |
| Controllers.ItemsController.constructor | Controllers/ItemsController.cs:22-27 | the controller uses the given repository |
| Controllers.ItemsController.GetItems | Controllers/ItemsController.cs:31-35 | answers `ItemsApi.List` of the stored items, one per item |
| Controllers.ItemsController.GetItem | Controllers/ItemsController.cs:39-49 | answers NotFound iff the id is absent, and in general `ItemsApi.Get` of the store; never faults on a valid store |
| Controllers.ItemsController.CreateItem | Controllers/ItemsController.cs:53-66 | response and new store are `ItemsApi.Create` of the old store; a valid store stays valid when the new id is fresh |
| Controllers.ItemsController.UpdateItem | Controllers/ItemsController.cs:70-88 | response and new store are `ItemsApi.Update` of the old store; the store's index error never surfaces; a valid store stays valid |
| Controllers.ItemsController.DeleteItem | Controllers/ItemsController.cs:92-104 | response and new store are `ItemsApi.Delete` of the old store; the store's index error never surfaces; a valid store stays valid |
| WebApiControllers.ItemsController.constructor | WebApi/Controllers/ItemsController.cs:22-27 | the controller uses the given repository |
| WebApiControllers.ItemsController.GetItemsAsync | WebApi/Controllers/ItemsController.cs:31-35 | answers `ItemsApi.List` of the stored items, one per item |
| WebApiControllers.ItemsController.GetItemAsync | WebApi/Controllers/ItemsController.cs:39-49 | answers NotFound iff the id is absent, and in general `ItemsApi.Get` of the store; never faults on a valid store |
| WebApiControllers.ItemsController.CreateItemAsync | WebApi/Controllers/ItemsController.cs:53-66 | response and new store are `ItemsApi.Create` of the old store; a valid store stays valid when the new id is fresh |
| WebApiControllers.ItemsController.UpdateItemAsync | WebApi/Controllers/ItemsController.cs:70-88 | response and new store are `ItemsApi.Update` of the old store; the store's index error never surfaces; a valid store stays valid |
| WebApiControllers.ItemsController.DeleteItemAsync | WebApi/Controllers/ItemsController.cs:92-104 | response and new store are `ItemsApi.Delete` of the old store; the store's index error never surfaces; a valid store stays valid |

## Left out

- The MongoDB repositories (Repositories/MongoDbItemsRepository.cs and WebApi/Repositories/MongoDbItemsRepository.cs) do network I/O through a driver that is not shown. A missing id there is a silent no-op, unlike the in-memory store's exception. They are not part of this model.
- The `IItemsRepository` interface is not modelled as an abstraction. Both controllers are bound to the in-memory store, so the unit tests' stub repository, which answers one fixed item for any id, is not modelled.
- The mapper's AutoMapper configuration is taken to be a field-for-field copy. That assumption is not verified.
- `Guid.NewGuid()` and `DateTimeOffset.UtcNow` are parameters. That a generated id is non-empty and fresh, and that the creation date is within a second of the call, are properties of those library calls. The model only shows that the response carries exactly the supplied id and time.
- `async`/`await` and `Task` add no logic and are dropped.
- ASP.NET result types and routing attributes become the `Response` datatype. An unhandled exception is `Fault`.
- Concurrent requests racing on the unsynchronised list are not modelled. Every operation runs alone.
- `InMemRepository.InMemItemsRespository.GetItems`: the source returns the live list itself, so callers alias the store. The model returns its value at the time of the call.
- The item's description field and name-substring filtering do not appear in the modelled code and are left out.
- The price's numeric type is not shown. It is an unbounded integer, and no arithmetic is done on it.
