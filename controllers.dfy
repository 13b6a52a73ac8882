/** The synchronous revision of the items controller: each route handler
    looks the id up in the in-memory store first and calls the store's
    update or delete only when the item exists. */
module Controllers {
  import opened Entities
  import opened ItemTable
  import opened Mapper
  import opened ItemsApi
  import opened InMemRepository

  class ItemsController {
    /** The injected repository; the mapper is stateless and not a field. */
    const repository: InMemItemsRespository

    constructor (repository: InMemItemsRespository)
      ensures this.repository == repository
    {
      this.repository := repository;
    }

    /** GET /items. */
    method GetItems() returns (dtos: seq<ItemDto>)
      ensures |dtos| == |repository.items|
      ensures dtos == List(repository.items)
    {
      var items := repository.GetItems();
      dtos := MapAll(items);
    }

    /** GET /items/{id}. */
    method GetItem(id: Guid) returns (r: Response)
      ensures r == NotFound <==> !HasId(repository.items, id)
      ensures repository.Valid() ==> !r.Fault?
      ensures r == Get(repository.items, id)
    {
      var found := repository.GetItem(id);
      match found
      case Failure(e) => r := Fault(e);
      case Success(None) => r := NotFound;
      case Success(Some(item)) => r := Ok(ToDto(item));
      GetNotFound(repository.items, id);
    }

    /** POST /items; `newId` and `now` are what `Guid.NewGuid()` and
        `DateTimeOffset.UtcNow` returned. */
    method CreateItem(dto: CreateItemDto, newId: Guid, now: Timestamp) returns (r: Response)
      modifies repository
      ensures Step(r, repository.items) == Create(old(repository.items), dto, newId, now)
      ensures old(repository.Valid()) && !HasId(old(repository.items), newId) ==> repository.Valid()
    {
      var item := NewItem(dto, newId, now);
      repository.CreateItem(item);
      r := Created(item.id, ToDto(item));
    }

    /** PUT /items/{id}. */
    method UpdateItem(id: Guid, dto: UpdateItemDto) returns (r: Response)
      modifies repository
      ensures Step(r, repository.items) == Update(old(repository.items), id, dto)
      ensures r != Fault(ArgumentOutOfRange)
      ensures old(repository.Valid()) ==> repository.Valid()
    {
      UpdateNeverOutOfRange(repository.items, id, dto);
      var existing := repository.GetItem(id);
      match existing
      case Failure(e) => r := Fault(e);
      case Success(None) => r := NotFound;
      case Success(Some(item)) =>
        var status := repository.UpdateItem(Edited(item, dto));
        match status
        case Completed => r := NoContent;
        case Threw(e) => r := Fault(e);
    }

    /** DELETE /items/{id}. */
    method DeleteItem(id: Guid) returns (r: Response)
      modifies repository
      ensures Step(r, repository.items) == Delete(old(repository.items), id)
      ensures r != Fault(ArgumentOutOfRange)
      ensures old(repository.Valid()) ==> repository.Valid()
    {
      DeleteNeverOutOfRange(repository.items, id);
      var existing := repository.GetItem(id);
      match existing
      case Failure(e) => r := Fault(e);
      case Success(None) => r := NotFound;
      case Success(Some(_)) =>
        var status := repository.DeleteItem(id);
        match status
        case Completed => r := NoContent;
        case Threw(e) => r := Fault(e);
    }
  }
}
