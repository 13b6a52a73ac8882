/** What each route handler of the items controller does to the store and
    answers, as functions of the stored list. Both controller revisions are
    proved to behave as these functions say; the lemmas below state the
    API's promises about them. */
module ItemsApi {
  import opened Entities
  import opened ItemTable
  import opened Mapper

  /** The HTTP outcome of a handler. */
  datatype Response =
    | Ok(item: ItemDto)                     // 200 with the item
    | Created(routeId: Guid, item: ItemDto) // 201, Location: GET /items/{routeId}
    | NoContent                             // 204
    | NotFound                              // 404
    | Fault(error: Error)                   // an exception escaped the handler (500)

  /** A handler's response together with the store it leaves behind. */
  datatype Step = Step(response: Response, items: seq<Item>)

  /** `new Item { Id = id, Name = dto.Name, CreateDate = now, Price = dto.Price }`. */
  function NewItem(dto: CreateItemDto, id: Guid, now: Timestamp): (item: Item)
    ensures item.id == id && item.createDate == now
    ensures item.name == dto.name && item.price == dto.price
  {
    Item(id, dto.name, dto.price, now)
  }

  /** `existingItem with { Name = dto.Name, Price = dto.Price }`. */
  function Edited(existing: Item, dto: UpdateItemDto): (item: Item)
    ensures item.id == existing.id && item.createDate == existing.createDate
    ensures item.name == dto.name && item.price == dto.price
  {
    existing.(name := dto.name, price := dto.price)
  }

  /** GET /items: one field-for-field copy per stored item, in order. */
  function List(items: seq<Item>): (dtos: seq<ItemDto>)
    ensures |dtos| == |items|
    ensures forall i :: 0 <= i < |items| ==> Equivalent(dtos[i], items[i])
  {
    MapAll(items)
  }

  /** GET /items/{id}. */
  function Get(items: seq<Item>, id: Guid): (r: Response)
    ensures r == NotFound <==> !HasId(items, id)
    ensures r.Ok? || r.NotFound? || r.Fault?
    ensures r.Ok? ==> r.item.id == id && ToItem(r.item) in items
  {
    match SingleOrDefault(items, id)
    case Failure(e) => Fault(e)
    case Success(None) => NotFound
    case Success(Some(item)) => Ok(ToDto(item))
  }

  /** POST /items, with the id and timestamp the server generated. */
  function Create(items: seq<Item>, dto: CreateItemDto, id: Guid, now: Timestamp): (st: Step)
    ensures st.response.Created? && st.response.routeId == id
    ensures |st.items| == |items| + 1 && st.items[..|items|] == items
    ensures st.items[|items|] == ToItem(st.response.item)
  {
    var item := NewItem(dto, id, now);
    Step(Created(item.id, ToDto(item)), items + [item])
  }

  /** PUT /items/{id}. */
  function Update(items: seq<Item>, id: Guid, dto: UpdateItemDto): (st: Step)
    ensures |st.items| == |items|
    ensures st.response == NoContent || st.items == items
    ensures st.response == NoContent || st.response == NotFound || st.response.Fault?
  {
    match SingleOrDefault(items, id)
    case Failure(e) => Step(Fault(e), items)
    case Success(None) => Step(NotFound, items)
    case Success(Some(existing)) =>
      match Replace(items, Edited(existing, dto))
      case Failure(e) => Step(Fault(e), items)
      case Success(updated) => Step(NoContent, updated)
  }

  /** DELETE /items/{id}. */
  function Delete(items: seq<Item>, id: Guid): (st: Step)
    ensures st.response == NoContent ==> |st.items| == |items| - 1
    ensures st.response != NoContent ==> st.items == items
    ensures st.response == NoContent || st.response == NotFound || st.response.Fault?
  {
    match SingleOrDefault(items, id)
    case Failure(e) => Step(Fault(e), items)
    case Success(None) => Step(NotFound, items)
    case Success(Some(_)) =>
      match Remove(items, id)
      case Failure(e) => Step(Fault(e), items)
      case Success(remaining) => Step(NoContent, remaining)
  }

  // ---------------------------------------------------------------------
  // Reads

  /** GET /items/{id} is NotFound exactly when no stored item has the id, and
      fails only when the id is duplicated. */
  lemma GetNotFound(items: seq<Item>, id: Guid)
    ensures Get(items, id) == NotFound <==> !HasId(items, id)
    ensures Get(items, id).Fault? <==> DuplicateId(items, id)
  {
    LookupFailsIffDuplicate(items, id);
  }

  /** With unique ids, GET /items/{id} on a stored id answers that item,
      field for field. */
  lemma GetFound(items: seq<Item>, id: Guid)
    requires UniqueIds(items) && HasId(items, id)
    ensures Get(items, id).Ok?
    ensures Equivalent(Get(items, id).item, items[IndexOf(items, id)])
  {
    LookupUnique(items, id);
  }

  // ---------------------------------------------------------------------
  // Create

  /** POST /items appends an item built from the request, with the supplied
      id and timestamp, and answers a copy of it routed to its id. With a
      fresh id the ids stay unique and GET on that id returns it. */
  lemma CreateThenGet(items: seq<Item>, dto: CreateItemDto, id: Guid, now: Timestamp)
    requires UniqueIds(items) && !HasId(items, id)
    ensures var st := Create(items, dto, id, now);
      && st.response.Created?
      && st.response.routeId == id
      && st.response.item == ItemDto(id, dto.name, dto.price, now)
      && st.items[..|items|] == items
      && UniqueIds(st.items)
      && Get(st.items, id) == Ok(st.response.item)
      && forall other :: other != id ==> Get(st.items, other) == Get(items, other)
  {
    var st := Create(items, dto, id, now);
    assert st.items[..|items|] == items;
    AppendUnique(items, NewItem(dto, id, now));
    AppendLookup(items, NewItem(dto, id, now), id);
    forall other | other != id ensures Get(st.items, other) == Get(items, other) {
      AppendLookup(items, NewItem(dto, id, now), other);
    }
  }

  /** There is no duplicate check: creating with an id already stored breaks
      uniqueness, and GET on that id then throws. */
  lemma CreateTakenId(items: seq<Item>, dto: CreateItemDto, id: Guid, now: Timestamp)
    requires HasId(items, id)
    ensures !UniqueIds(Create(items, dto, id, now).items)
    ensures Get(Create(items, dto, id, now).items, id) == Fault(MoreThanOneMatch)
  {
    AppendUnique(items, NewItem(dto, id, now));
    AppendLookup(items, NewItem(dto, id, now), id);
  }

  // ---------------------------------------------------------------------
  // Update

  /** The controller never makes the store index with -1: the only fault
      PUT /items/{id} can answer is the lookup's own. */
  lemma UpdateNeverOutOfRange(items: seq<Item>, id: Guid, dto: UpdateItemDto)
    ensures Update(items, id, dto).response != Fault(ArgumentOutOfRange)
    ensures Update(items, id, dto).response.Fault? <==> DuplicateId(items, id)
  {
    LookupFailsIffDuplicate(items, id);
  }

  /** PUT /items/{id} on an absent id answers NotFound and changes nothing. */
  lemma UpdateAbsent(items: seq<Item>, id: Guid, dto: UpdateItemDto)
    requires !HasId(items, id)
    ensures Update(items, id, dto) == Step(NotFound, items)
  {
  }

  /** PUT /items/{id} on a stored id answers NoContent and overwrites that
      item in place, keeping its id and creation date and taking name and
      price from the request; every other position stays, and ids stay
      unique. */
  lemma UpdateInPlace(items: seq<Item>, id: Guid, dto: UpdateItemDto)
    requires UniqueIds(items) && HasId(items, id)
    ensures var k := IndexOf(items, id);
      var st := Update(items, id, dto);
      && st.response == NoContent
      && |st.items| == |items|
      && st.items[k] == Item(id, dto.name, dto.price, items[k].createDate)
      && (forall i :: 0 <= i < |items| && i != k ==> st.items[i] == items[i])
      && UniqueIds(st.items)
  {
    var k := IndexOf(items, id);
    LookupUnique(items, id);
    ReplaceUnique(items, Edited(items[k], dto));
  }

  /** After PUT /items/{id} on a stored id, GET on it sees the new name and
      price with the old id and creation date. */
  lemma UpdateThenGet(items: seq<Item>, id: Guid, dto: UpdateItemDto)
    requires UniqueIds(items) && HasId(items, id)
    ensures var before := items[IndexOf(items, id)];
      Get(Update(items, id, dto).items, id) == Ok(ItemDto(id, dto.name, dto.price, before.createDate))
  {
    var k := IndexOf(items, id);
    LookupUnique(items, id);
    ReplaceLookup(items, Edited(items[k], dto), id);
  }

  /** PUT /items/{id} does not change what GET answers for any other id,
      whatever the store holds. */
  lemma UpdateKeepsOthers(items: seq<Item>, id: Guid, dto: UpdateItemDto, other: Guid)
    requires other != id
    ensures Get(Update(items, id, dto).items, other) == Get(items, other)
  {
    match SingleOrDefault(items, id)
    case Success(Some(existing)) =>
      ReplaceLookup(items, Edited(existing, dto), other);
    case _ =>
  }

  // ---------------------------------------------------------------------
  // Delete

  /** The controller never makes the store remove at -1. */
  lemma DeleteNeverOutOfRange(items: seq<Item>, id: Guid)
    ensures Delete(items, id).response != Fault(ArgumentOutOfRange)
    ensures Delete(items, id).response.Fault? <==> DuplicateId(items, id)
  {
    LookupFailsIffDuplicate(items, id);
  }

  /** DELETE /items/{id} on an absent id answers NotFound and changes nothing. */
  lemma DeleteAbsent(items: seq<Item>, id: Guid)
    requires !HasId(items, id)
    ensures Delete(items, id) == Step(NotFound, items)
  {
  }

  /** DELETE /items/{id} on a stored id answers NoContent and removes
      exactly that item, the others keeping their order; ids stay unique. */
  lemma DeleteRemoves(items: seq<Item>, id: Guid)
    requires UniqueIds(items) && HasId(items, id)
    ensures var k := IndexOf(items, id);
      var st := Delete(items, id);
      && st.response == NoContent
      && st.items == items[..k] + items[k + 1..]
      && UniqueIds(st.items)
  {
    var k := IndexOf(items, id);
    LookupUnique(items, id);
    RemoveUnique(items, id);
    assert Delete(items, id).items == items[..k] + items[k + 1..];
  }

  /** After DELETE /items/{id} on a stored id, GET on it is NotFound. */
  lemma DeleteThenGet(items: seq<Item>, id: Guid)
    requires UniqueIds(items) && HasId(items, id)
    ensures Get(Delete(items, id).items, id) == NotFound
  {
    LookupUnique(items, id);
    RemoveLookupSelf(items, id);
  }

  /** DELETE /items/{id} does not change what GET answers for any other id,
      whatever the store holds. */
  lemma DeleteKeepsOthers(items: seq<Item>, id: Guid, other: Guid)
    requires other != id
    ensures Get(Delete(items, id).items, other) == Get(items, other)
  {
    if SingleOrDefault(items, id).Success? && SingleOrDefault(items, id).value.Some? {
      RemoveLookupOther(items, id, other);
    }
  }
}
