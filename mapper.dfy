/** The entity/DTO mapper, taken to be the field-for-field copy that its
    `CreateMap<Item, ItemDto>().ReverseMap()` configuration asks for. */
module Mapper {
  import opened Entities

  /** The DTO carries exactly the entity's values, member by member. */
  predicate Equivalent(dto: ItemDto, item: Item) {
    dto.id == item.id && dto.name == item.name &&
    dto.price == item.price && dto.createDate == item.createDate
  }

  /** `Map(Item)`: entity to DTO. */
  function ToDto(item: Item): (dto: ItemDto)
    ensures Equivalent(dto, item)
  {
    ItemDto(item.id, item.name, item.price, item.createDate)
  }

  /** `Map(ItemDto)`: DTO back to entity (the reverse map). */
  function ToItem(dto: ItemDto): (item: Item)
    ensures Equivalent(dto, item)
  {
    Item(dto.id, dto.name, dto.price, dto.createDate)
  }

  /** `Map(IEnumerable<Item>)`: one DTO per entity, in the same order. */
  function MapAll(items: seq<Item>): (dtos: seq<ItemDto>)
    ensures |dtos| == |items|
    ensures forall i :: 0 <= i < |items| ==> Equivalent(dtos[i], items[i])
  {
    if items == [] then [] else [ToDto(items[0])] + MapAll(items[1..])
  }

  /** The two directions of the mapping undo each other. */
  lemma RoundTrip(item: Item, dto: ItemDto)
    ensures ToItem(ToDto(item)) == item
    ensures ToDto(ToItem(dto)) == dto
  {
  }
}
