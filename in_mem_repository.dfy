/** The in-memory repository: a list of items used as a table keyed by id,
    seeded with three fixtures and edited in place. */
module InMemRepository {
  import opened Entities
  import opened ItemTable

  class InMemItemsRespository {
    /** The backing `List<Item>`, in insertion order. */
    var items: seq<Item>

    /** The invariant the lookups rely on: ids are unique. */
    ghost predicate Valid()
      reads this
    {
      UniqueIds(items)
    }

    /** The seeded store. The three ids and timestamps are the values
        `Guid.NewGuid()` and `DateTimeOffset.UtcNow` return. */
    constructor (id0: Guid, id1: Guid, id2: Guid, now0: Timestamp, now1: Timestamp, now2: Timestamp)
      ensures items == [Item(id0, "Potion", 9, now0),
                        Item(id1, "Iron sword", 20, now1),
                        Item(id2, "Bronze Shield", 19, now2)]
      ensures Valid() <==> id0 != id1 && id0 != id2 && id1 != id2
    {
      var seed := [Item(id0, "Potion", 9, now0),
                   Item(id1, "Iron sword", 20, now1),
                   Item(id2, "Bronze Shield", 19, now2)];
      assert seed[0].id == id0 && seed[1].id == id1 && seed[2].id == id2;
      items := seed;
    }

    /** Every stored item, in insertion order. */
    method GetItems() returns (all: seq<Item>)
      ensures all == items
    {
      all := items;
    }

    /** `List.FindIndex`: a scan for the first item with id `id`. */
    method FindIndex(id: Guid) returns (index: int)
      ensures -1 <= index < |items|
      ensures index == -1 <==> !HasId(items, id)
      ensures 0 <= index ==> items[index].id == id
      ensures forall i :: 0 <= i < index ==> items[i].id != id
      ensures index == IndexOf(items, id)
    {
      index := 0;
      while index < |items|
        invariant 0 <= index <= |items|
        invariant forall i :: 0 <= i < index ==> items[i].id != id
      {
        if items[index].id == id {
          return;
        }
        index := index + 1;
      }
      index := -1;
    }

    /** `Where(item => item.Id == id).SingleOrDefault()`: the scan stops
        with an exception at the second match. */
    method GetItem(id: Guid) returns (r: Result<Option<Item>>)
      ensures r == Success(None) <==> !HasId(items, id)
      ensures r.Failure? <==> DuplicateId(items, id)
      ensures Valid() ==> r.Success?
      ensures r == SingleOrDefault(items, id)
    {
      var found: Option<Item> := None;
      var i := 0;
      while i < |items|
        invariant 0 <= i <= |items|
        invariant Matches(items[..i], id) == if found.None? then [] else [found.value]
      {
        MatchesPrefixStep(items, i, id);
        if items[i].id == id {
          if found.Some? {
            MatchesPrefix(items, i + 1, id);
            LookupFailsIffDuplicate(items, id);
            return Failure(MoreThanOneMatch);
          }
          found := Some(items[i]);
        }
        i := i + 1;
      }
      assert items[..i] == items;
      LookupFailsIffDuplicate(items, id);
      r := Success(found);
      if Valid() {
        LookupUnique(items, id);
      }
    }

    /** `List.Add`: append, with no check that the id is fresh. */
    method CreateItem(item: Item)
      modifies this
      ensures items == old(items) + [item]
      ensures Valid() <==> old(Valid()) && !HasId(old(items), item.id)
    {
      AppendUnique(items, item);
      items := items + [item];
    }

    /** `_items[FindIndex(...)] = item`: overwrite in place; a missing id
        makes the index -1 and the store throws before changing anything. */
    method UpdateItem(item: Item) returns (status: Status)
      modifies this
      ensures status == Completed <==> HasId(old(items), item.id)
      ensures status.Threw? ==> status.error == ArgumentOutOfRange && items == old(items)
      ensures status == Completed ==> items == Replace(old(items), item).value
      ensures Valid() <==> old(Valid())
    {
      var index := FindIndex(item.id);
      if index < 0 {
        return Threw(ArgumentOutOfRange);
      }
      ReplaceUnique(items, item);
      items := items[index := item];
      status := Completed;
    }

    /** `RemoveAt(FindIndex(...))`: remove in place; a missing id makes the
        index -1 and the store throws before changing anything. */
    method DeleteItem(id: Guid) returns (status: Status)
      modifies this
      ensures status == Completed <==> HasId(old(items), id)
      ensures status.Threw? ==> status.error == ArgumentOutOfRange && items == old(items)
      ensures status == Completed ==> items == Remove(old(items), id).value
      ensures old(Valid()) ==> Valid()
    {
      var index := FindIndex(id);
      if index < 0 {
        return Threw(ArgumentOutOfRange);
      }
      if Valid() {
        RemoveUnique(items, id);
      }
      items := items[..index] + items[index + 1..];
      status := Completed;
    }
  }
}
