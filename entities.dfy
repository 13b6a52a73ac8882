/** The records the items API stores and exchanges, and the failures its
    operations can raise. */
module Entities {

  /** A 128-bit identifier, as produced by `Guid.NewGuid()`. */
  newtype Guid = x: int | 0 <= x < 0x1_0000_0000_0000_0000_0000_0000_0000_0000

  /** A point in time (`DateTimeOffset`), counted in ticks. */
  type Timestamp = int

  /** The stored entity. */
  datatype Item = Item(id: Guid, name: string, price: int, createDate: Timestamp)

  /** The read projection returned to clients. */
  datatype ItemDto = ItemDto(id: Guid, name: string, price: int, createDate: Timestamp)

  /** The body of a create request: the server assigns id and creation date. */
  datatype CreateItemDto = CreateItemDto(name: string, price: int)

  /** The body of an update request. */
  datatype UpdateItemDto = UpdateItemDto(name: string, price: int)

  /** The exceptions the in-memory store can raise. */
  datatype Error =
    | MoreThanOneMatch    // SingleOrDefault saw a second matching element
    | ArgumentOutOfRange  // the list was indexed with -1

  datatype Option<T> = None | Some(value: T)

  /** A value, or the exception that was thrown instead. */
  datatype Result<T> = Success(value: T) | Failure(error: Error)

  /** How a `void` operation ended: normally, or with an exception. */
  datatype Status = Completed | Threw(error: Error)
}
