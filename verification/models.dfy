/** The record shapes of the item service: the persisted `Item` and the two
    transient inputs `CreateItem` and `UpdateItem`. Which fields are optional
    is carried by the types: an `Option` field may be absent, every other
    field is always present. */
module Models {
  import opened Wrappers

  /** Rust's `i32`, used for `id` and `quantity`. */
  type Int32 = x: int | -0x8000_0000 <= x < 0x8000_0000

  /** The monetary `price`, in hundredths (the table keeps two decimals). */
  type Price = int

  /** The `created_at` timestamp, as an abstract instant. */
  type Timestamp = int

  /** A row of the `items` table as the queries return it. Only
      `description` may be absent, and an absent description (`None`) is a
      different value from an empty one (`Some("")`). */
  datatype Item = Item(
    id: Int32,
    name: string,
    description: Option<string>,
    quantity: Int32,
    price: Price,
    createdAt: Timestamp)

  /** Input of a creation. `name` is mandatory; the rest may be omitted.
      There is no `id` and no `createdAt`: the store assigns both. */
  datatype CreateItem = CreateItem(
    name: string,
    description: Option<string>,
    quantity: Option<Int32>,
    price: Option<Price>)

  /** Input of a partial update: every field may be omitted. There is no `id`
      and no `createdAt`, so an update can never change either. */
  datatype UpdateItem = UpdateItem(
    name: Option<string>,
    description: Option<string>,
    quantity: Option<Int32>,
    price: Option<Price>)

  /** The update that supplies no field at all. */
  const NoChanges: UpdateItem := UpdateItem(None, None, None, None)
}
