/** The item repository: the `items` table as a finite map from `id` to the
    rest of the row, and each repository call as a pure transition that
    returns its result together with the table afterwards.

    The store supplies what the repository cannot compute: a fresh `id` and
    the `created_at` instant of an insert are parameters of `Create`, and
    whether the store answers at all is the `Link` every call takes. */
module Db {
  import opened Wrappers
  import opened Models
  import opened Ordering

  /** The four values a write binds: `$1..$4` of both the INSERT and the
      UPDATE. They are exactly the columns a caller can influence. */
  datatype Values = Values(
    name: string,
    description: Option<string>,
    quantity: Int32,
    price: Price)

  /** What the table keeps under a primary key: the bound values and the
      insertion instant. */
  datatype Row = Row(values: Values, createdAt: Timestamp)

  /** The `items` table, keyed by `id`. */
  type Store = map<Int32, Row>

  /** The two error kinds of the layer: a failure of the store itself, and a
      missing connection setting. Repository calls only ever raise the
      first; the second comes from acquiring the pool. */
  datatype DbError = Sqlx(cause: string) | EnvVar(cause: string)

  /** Whether the store answers queries: `Down` makes the first query of a
      call fail with `cause`. */
  datatype Link = Up | Down(cause: string)

  /** A call's outcome and the table it leaves behind. */
  datatype Step<T> = Step(result: Result<T, DbError>, store: Store)

  /** The record `SELECT ... WHERE id = $1` (or `RETURNING ...`) yields for
      the row stored under `id`: every column, `id` included. */
  function ItemOf(id: Int32, row: Row): (r: Item)
    ensures r.id == id && r.createdAt == row.createdAt
    ensures ValuesOf(r) == row.values
  {
    Item(id, row.values.name, row.values.description,
         row.values.quantity, row.values.price, row.createdAt)
  }

  /** The caller-controlled columns of a record. */
  function ValuesOf(item: Item): Values {
    Values(item.name, item.description, item.quantity, item.price)
  }

  /** `items` holds the record `item`, under its own id. */
  ghost predicate Holds(s: Store, item: Item) {
    item.id in s && ItemOf(item.id, s[item.id]) == item
  }

  /** `items` lists the whole table as `SELECT ... ORDER BY id` does: every
      row exactly once, as a full record, in strictly ascending `id`. */
  ghost predicate IsListing(s: Store, items: seq<Item>) {
    && |items| == |s|
    && (forall i :: 0 <= i < |items| ==> Holds(s, items[i]))
    && (forall i, j :: 0 <= i < j < |items| ==> items[i].id < items[j].id)
    && (forall id :: id in s ==> exists i :: 0 <= i < |items| && items[i].id == id)
  }

  // --- Pure rules applied around the queries ---

  /** The values `create_item` inserts: `quantity` and `price` default to 0
      when omitted; `name` and `description` go in as given, so an omitted
      description is stored as absent, not as empty text. */
  function ResolveCreate(input: CreateItem): (v: Values)
    ensures v.name == input.name && v.description == input.description
    ensures input.quantity.Some? ==> v.quantity == input.quantity.value
    ensures input.quantity.None? ==> v.quantity == 0
    ensures input.price.Some? ==> v.price == input.price.value
    ensures input.price.None? ==> v.price == 0
  {
    Values(input.name, input.description,
           input.quantity.GetOr(0), input.price.GetOr(0))
  }

  /** The values `update_item` writes back over `existing`: each field the
      input supplies replaces the current one, each field it omits keeps it.
      Omitting `description` therefore cannot clear a present description. */
  function Merge(existing: Item, input: UpdateItem): (v: Values)
    ensures input.name.Some? ==> v.name == input.name.value
    ensures input.name.None? ==> v.name == existing.name
    ensures input.description.Some? ==> v.description == input.description
    ensures input.description.None? ==> v.description == existing.description
    ensures input.quantity.Some? ==> v.quantity == input.quantity.value
    ensures input.quantity.None? ==> v.quantity == existing.quantity
    ensures input.price.Some? ==> v.price == input.price.value
    ensures input.price.None? ==> v.price == existing.price
    ensures existing.description.Some? ==> v.description.Some?
  {
    Values(input.name.GetOr(existing.name),
           input.description.Or(existing.description),
           input.quantity.GetOr(existing.quantity),
           input.price.GetOr(existing.price))
  }

  // --- Repository operations ---

  /** `list_items`: every row, ordered by `id`; an empty table gives an
      empty listing, not an error. */
  method List(link: Link, s: Store) returns (r: Step<seq<Item>>)
    ensures r.store == s
    ensures r.result.Err? <==> link.Down?
    ensures r.result.Err? ==> r.result.error == Sqlx(link.cause)
    ensures r.result.Ok? ==> IsListing(s, r.result.value)
  {
    if link.Down? {
      return Step(Err(Sqlx(link.cause)), s);
    }
    var ids := SortKeys(s.Keys);
    var items := seq(|ids|, i requires 0 <= i < |ids| => ItemOf(ids[i], s[ids[i]]));
    forall id | id in s
      ensures exists i :: 0 <= i < |items| && items[i].id == id
    {
      var i :| 0 <= i < |ids| && ids[i] == id;
      assert items[i].id == id;
    }
    return Step(Ok(items), s);
  }

  /** `get_item`: the record stored under `id`, or `None` when there is no
      such row. A missing row is a successful answer, never an error. */
  function Get(link: Link, s: Store, id: Int32): (r: Step<Option<Item>>)
    ensures r.store == s
    ensures r.result.Err? <==> link.Down?
    ensures r.result.Err? ==> r.result.error == Sqlx(link.cause)
    ensures r.result.Ok? ==> (r.result.value.Some? <==> id in s)
    ensures r.result.Ok? && r.result.value.Some? ==>
              r.result.value.value.id == id && Holds(s, r.result.value.value)
  {
    if link.Down? then Step(Err(Sqlx(link.cause)), s)
    else if id in s then Step(Ok(Some(ItemOf(id, s[id]))), s)
    else Step(Ok(None), s)
  }

  /** `create_item`: inserts the defaulted input under the store-assigned
      `id` (which must be free) stamped `createdAt`, and returns the row as
      persisted. Every other row is untouched. */
  function Create(link: Link, s: Store, input: CreateItem, id: Int32, createdAt: Timestamp)
    : (r: Step<Item>)
    requires id !in s
    ensures r.result.Err? <==> link.Down?
    ensures r.result.Err? ==> r.result.error == Sqlx(link.cause)
    ensures r.result.Err? ==> r.store == s
    ensures r.result.Ok? ==>
              var item := r.result.value;
              && item.id == id && item.createdAt == createdAt
              && item.name == input.name && item.description == input.description
              && item.quantity == input.quantity.GetOr(0)
              && item.price == input.price.GetOr(0)
              && Holds(r.store, item)
              && r.store.Keys == s.Keys + {id}
              && (forall k :: k in s ==> r.store[k] == s[k])
  {
    if link.Down? then Step(Err(Sqlx(link.cause)), s)
    else
      var s' := s[id := Row(ResolveCreate(input), createdAt)];
      Step(Ok(ItemOf(id, s'[id])), s')
  }

  /** `update_item`: reads the row; when there is none, answers `None` and
      writes nothing; otherwise overwrites all four mutable columns with the
      merged values and returns the row as persisted. `id`, `createdAt` and
      every other row are untouched. */
  function Update(link: Link, s: Store, id: Int32, input: UpdateItem): (r: Step<Option<Item>>)
    ensures r.result.Err? <==> link.Down?
    ensures r.result.Err? ==> r.result.error == Sqlx(link.cause)
    ensures r.result.Err? ==> r.store == s
    ensures r.result.Ok? ==> (r.result.value.Some? <==> id in s)
    ensures r.result.Ok? && id !in s ==> r.store == s
    ensures r.result.Ok? && id in s ==>
              var item := r.result.value.value;
              && item.id == id && item.createdAt == s[id].createdAt
              && ValuesOf(item) == Merge(ItemOf(id, s[id]), input)
              && Holds(r.store, item)
              && r.store.Keys == s.Keys
              && (forall k :: k in s && k != id ==> r.store[k] == s[k])
  {
    var read := Get(link, s, id);
    match read.result
    case Err(e) => Step(Err(e), s)
    case Ok(None) => Step(Ok(None), s)
    case Ok(Some(existing)) =>
      var s' := s[id := s[id].(values := Merge(existing, input))];
      Step(Ok(Some(ItemOf(id, s'[id]))), s')
  }

  /** `delete_item`: removes the row under `id`, if any, and reports whether
      one was removed. A missing row is `false`, never an error. */
  function Delete(link: Link, s: Store, id: Int32): (r: Step<bool>)
    ensures r.result.Err? <==> link.Down?
    ensures r.result.Err? ==> r.result.error == Sqlx(link.cause)
    ensures r.result.Err? ==> r.store == s
    ensures r.result.Ok? ==>
              && (r.result.value <==> id in s)
              && r.store.Keys == s.Keys - {id}
              && (forall k :: k in r.store ==> r.store[k] == s[k])
  {
    if link.Down? then Step(Err(Sqlx(link.cause)), s)
    else Step(Ok(id in s), s - {id})
  }
}
