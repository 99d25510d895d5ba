/** Properties that relate several repository calls: round trips between
    the writes and `Get`, the algebra of partial updates, the uniqueness of
    the `ORDER BY id` listing, and the end-to-end widget scenario. */
module Properties {
  import opened Wrappers
  import opened Models
  import opened Ordering
  import opened Db

  /** The ids of a listing, in order: a proof helper for `ListingUnique`,
      which compares listings through their id sequences. */
  function IdsOf(items: seq<Item>): (ids: seq<Int32>)
    ensures |ids| == |items|
    ensures forall i :: 0 <= i < |items| ==> ids[i] == items[i].id
  {
    seq(|items|, i requires 0 <= i < |items| => items[i].id)
  }

  /** A table has exactly one listing: whatever `List` returns is the one
      sequence `ORDER BY id` can produce. */
  lemma ListingUnique(s: Store, xs: seq<Item>, ys: seq<Item>)
    requires IsListing(s, xs) && IsListing(s, ys)
    ensures xs == ys
  {
    var a, b := IdsOf(xs), IdsOf(ys);
    forall x
      ensures x in a <==> x in b
    {
      if x in a {
        var i :| 0 <= i < |a| && a[i] == x;
        assert Holds(s, xs[i]);
        var j :| 0 <= j < |ys| && ys[j].id == x;
        assert b[j] == x;
      }
      if x in b {
        var j :| 0 <= j < |b| && b[j] == x;
        assert Holds(s, ys[j]);
        var i :| 0 <= i < |xs| && xs[i].id == x;
        assert a[i] == x;
      }
    }
    AscendingUnique(a, b);
    forall i | 0 <= i < |xs|
      ensures xs[i] == ys[i]
    {
      assert Holds(s, xs[i]) && Holds(s, ys[i]);
    }
  }

  /** A listing holds exactly the records `Get` finds. */
  lemma ListingAgreesWithGet(s: Store, xs: seq<Item>)
    requires IsListing(s, xs)
    ensures forall x :: x in xs <==> Get(Up, s, x.id).result == Ok(Some(x))
  {
  }

  /** Round trip: `Get` of a freshly created id returns the created record. */
  lemma CreateThenGet(s: Store, input: CreateItem, id: Int32, t: Timestamp)
    requires id !in s
    ensures var c := Create(Up, s, input, id, t);
            Get(Up, c.store, id).result == Ok(Some(c.result.value))
  {
  }

  /** Deleting what was just created restores the table exactly. */
  lemma CreateThenDelete(s: Store, input: CreateItem, id: Int32, t: Timestamp)
    requires id !in s
    ensures var d := Delete(Up, Create(Up, s, input, id, t).store, id);
            d.result == Ok(true) && d.store == s
  {
  }

  /** `Get` after an update sees exactly the record the update returned. */
  lemma UpdateThenGet(s: Store, id: Int32, input: UpdateItem)
    ensures var u := Update(Up, s, id, input);
            Get(Up, u.store, id).result == u.result
  {
  }

  /** The update that supplies nothing returns the existing record and
      leaves the table as it was. */
  lemma UpdateWithNoChanges(s: Store, id: Int32)
    ensures Update(Up, s, id, NoChanges) == Step(Get(Up, s, id).result, s)
  {
  }

  /** Supplying only `price` changes only the price. */
  lemma UpdatePriceOnly(s: Store, id: Int32, p: Price)
    requires id in s
    ensures var u := Update(Up, s, id, UpdateItem(None, None, None, Some(p)));
            u.result == Ok(Some(ItemOf(id, s[id]).(price := p)))
  {
  }

  /** No update can clear a present description: omitting it keeps it. */
  lemma UpdateKeepsDescription(s: Store, id: Int32, input: UpdateItem)
    requires id in s && s[id].values.description.Some?
    ensures Update(Up, s, id, input).store[id].values.description.Some?
  {
  }

  /** Repeating an update changes nothing further. */
  lemma UpdateTwice(s: Store, id: Int32, input: UpdateItem)
    ensures var once := Update(Up, s, id, input);
            Update(Up, once.store, id, input) == once
  {
  }

  /** The update whose supplied fields are those of `second`, falling back
      to those of `first`. */
  function Then(first: UpdateItem, second: UpdateItem): (u: UpdateItem)
    ensures second.name.Some? ==> u.name == second.name
    ensures second.name.None? ==> u.name == first.name
    ensures second.description.Some? ==> u.description == second.description
    ensures second.description.None? ==> u.description == first.description
    ensures second.quantity.Some? ==> u.quantity == second.quantity
    ensures second.quantity.None? ==> u.quantity == first.quantity
    ensures second.price.Some? ==> u.price == second.price
    ensures second.price.None? ==> u.price == first.price
  {
    UpdateItem(second.name.Or(first.name), second.description.Or(first.description),
               second.quantity.Or(first.quantity), second.price.Or(first.price))
  }

  /** Two successive updates of one row equal a single combined update. */
  lemma UpdateCompose(s: Store, id: Int32, first: UpdateItem, second: UpdateItem)
    ensures Update(Up, Update(Up, s, id, first).store, id, second)
            == Update(Up, s, id, Then(first, second))
  {
  }

  /** After a delete, `Get` finds nothing under that id; deleting again
      reports `false` and changes nothing. */
  lemma DeleteThenGet(s: Store, id: Int32)
    ensures var d := Delete(Up, s, id);
            && Get(Up, d.store, id).result == Ok(None)
            && Delete(Up, d.store, id) == Step(Ok(false), d.store)
  {
  }

  /** A failing store answers every call with an error and leaves the table
      as it was. */
  lemma FailureChangesNothing(s: Store, cause: string, id: Int32, input: UpdateItem,
                              create: CreateItem, t: Timestamp)
    ensures Get(Down(cause), s, id) == Step(Err(Sqlx(cause)), s)
    ensures id !in s ==> Create(Down(cause), s, create, id, t) == Step(Err(Sqlx(cause)), s)
    ensures Update(Down(cause), s, id, input) == Step(Err(Sqlx(cause)), s)
    ensures Delete(Down(cause), s, id) == Step(Err(Sqlx(cause)), s)
  {
  }

  /** Create a widget with no description, raise its price, delete it:
      each step answers as the service promises. */
  lemma WidgetScenario(s: Store, id: Int32, t: Timestamp)
    requires id !in s
    ensures var c := Create(Up, s, CreateItem("Widget", None, Some(5), Some(999)), id, t);
            var u := Update(Up, c.store, id, UpdateItem(None, None, None, Some(1250)));
            var d := Delete(Up, u.store, id);
            && c.result == Ok(Item(id, "Widget", None, 5, 999, t))
            && u.result == Ok(Some(Item(id, "Widget", None, 5, 1250, t)))
            && d.result == Ok(true)
            && Get(Up, d.store, id).result == Ok(None)
            && d.store == s
  {
  }
}
