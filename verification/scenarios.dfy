/**
 * Properties that relate several handler calls: a write followed by a read,
 * a write followed by its undoing, and concrete request sequences.
 */
module Scenarios {
  import opened Optional
  import opened Domain
  import opened Requests
  import Annotations
  import Repository
  import opened Outcomes
  import Commands
  import Queries

  type Table = Repository.Table

  /** A product created can be read back under the key its response carries,
      and the read answers the same response. */
  lemma CreateThenGet(request: Option<CreateProductCommand>, caller: Caller, now: Time, t: Table)
    requires Commands.CreateProduct(request, caller, now, t).outcome.Ok?
    ensures var h := Commands.CreateProduct(request, caller, now, t);
            Queries.GetProductByKey(Some(GetProductByKeyQuery(Some(ResponseKey(h.outcome.value)))), h.table).outcome
              == Ok(h.outcome.value)
  {
    var h := Commands.CreateProduct(request, caller, now, t);
    var key := ResponseKey(h.outcome.value);
    var g := Queries.GetProductByKey(Some(GetProductByKeyQuery(Some(key))), h.table);
    assert key == Commands.CreatedKey(now, caller);
    ResponseRoundTrip(h.outcome.value);
    ResponseRoundTrip(g.outcome.value);
  }

  /** After an update, a read by the same key answers what the update answered. */
  lemma UpdateThenGet(request: Option<UpdateProductCommand>, t: Table)
    requires Commands.UpdateProduct(request, t).outcome.Ok?
    ensures var h := Commands.UpdateProduct(request, t);
            Queries.GetProductByKey(Some(GetProductByKeyQuery(request.value.productKey)), h.table).outcome
              == Ok(h.outcome.value)
  {
    var h := Commands.UpdateProduct(request, t);
    var g := Queries.GetProductByKey(Some(GetProductByKeyQuery(request.value.productKey)), h.table);
    ResponseRoundTrip(g.outcome.value);
  }

  /** Sending the same update twice stores the same as sending it once. */
  lemma UpdateIsIdempotent(request: Option<UpdateProductCommand>, t: Table)
    requires Commands.UpdateProduct(request, t).outcome.Ok?
    ensures var once := Commands.UpdateProduct(request, t);
            var twice := Commands.UpdateProduct(request, once.table);
            && twice.outcome == once.outcome
            && Repository.AsMap(twice.table) == Repository.AsMap(once.table)
  {
  }

  /** After a delete, the key is gone: a read and a second delete both
      answer null. */
  lemma DeleteThenGet(request: Option<DeleteProductCommand>, t: Table)
    requires Commands.DeleteProduct(request, t).outcome.Ok?
    ensures var h := Commands.DeleteProduct(request, t);
            && Queries.GetProductByKey(Some(GetProductByKeyQuery(request.value.productKey)), h.table).outcome.NotFound?
            && Commands.DeleteProduct(request, h.table).outcome.NotFound?
  {
  }

  /** Deleting what was just created restores the stored products. */
  lemma CreateThenDelete(request: Option<CreateProductCommand>, caller: Caller, now: Time, t: Table)
    requires Commands.CreateProduct(request, caller, now, t).outcome.Ok?
    ensures var h := Commands.CreateProduct(request, caller, now, t);
            var d := Commands.DeleteProduct(Some(DeleteProductCommand(Some(ResponseKey(h.outcome.value)))), h.table);
            && d.outcome == Ok(true)
            && Repository.AsMap(d.table) == Repository.AsMap(t)
  {
    var h := Commands.CreateProduct(request, caller, now, t);
    var key := Commands.CreatedKey(now, caller);
    assert ResponseKey(h.outcome.value) == key;
    assert key !in Repository.AsMap(t);
    assert Repository.AsMap(h.table) - {key} == Repository.AsMap(t);
  }

  /** A Name with a visible first character and at most fifty characters
      passes the create annotations. */
  lemma PlainNameIsValid(name: string, isAvailable: bool)
    requires 0 < |name| <= NameMaxLength && !Annotations.IsWhiteSpace(name[0])
    ensures ValidCreateCommand(CreateProductCommand(Some(name), Some(isAvailable)))
  {
  }

  const Alice: Caller := Caller(Some("alice@example.com"), Some("09120000000"))
  const Bob: Caller := Caller(Some("bob@example.com"), None)

  /** Creating a second product with a stored Name is refused and changes nothing. */
  lemma CreateRefusesTakenName()
    ensures var first := Commands.CreateProduct(Some(CreateProductCommand(Some("Lamp"), Some(true))), Alice, 1, []);
            && first.outcome.Ok?
            && var second := Commands.CreateProduct(Some(CreateProductCommand(Some("Lamp"), Some(false))), Bob, 2, first.table);
            && second.outcome == ArgInvalid
            && second.table == first.table
  {
    PlainNameIsValid("Lamp", true);
    PlainNameIsValid("Lamp", false);
    var first := Commands.CreateProduct(Some(CreateProductCommand(Some("Lamp"), Some(true))), Alice, 1, []);
    assert "Lamp" in Repository.Names(first.table) by {
      assert first.table[0].name == "Lamp";
    }
  }

  /** A caller whose identity has no name creates a product with a null
      email; the store refuses it and nothing is stored. */
  lemma CreateWithoutIdentityIsRejected()
    ensures var h := Commands.CreateProduct(Some(CreateProductCommand(Some("Lamp"), Some(true))), Caller(None, None), 1, []);
            h.outcome == StoreRejected && h.table == []
  {
    PlainNameIsValid("Lamp", true);
  }

  /** Update compares no names: renaming a product to another's Name is
      accepted and leaves two products with that Name. */
  lemma UpdateCanRepeatName()
    ensures var a := Commands.CreateProduct(Some(CreateProductCommand(Some("Lamp"), Some(true))), Alice, 1, []);
            && a.outcome.Ok?
            && var b := Commands.CreateProduct(Some(CreateProductCommand(Some("Desk"), Some(true))), Bob, 2, a.table);
            && b.outcome.Ok?
            && Repository.DistinctNames(b.table)
            && var u := Commands.UpdateProduct(
                 Some(UpdateProductCommand(Some(Commands.CreatedKey(2, Bob)), Some("Lamp"), Some(true))), b.table);
            && u.outcome.Ok?
            && !Repository.DistinctNames(u.table)
  {
    var lamp, desk := LampAndDesk();
    var t := [lamp, desk];
    var key := Commands.CreatedKey(2, Bob);
    assert Repository.AsMap(t) == map[key := desk][KeyOf(lamp) := lamp];
    var u := Commands.UpdateProduct(Some(UpdateProductCommand(Some(key), Some("Lamp"), Some(true))), t);
    var renamed := Repository.ApplyUpdate(desk, Stamp("Lamp", true, 2, Bob));
    assert Repository.AsMap(u.table) == Repository.AsMap(t)[key := renamed];
    Repository.MapViewOfRows(u.table);
    assert Repository.AsMap(u.table)[KeyOf(lamp)] == lamp;
    Repository.SharedNameBreaksDistinctNames(u.table, lamp, renamed);
  }

  /** Under the reading that Entity Framework skips key properties, the
      update as written renames too: renaming a product to another's Name
      is accepted and leaves two products with that Name. */
  lemma SkippingKeysCanRepeatName()
    ensures var a := Commands.CreateProduct(Some(CreateProductCommand(Some("Lamp"), Some(true))), Alice, 1, []);
            && a.outcome.Ok?
            && var b := Commands.CreateProduct(Some(CreateProductCommand(Some("Desk"), Some(true))), Bob, 2, a.table);
            && b.outcome.Ok?
            && Repository.DistinctNames(b.table)
            && var u := Commands.UpdateSkippingKeys(
                 Some(UpdateProductCommand(Some(Commands.CreatedKey(2, Bob)), Some("Lamp"), Some(true))), b.table);
            && u.outcome.Ok?
            && !Repository.DistinctNames(u.table)
  {
    var lamp, desk := LampAndDesk();
    var t := [lamp, desk];
    var key := Commands.CreatedKey(2, Bob);
    assert Repository.AsMap(t) == map[key := desk][KeyOf(lamp) := lamp];
    var request := UpdateProductCommand(Some(key), Some("Lamp"), Some(true));
    var u := Commands.UpdateSkippingKeys(Some(request), t);
    var renamed := Repository.SetValuesSkippingKeys(desk, Commands.AdaptUpdateCommand(request));
    assert Repository.AsMap(u.table) == Repository.AsMap(t)[key := renamed];
    Repository.MapViewOfRows(u.table);
    assert Repository.AsMap(u.table)[KeyOf(lamp)] == lamp;
    Repository.SharedNameBreaksDistinctNames(u.table, lamp, renamed);
  }

  /** Alice creates "Lamp" on an empty store, then Bob creates "Desk": two
      rows, in creation order, with distinct Names. */
  lemma LampAndDesk() returns (lamp: Product, desk: Product)
    ensures lamp == Stamp("Lamp", true, 1, Alice) && desk == Stamp("Desk", true, 2, Bob)
    ensures var a := Commands.CreateProduct(Some(CreateProductCommand(Some("Lamp"), Some(true))), Alice, 1, []);
            && a.outcome.Ok? && a.table == [lamp]
            && var b := Commands.CreateProduct(Some(CreateProductCommand(Some("Desk"), Some(true))), Bob, 2, a.table);
            && b.outcome.Ok? && b.table == [lamp, desk]
            && Repository.DistinctNames(b.table)
  {
    lamp := Stamp("Lamp", true, 1, Alice);
    desk := Stamp("Desk", true, 2, Bob);
    PlainNameIsValid("Lamp", true);
    PlainNameIsValid("Desk", true);
    var a := Commands.CreateProduct(Some(CreateProductCommand(Some("Lamp"), Some(true))), Alice, 1, []);
    assert a.table == [lamp];
    assert "Desk" !in Repository.Names(a.table);
    var b := Commands.CreateProduct(Some(CreateProductCommand(Some("Desk"), Some(true))), Bob, 2, a.table);
    assert b.table == [lamp, desk];
  }

  /** Update checks no annotations: a Name longer than fifty characters,
      which create refuses, reaches the repository unchecked. */
  lemma UpdateStoresOverlongName(name: string)
    requires |name| > NameMaxLength
    ensures var a := Commands.CreateProduct(Some(CreateProductCommand(Some(name), Some(true))), Alice, 1, []);
            a.outcome == ArgInvalid
    ensures var a := Commands.CreateProduct(Some(CreateProductCommand(Some("Lamp"), Some(true))), Alice, 1, []);
            && a.outcome.Ok?
            && var u := Commands.UpdateProduct(
                 Some(UpdateProductCommand(Some(Commands.CreatedKey(1, Alice)), Some(name), None)), a.table);
            && u.outcome.Ok?
            && u.outcome.value.name == name
            && !u.outcome.value.isAvailable
  {
    PlainNameIsValid("Lamp", true);
  }
}
