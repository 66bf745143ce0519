/**
 * The create, update and delete command handlers. The clock, the caller's
 * identity name and the caller's phone number are parameters.
 */
module Commands {
  import opened Optional
  import opened Domain
  import opened Annotations
  import opened Requests
  import Repository
  import opened Outcomes

  type Table = Repository.Table

  /** The key a create stamps: the caller's identity at the current time.
      A caller without an identity name gives a key with a null email. */
  function CreatedKey(now: Time, caller: Caller): ProductKey {
    ProductKey(now, caller.identityName)
  }

  /** CreateProductCommandHandler.Handle. Checks, first failure wins: null
      request, null or empty Name, the command's annotations, a stored
      product with the same Name. Then the stamped product is added and read
      back by its key; the store refuses a null email or a taken key. */
  function CreateProduct(request: Option<CreateProductCommand>, caller: Caller, now: Time, t: Table)
    : (h: Handled<ProductResponse>)
    ensures h.outcome.ArgNull? <==> request.None? || request.value.name.None?
    ensures h.outcome.ArgInvalid? <==>
              && request.Some? && request.value.name.Some?
              && (!ValidCreateCommand(request.value) || request.value.name.value in Repository.Names(t))
    ensures h.outcome.StoreRejected? <==>
              && request.Some? && ValidCreateCommand(request.value)
              && request.value.name.value !in Repository.Names(t)
              && (caller.identityName.None? || CreatedKey(now, caller) in Repository.AsMap(t))
    ensures h.outcome.IsArgumentError() <==>
              || request.None? || request.value.name.None?
              || !ValidCreateCommand(request.value) || request.value.name.value in Repository.Names(t)
    ensures !h.outcome.NotFound?
    ensures !h.outcome.Ok? ==> h.table == t
    ensures h.outcome.Ok? ==>
              && request.Some? && ValidCreateCommand(request.value)
              && var p := Stamp(request.value.name.value, request.value.isAvailable.value, now, caller);
              && caller.identityName.Some?
              && h.outcome.value == ToResponse(p)
              && Repository.AsMap(h.table) == Repository.AsMap(t)[CreatedKey(now, caller) := p]
    ensures Repository.ValidTable(t) ==> Repository.ValidTable(h.table)
    ensures Repository.DistinctNames(t) ==> Repository.DistinctNames(h.table)
  {
    if request.None? then Handled(ArgNull, t)
    else
      var c := request.value;
      if c.name.None? then Handled(ArgNull, t)
      else if |c.name.value| == 0 then Handled(ArgInvalid, t)
      else if |CreateCommandErrors(c)| > 0 then Handled(ArgInvalid, t)
      else if Repository.NameTaken(t, c.name.value) then Handled(ArgInvalid, t)
      else
        var p := Stamp(c.name.value, c.isAvailable.value, now, caller);
        match Repository.AddProduct(t, p)
        case None => Handled(StoreRejected, t)
        case Some(saved) =>
          match Repository.GetProductByKey(saved.table, KeyOf(p))
          case None => Handled(NotFound, saved.table)
          case Some(stored) => Handled(Ok(ToResponse(stored)), saved.table)
  }

  /** The guards update applies before the lookup: a request, a key, and a
      Name that is neither null nor empty. */
  predicate PassesUpdateGuards(request: Option<UpdateProductCommand>) {
    request.Some? && request.value.productKey.Some? && !IsNullOrEmpty(request.value.name)
  }

  /** `request.Adapt<Product>()` for an update command: Name and IsAvailable
      are copied; the members the command lacks keep their defaults. */
  function AdaptUpdateCommand(c: UpdateProductCommand): (p: Product)
    requires c.name.Some?
    ensures KeyOf(p) == ProductKey(MinTime, None) && p.manufacturePhone.None?
    ensures p.name == c.name.value && p.isAvailable == c.isAvailable.GetOr(false)
  {
    Product(c.name.value, MinTime, None, None, c.isAvailable.GetOr(false))
  }

  /** UpdateProductCommandHandler.Handle. A missing request or key is an
      `ArgumentNullException`, so is a null Name; an empty Name an
      `ArgumentException`; a key miss answers null; otherwise the stored
      row takes the request's Name and IsAvailable. The command's own
      annotations are not checked and names are not compared. */
  function UpdateProduct(request: Option<UpdateProductCommand>, t: Table): (h: Handled<ProductResponse>)
    ensures h.outcome.ArgNull? <==>
              request.None? || request.value.productKey.None? || request.value.name.None?
    ensures h.outcome.ArgInvalid? <==>
              request.Some? && request.value.productKey.Some? && request.value.name == Some("")
    ensures h.outcome.NotFound? <==>
              PassesUpdateGuards(request) && request.value.productKey.value !in Repository.AsMap(t)
    ensures h.outcome.Ok? <==>
              PassesUpdateGuards(request) && request.value.productKey.value in Repository.AsMap(t)
    ensures !h.outcome.Ok? ==> h.table == t
    ensures h.outcome.Ok? ==>
              && PassesUpdateGuards(request)
              && var key := request.value.productKey.value;
              && key in Repository.AsMap(t)
              && var after := Repository.ApplyUpdate(Repository.AsMap(t)[key], AdaptUpdateCommand(request.value));
              && Repository.AsMap(h.table) == Repository.AsMap(t)[key := after]
              && h.outcome.value == ToResponse(after)
    ensures Repository.ValidTable(t) ==> Repository.ValidTable(h.table)
  {
    if request.None? || request.value.productKey.None? then Handled(ArgNull, t)
    else
      var c := request.value;
      if c.name.None? then Handled(ArgNull, t)
      else if |c.name.value| == 0 then Handled(ArgInvalid, t)
      else
        match Repository.GetProductByKey(t, c.productKey.value)
        case None => Handled(NotFound, t)
        case Some(existing) =>
          Repository.MapViewOfRows(t);
          match Repository.UpdateProduct(t, existing, AdaptUpdateCommand(c))
          case None => Handled(StoreRejected, t)
          case Some(saved) => Handled(Ok(ToResponse(saved.entity)), saved.table)
  }

  /** UpdateProductCommandHandler.Handle over the repository update as
      written, under the reading that Entity Framework refuses to modify a
      key property. The guards and the lookup are those of `UpdateProduct`;
      the save goes through only when the stored key is the adapted
      command's default key. */
  function UpdateRefusingKeyChange(request: Option<UpdateProductCommand>, t: Table): (h: Handled<ProductResponse>)
    ensures h.outcome.ArgNull? <==> UpdateProduct(request, t).outcome.ArgNull?
    ensures h.outcome.ArgInvalid? <==> UpdateProduct(request, t).outcome.ArgInvalid?
    ensures h.outcome.NotFound? <==> UpdateProduct(request, t).outcome.NotFound?
    ensures h.outcome.StoreRejected? <==>
              UpdateProduct(request, t).outcome.Ok? && request.value.productKey.value != ProductKey(MinTime, None)
    ensures h.outcome.Ok? ==> h.outcome.value == ToResponse(AdaptUpdateCommand(request.value))
    ensures !h.outcome.Ok? ==> h.table == t
    ensures Repository.ValidTable(t) ==> Repository.ValidTable(h.table)
  {
    if request.None? || request.value.productKey.None? then Handled(ArgNull, t)
    else
      var c := request.value;
      if c.name.None? then Handled(ArgNull, t)
      else if |c.name.value| == 0 then Handled(ArgInvalid, t)
      else
        match Repository.GetProductByKey(t, c.productKey.value)
        case None => Handled(NotFound, t)
        case Some(existing) =>
          match Repository.UpdateRefusingKeyChange(t, existing, AdaptUpdateCommand(c))
          case None => Handled(StoreRejected, t)
          case Some(saved) => Handled(Ok(ToResponse(saved.entity)), saved.table)
  }

  /** UpdateProductCommandHandler.Handle over the repository update as
      written, under the reading that Entity Framework skips key properties
      when it copies values. The guards and the lookup are those of
      `UpdateProduct`; a found row keeps its key, takes the request's Name
      and IsAvailable, and takes the adapted command's null phone. */
  function UpdateSkippingKeys(request: Option<UpdateProductCommand>, t: Table): (h: Handled<ProductResponse>)
    ensures h.outcome.ArgNull? <==> UpdateProduct(request, t).outcome.ArgNull?
    ensures h.outcome.ArgInvalid? <==> UpdateProduct(request, t).outcome.ArgInvalid?
    ensures h.outcome.NotFound? <==> UpdateProduct(request, t).outcome.NotFound?
    ensures h.outcome.Ok? <==> UpdateProduct(request, t).outcome.Ok?
    ensures !h.outcome.Ok? ==> h.table == t
    ensures h.outcome.Ok? ==>
              && var key := request.value.productKey.value;
              && key in Repository.AsMap(t)
              && var after := Repository.SetValuesSkippingKeys(Repository.AsMap(t)[key], AdaptUpdateCommand(request.value));
              && Repository.AsMap(h.table) == Repository.AsMap(t)[key := after]
              && h.outcome.value == ToResponse(after)
              && ResponseKey(h.outcome.value) == key
              && h.outcome.value.manufacturePhone.None?
    ensures Repository.ValidTable(t) ==> Repository.ValidTable(h.table)
  {
    if request.None? || request.value.productKey.None? then Handled(ArgNull, t)
    else
      var c := request.value;
      if c.name.None? then Handled(ArgNull, t)
      else if |c.name.value| == 0 then Handled(ArgInvalid, t)
      else
        match Repository.GetProductByKey(t, c.productKey.value)
        case None => Handled(NotFound, t)
        case Some(existing) =>
          Repository.MapViewOfRows(t);
          match Repository.UpdateSkippingKeys(t, existing, AdaptUpdateCommand(c))
          case None => Handled(StoreRejected, t)
          case Some(saved) => Handled(Ok(ToResponse(saved.entity)), saved.table)
  }

  /** Whichever way Entity Framework treats the key fields, the update as
      written does not answer what the intended update answers for a stored
      product with a phone: refusing the key change ends in an exception,
      skipping the key fields answers (and stores) a null phone. */
  lemma UpdateAsWrittenMissesExpected(request: Option<UpdateProductCommand>, t: Table)
    requires Repository.ValidTable(t)
    requires PassesUpdateGuards(request) && request.value.productKey.value in Repository.AsMap(t)
    requires Repository.AsMap(t)[request.value.productKey.value].manufacturePhone.Some?
    ensures var stored := Repository.AsMap(t)[request.value.productKey.value];
            var expected := Ok(ToResponse(Repository.ApplyUpdate(stored, AdaptUpdateCommand(request.value))));
            && UpdateRefusingKeyChange(request, t).outcome != expected
            && UpdateSkippingKeys(request, t).outcome != expected
  {
  }

  /** Under the key-skipping reading, the update as written stores and
      answers exactly what the intended update does, unless the found row
      has a phone. */
  lemma SkippingKeysDiffersOnlyInPhone(request: Option<UpdateProductCommand>, t: Table)
    ensures UpdateSkippingKeys(request, t) == UpdateProduct(request, t) <==>
              || !UpdateProduct(request, t).outcome.Ok?
              || Repository.AsMap(t)[request.value.productKey.value].manufacturePhone.None?
  {
  }

  /** Under the reading that a key change is refused, on a valid table every
      update that finds its row fails in the store and leaves the table
      unchanged: the stored key has an email, the adapted command's key has
      none. */
  lemma RefusingKeyChangeFails(request: Option<UpdateProductCommand>, t: Table)
    requires Repository.ValidTable(t)
    requires UpdateProduct(request, t).outcome.Ok?
    ensures var h := UpdateRefusingKeyChange(request, t);
            h.outcome == StoreRejected && h.table == t
  {
    var key := request.value.productKey.value;
    Repository.MapViewOfRows(t);
    assert Repository.AsMap(t)[key] in t;
  }

  /** Under the reading that a key change is refused, Names stay distinct:
      on a valid store the update never writes, so no rename can repeat a
      Name. Under the key-skipping reading they need not stay distinct. */
  lemma RefusingKeyChangeKeepsDistinctNames(request: Option<UpdateProductCommand>, t: Table)
    ensures Repository.ValidTable(t) && Repository.DistinctNames(t) ==>
              Repository.DistinctNames(UpdateRefusingKeyChange(request, t).table)
  {
    if Repository.ValidTable(t) && UpdateProduct(request, t).outcome.Ok? {
      RefusingKeyChangeFails(request, t);
    }
  }

  /** The corrected update of a found row answers with the requested key
      and the stored phone, and the row stays under its key. */
  lemma UpdateKeepsKeyAndPhone(request: Option<UpdateProductCommand>, t: Table)
    requires UpdateProduct(request, t).outcome.Ok?
    ensures var key := request.value.productKey.value;
            var h := UpdateProduct(request, t);
            && ResponseKey(h.outcome.value) == key
            && h.outcome.value.manufacturePhone == Repository.AsMap(t)[key].manufacturePhone
            && key in Repository.AsMap(h.table)
  {
    Repository.MapViewOfRows(t);
  }

  /** DeleteProductCommandHandler.Handle. A missing request or key is an
      `ArgumentNullException`; a key miss answers null; otherwise the
      repository's delete result. */
  function DeleteProduct(request: Option<DeleteProductCommand>, t: Table): (h: Handled<bool>)
    ensures h.outcome.ArgNull? <==> request.None? || request.value.productKey.None?
    ensures h.outcome.NotFound? <==>
              request.Some? && request.value.productKey.Some?
              && request.value.productKey.value !in Repository.AsMap(t)
    ensures h.outcome.Ok? <==>
              request.Some? && request.value.productKey.Some?
              && request.value.productKey.value in Repository.AsMap(t)
    ensures !h.outcome.Ok? ==> h.table == t
    ensures h.outcome.Ok? ==>
              && h.outcome.value
              && Repository.AsMap(h.table) == Repository.AsMap(t) - {request.value.productKey.value}
    ensures Repository.ValidTable(t) ==> Repository.ValidTable(h.table)
    ensures Repository.DistinctNames(t) ==> Repository.DistinctNames(h.table)
  {
    if request.None? || request.value.productKey.None? then Handled(ArgNull, t)
    else
      match Repository.GetProductByKey(t, request.value.productKey.value)
      case None => Handled(NotFound, t)
      case Some(product) =>
        var d := Repository.DeleteProduct(t, product);
        Handled(Ok(d.result), d.table)
  }
}
