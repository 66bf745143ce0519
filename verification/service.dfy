/**
 * ProductService, the older variant of the create and query logic, built
 * from the same repository functions as the handlers.
 */
module Service {
  import opened Optional
  import opened Domain
  import opened Annotations
  import opened Requests
  import Repository
  import opened Outcomes
  import Commands
  import Queries

  type Table = Repository.Table

  /** ProductService.AddProduct. Checks, first failure wins: null request,
      null or empty Name, the ProductRequest annotations (which demand a
      ProduceDate and a ManufactureEmail the method then overwrites), a
      stored product with the same Name. The response maps the product
      built in memory; it is not read back. */
  function AddProduct(request: Option<ProductRequest>, isEmail: string -> bool, caller: Caller, now: Time, t: Table)
    : (h: Handled<ProductResponse>)
    ensures h.outcome.ArgNull? <==> request.None? || request.value.name.None?
    ensures h.outcome.ArgInvalid? <==>
              && request.Some? && request.value.name.Some?
              && (!ValidProductRequest(isEmail, request.value) || request.value.name.value in Repository.Names(t))
    ensures h.outcome.StoreRejected? <==>
              && request.Some? && ValidProductRequest(isEmail, request.value)
              && request.value.name.value !in Repository.Names(t)
              && (caller.identityName.None? || Commands.CreatedKey(now, caller) in Repository.AsMap(t))
    ensures !h.outcome.NotFound?
    ensures !h.outcome.Ok? ==> h.table == t
    ensures h.outcome.Ok? ==>
              && request.Some? && ValidProductRequest(isEmail, request.value)
              && var p := Stamp(request.value.name.value, request.value.isAvailable.value, now, caller);
              && caller.identityName.Some?
              && h.outcome.value == ToResponse(p)
              && Repository.AsMap(h.table) == Repository.AsMap(t)[Commands.CreatedKey(now, caller) := p]
    ensures Repository.ValidTable(t) ==> Repository.ValidTable(h.table)
    ensures Repository.DistinctNames(t) ==> Repository.DistinctNames(h.table)
  {
    if request.None? then Handled(ArgNull, t)
    else
      var r := request.value;
      if r.name.None? then Handled(ArgNull, t)
      else if |r.name.value| == 0 then Handled(ArgInvalid, t)
      else if |ProductRequestErrors(isEmail, r)| > 0 then Handled(ArgInvalid, t)
      else if Repository.NameTaken(t, r.name.value) then Handled(ArgInvalid, t)
      else
        var p := Stamp(r.name.value, r.isAvailable.value, now, caller);
        match Repository.AddProduct(t, p)
        case None => Handled(StoreRejected, t)
        case Some(saved) => Handled(Ok(ToResponse(p)), saved.table)
  }

  /** ProductService.GetAllProducts: every row, no filter. */
  function GetAllProducts(t: Table): (h: Handled<seq<ProductResponse>>)
    ensures h.table == t && h.outcome.Ok? && |h.outcome.value| == |t|
    ensures forall i :: 0 <= i < |t| ==> h.outcome.value[i] == ToResponse(t[i])
  {
    Handled(Ok(Queries.Select(Repository.GetAllProducts(t))), t)
  }

  /** The service listing is the list handler's listing without a filter. */
  lemma ListingMatchesHandler(t: Table)
    ensures GetAllProducts(t) == Queries.GetAllProducts(GetAllProductsQuery(None), t)
  {
  }

  /** ProductService.GetProductByKey: a null key is an
      `ArgumentNullException`, a key miss answers null. */
  function GetProductByKey(key: Option<ProductKey>, t: Table): (h: Handled<ProductResponse>)
    ensures h == Queries.GetProductByKey(Some(GetProductByKeyQuery(key)), t)
    ensures h.table == t
    ensures h.outcome.ArgNull? <==> key.None?
    ensures h.outcome.NotFound? <==> key.Some? && key.value !in Repository.AsMap(t)
    ensures h.outcome.Ok? ==> FromResponse(h.outcome.value) == Repository.AsMap(t)[key.value]
  {
    if key.None? then Handled(ArgNull, t)
    else
      match Repository.GetProductByKey(t, key.value)
      case None => Handled(NotFound, t)
      case Some(product) => Handled(Ok(ToResponse(product)), t)
  }

  /** For a request that passes its annotations, the service's add and the
      create handler agree: same outcome, same response, same table. Reading
      the row back after the insert gives the product that was built. */
  lemma AddAgreesWithCreate(isEmail: string -> bool, r: ProductRequest, caller: Caller, now: Time, t: Table)
    requires ValidProductRequest(isEmail, r)
    ensures AddProduct(Some(r), isEmail, caller, now, t)
            == Commands.CreateProduct(Some(CreateProductCommand(r.name, r.isAvailable)), caller, now, t)
  {
    ValidRequestIsValidCommand(isEmail, r);
    var c := CreateProductCommand(r.name, r.isAvailable);
    var viaService := AddProduct(Some(r), isEmail, caller, now, t);
    var viaHandler := Commands.CreateProduct(Some(c), caller, now, t);
    assert viaService.outcome.Ok? <==> viaHandler.outcome.Ok?;
    if viaService.outcome.Ok? {
      var p := Stamp(r.name.value, r.isAvailable.value, now, caller);
      assert viaService.table == t + [p];
    }
  }
}
