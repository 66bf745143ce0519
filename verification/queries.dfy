/** The get-all and get-by-key query handlers. Neither writes the table. */
module Queries {
  import opened Optional
  import opened Domain
  import opened Annotations
  import opened Requests
  import Repository
  import opened Outcomes

  type Table = Repository.Table

  /** `products.Select(p => p.Adapt<ProductResponse>()).ToList()`. */
  function Select(ps: seq<Product>): (rs: seq<ProductResponse>)
    ensures |rs| == |ps|
    ensures forall i :: 0 <= i < |ps| ==> rs[i] == ToResponse(ps[i])
    ensures forall r :: r in rs <==> FromResponse(r) in ps
  {
    if |ps| == 0 then []
    else
      var rest := Select(ps[1..]);
      assert ps == [ps[0]] + ps[1..];
      [ToResponse(ps[0])] + rest
  }

  /** GetAllProductsQueryHandler.Handle. A null or empty FilterByEmail lists
      every row; any other filter lists the rows with exactly that email. */
  function GetAllProducts(query: GetAllProductsQuery, t: Table): (h: Handled<seq<ProductResponse>>)
    ensures h.table == t && h.outcome.Ok?
    ensures IsNullOrEmpty(query.filterByEmail) ==>
              && |h.outcome.value| == |t|
              && forall i :: 0 <= i < |t| ==> h.outcome.value[i] == ToResponse(t[i])
    ensures !IsNullOrEmpty(query.filterByEmail) ==>
              && (forall r :: r in h.outcome.value <==>
                   FromResponse(r) in t && r.manufactureEmail == query.filterByEmail)
              && |h.outcome.value|
                 == |Repository.GetFilteredProducts(t, Repository.ByEmail(query.filterByEmail.value))|
  {
    var products :=
      if !IsNullOrEmpty(query.filterByEmail) then
        Repository.GetFilteredProducts(t, Repository.ByEmail(query.filterByEmail.value))
      else
        Repository.GetAllProducts(t);
    Handled(Ok(Select(products)), t)
  }

  /** GetProductByKeyQueryHandler.Handle. A missing query or key is an
      `ArgumentNullException`; a key miss answers null, not an error;
      otherwise the stored row's fields. */
  function GetProductByKey(query: Option<GetProductByKeyQuery>, t: Table): (h: Handled<ProductResponse>)
    ensures h.table == t
    ensures h.outcome.ArgNull? <==> query.None? || query.value.productKey.None?
    ensures h.outcome.NotFound? <==>
              query.Some? && query.value.productKey.Some?
              && query.value.productKey.value !in Repository.AsMap(t)
    ensures h.outcome.Ok? <==>
              query.Some? && query.value.productKey.Some?
              && query.value.productKey.value in Repository.AsMap(t)
    ensures h.outcome.Ok? ==> FromResponse(h.outcome.value) == Repository.AsMap(t)[query.value.productKey.value]
  {
    if query.None? || query.value.productKey.None? then Handled(ArgNull, t)
    else
      match Repository.GetProductByKey(t, query.value.productKey.value)
      case None => Handled(NotFound, t)
      case Some(product) => Handled(Ok(ToResponse(product)), t)
  }

  /** On a table with unique keys, the unfiltered listing has one response
      per stored key. */
  lemma UnfilteredListingCountsKeys(query: GetAllProductsQuery, t: Table)
    ensures IsNullOrEmpty(query.filterByEmail) && Repository.UniqueKeys(t) ==>
              |GetAllProducts(query, t).outcome.value| == |Repository.AsMap(t)|
  {
    if Repository.UniqueKeys(t) {
      Repository.RowCountIsMapSize(t);
    }
  }

  /** An empty table lists nothing, with or without a filter. */
  lemma EmptyTableListsNothing(query: GetAllProductsQuery)
    ensures GetAllProducts(query, []).outcome.value == []
  {
  }

  /** Every product a filtered listing returns is in the unfiltered listing. */
  lemma FilteredListingIsSubset(email: string, t: Table)
    ensures forall r :: r in GetAllProducts(GetAllProductsQuery(Some(email)), t).outcome.value ==>
              r in GetAllProducts(GetAllProductsQuery(None), t).outcome.value
  {
    var all := GetAllProducts(GetAllProductsQuery(None), t).outcome.value;
    forall r | r in GetAllProducts(GetAllProductsQuery(Some(email)), t).outcome.value
      ensures r in all
    {
      if email == "" {
      } else {
        var i :| 0 <= i < |t| && t[i] == FromResponse(r);
        assert all[i] == ToResponse(t[i]);
        ResponseRoundTrip(r);
      }
    }
  }
}
