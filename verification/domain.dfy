/** The Product entity, its composite key and the response it is mapped to. */
module Domain {
  import opened Optional

  /** A `DateTime`, as its tick count; `DateTime.MinValue` is tick 0. */
  type Time = nat

  const MinTime: Time := 0

  /** The composite natural key (ManufactureEmail, ProduceDate). */
  datatype ProductKey = ProductKey(produceDate: Time, manufactureEmail: Option<string>)

  /** A stored product row. ManufactureEmail is declared nullable on the
      entity; the database key column never holds null (see `Repository.ValidTable`). */
  datatype Product = Product(
    name: string,
    produceDate: Time,
    manufactureEmail: Option<string>,
    manufacturePhone: Option<string>,
    isAvailable: bool)

  /** The response DTO: the same five fields as the entity. */
  datatype ProductResponse = ProductResponse(
    produceDate: Time,
    manufactureEmail: Option<string>,
    name: string,
    manufacturePhone: Option<string>,
    isAvailable: bool)

  /** The identity of the authenticated caller: `User.Identity.Name`, which
      may be null, and the `PhoneNumber` of the user record the user manager
      finds for it. */
  datatype Caller = Caller(identityName: Option<string>, phoneNumber: Option<string>)

  function KeyOf(p: Product): ProductKey {
    ProductKey(p.produceDate, p.manufactureEmail)
  }

  function ResponseKey(r: ProductResponse): ProductKey {
    ProductKey(r.produceDate, r.manufactureEmail)
  }

  /** `Adapt<Product>()` of a response: the inverse of `ToResponse`. */
  function FromResponse(r: ProductResponse): Product {
    Product(r.name, r.produceDate, r.manufactureEmail, r.manufacturePhone, r.isAvailable)
  }

  /** `Adapt<ProductResponse>()` of a product: a field-by-field copy, so the
      response carries the product's key and loses nothing. */
  function ToResponse(p: Product): (r: ProductResponse)
    ensures FromResponse(r) == p
    ensures ResponseKey(r) == KeyOf(p)
  {
    ProductResponse(p.produceDate, p.manufactureEmail, p.name, p.manufacturePhone, p.isAvailable)
  }

  /** The mapping is a bijection: every response is the image of exactly one product. */
  lemma ResponseRoundTrip(r: ProductResponse)
    ensures ToResponse(FromResponse(r)) == r
  {
  }

  /** The product a create builds: Name and IsAvailable from the request,
      ProduceDate from the clock, ManufactureEmail and ManufacturePhone from
      the caller. */
  function Stamp(name: string, isAvailable: bool, now: Time, caller: Caller): (p: Product)
    ensures KeyOf(p) == ProductKey(now, caller.identityName)
    ensures p.name == name && p.isAvailable == isAvailable
    ensures p.manufacturePhone == caller.phoneNumber
  {
    Product(name, now, caller.identityName, caller.phoneNumber, isAvailable)
  }
}
