# Product catalogue: commands, queries and repository

This project models the product catalogue core of ProductAPI, a small
ASP.NET Core service. Products are stored under a composite key:
the manufacturer's email plus the produce date. The model covers:

- the five handlers: create, update, delete, list (with an optional email
  filter) and get-by-key;
- the repository they call;
- the data-annotation rules of the request objects;
- the older `ProductService`, which implements create, list and get with
  the same repository.

## Layout

| file | module | what it holds |
|---|---|---|
| `optional.dfy` | `Optional` | `Option`, the model of a C# null |
| `validation.dfy` | `Annotations` | one predicate per data annotation (`Required`, `StringLength`, `RegularExpression`, `EmailAddress`, `Compare`) |
| `domain.dfy` | `Domain` | `Product`, `ProductKey`, `ProductResponse`, the caller identity and the mappings between them |
| `requests.dfy` | `Requests` | the command, query and DTO records, their validity predicates and their error lists |
| `repository.dfy` | `Repository` | the table, its map view, and the repository operations |
| `outcomes.dfy` | `Outcomes` | what a handler call ends in: an exception kind, null, or a value |
| `commands.dfy` | `Commands` | the create, update and delete handlers |
| `queries.dfy` | `Queries` | the list and get-by-key handlers |
| `service.dfy` | `Service` | `ProductService` |
| `scenarios.dfy` | `Scenarios` | properties that span several handler calls |

### The store

The table is a sequence of rows, in the order the database returns them.
Its abstract view, `Repository.AsMap`, is the finite map from key to row.
A lookup finds the first matching row, so the map holds the first row
for each key.

`Repository.ValidTable` is what the database's primary key guarantees:
keys are unique and the email column is never null. Every writing handler
preserves it. Names being pairwise distinct (`Repository.DistinctNames`)
is the invariant that create's duplicate check keeps. Delete also keeps
it. The corrected update does not keep it: `Scenarios.UpdateCanRepeatName`
is the witness. What the update as written does to it depends on how
Entity Framework Core treats key fields; see the next section.

### The update as written

`ProductRepository.UpdateProduct` copies the values of the product mapped
from the update command onto the tracked row with
`CurrentValues.SetValues`. That product carries the default key
(`DateTime.MinValue`, null) and a null phone. What `SetValues` does with
key properties is a property of Entity Framework Core, not of this
repository, so the model states both readings:

- It refuses to modify a key (`Repository.SetValuesRefusingKeyChange`,
  `Commands.UpdateRefusingKeyChange`). On a valid store every update that
  finds its row then fails, and Names stay distinct
  (`Commands.RefusingKeyChangeKeepsDistinctNames`).
- It skips key properties (`Repository.SetValuesSkippingKeys`,
  `Commands.UpdateSkippingKeys`). The row then keeps its key, takes the new
  Name and IsAvailable, and loses its phone. A rename can repeat a Name
  (`Scenarios.SkippingKeysCanRepeatName`).

`Commands.UpdateAsWrittenMissesExpected` holds under either reading: for a
stored product with a phone, the answer is not the updated product.
`Commands.UpdateProduct` models the intended update, which keeps the key
and the phone.

### Outcomes

A handler call returns a `Handled` value: an `Outcome` plus the table
afterwards. The `Outcome` is one of:

- `ArgNull`: an `ArgumentNullException`;
- `ArgInvalid`: another `ArgumentException`, including a failed model
  validation;
- `NotFound`: the `null` a key miss answers;
- `StoreRejected`: an exception Entity Framework or the database raises
  on a write;
- `Ok(value)`.

### Parameters

These sources are outside the model and enter as parameters:

- The clock (`now`).
- The authenticated caller (`Caller`): its identity name, which may be
  null, and the phone number of its user record.
- The framework's e-mail address check (`isEmail`).

### Decisions

- `ArgumentException.ThrowIfNullOrEmpty` throws `ArgumentNullException`
  for a null string and `ArgumentException` for an empty one. So a null
  Name is `ArgNull` and an empty Name is `ArgInvalid`. Both derive from
  `ArgumentException` (`Outcome.IsArgumentError`).
- The update handler checks the key before the request, so a null request
  also ends in `ArgNull`.
- Validation semantics follow `Validator.TryValidateObject` with every
  property validated, all errors collected. A property's `[Required]` attribute is checked
  first; when it fails, that property's other attributes are not
  reported. Every other attribute accepts null. The regular-expression
  attribute also accepts the empty string, but the 11-to-11 length rule
  does not.
- Mapping an update command to a `Product` copies Name and IsAvailable.
  A null `IsAvailable` becomes `false`. ProduceDate becomes
  `DateTime.MinValue` (`MinTime`), and the email and phone become null.

## Model

| member | source | states |
|---|---|---|
| Domain.ToResponse | Core/Products/Queries/GetProduct/GetProductByKeyQueryHandler.cs:36 | the response mapping loses nothing: mapping back gives the product, and the response carries the product's key |
| Domain.ResponseRoundTrip | Core/Products/Queries/GetAllProducts/GetAllProductsQueryHandler.cs:34 | every response is the image of exactly one product, so response equality is product equality |
| Domain.Stamp | Core/Products/Commands/CreateProduct/CreateProductCommandHandler.cs:47-50 | a created product is keyed by the clock and the caller's identity name (possibly null), takes the caller's phone, and takes only Name and IsAvailable from the request |
| Annotations.RequiredStringIsNotNullOrEmpty | Core/Products/Commands/CreateProduct/CreateProductCommand.cs:9-11 | a Name that passes `[Required]` also passes the handler's null-or-empty guard |
| Annotations.BlankNamePassesEmptinessGuard | Core/Products/Commands/CreateProduct/CreateProductCommandHandler.cs:33-37 | every non-empty, whitespace-only Name gets past the null-or-empty guard and fails `[Required]`, so only model validation catches it |
| Annotations.DigitsAreAllDigits | Core/DTO/ProductRequest.cs:20 | `[0-9]{n}`, matched in full, accepts exactly the strings of n characters that are all ASCII digits |
| Annotations.PhonePatternHasLength | Core/DTO/ProductRequest.cs:19-21 | any phone matching `^0[0-9]{10}$` has exactly 11 characters, so the pattern implies the length rule |
| Annotations.PhoneRulesTogether | Core/DTO/ProductRequest.cs:19-21 | the two phone attributes together accept exactly null and the strings matching the pattern; the empty string fails |
| Requests.RequiredBoundedErrors | Core/Products/Commands/CreateProduct/CreateProductCommand.cs:9-11 | a required, length-bounded string gets no error exactly when it is not blank and fits, and at most one error otherwise |
| Requests.EmailErrors | Core/DTO/ProductRequest.cs:10-13 | an email gets no error exactly when it is present, not blank, at most 60 characters and well-formed |
| Requests.PhoneErrors | Core/DTO/ProductRequest.cs:19-21 | a phone gets no error exactly when it is null or 11 characters matching the pattern |
| Requests.CreateCommandErrors | Core/Products/Commands/CreateProduct/CreateProductCommand.cs:9-14 | the command's errors are empty exactly when Name is valid and IsAvailable is given; errors name only those two members; the availability error appears exactly when IsAvailable is null |
| Requests.UpdateCommandErrors | Core/Products/Commands/UpdateProduct/UpdateProductCommand.cs:9-16 | the command's errors are empty exactly when Name is valid and IsAvailable is given; the key carries no rule |
| Requests.ProductRequestErrors | Core/DTO/ProductRequest.cs:7-24 | the request's errors are empty exactly when all five properties pass; the date and availability errors appear exactly when those values are null |
| Requests.RegistrationErrors | Core/DTO/RegisterDTO.cs:8-28 | the registration's errors are empty exactly when all four properties pass; the mismatch error appears exactly when a non-blank confirmation differs from the password |
| Requests.ValidNameIsNonEmpty | Core/Products/Commands/CreateProduct/CreateProductCommand.cs:9-11 | a valid Name is present, non-empty and at most 50 characters |
| Requests.ValidRequestIsValidCommand | Core/DTO/ProductRequest.cs:15-24 | a valid service request carries a Name and IsAvailable that pass the create command's rules |
| Repository.GetAllProducts | Infrastructure/Repositories/ProductRepository.cs:20-27 | one result per row; every stored key's product is in the result, and every result's key is stored |
| Repository.GetProductByKey | Infrastructure/Repositories/ProductRepository.cs:29-35 | a product is found exactly when the key is stored, and it is the product stored under that key |
| Repository.GetFilteredProducts | Infrastructure/Repositories/ProductRepository.cs:67-72 | the result holds exactly the rows satisfying the predicate, each as often as the table does |
| Repository.NameTaken | Core/Products/Commands/CreateProduct/CreateProductCommandHandler.cs:40-43 | the duplicate-name query is non-empty exactly when a stored product has that Name |
| Repository.AddProduct | Infrastructure/Repositories/ProductRepository.cs:38-44 | the insert is accepted exactly when the key is non-null and new; it returns the product; the map gains exactly that entry; the row is appended; valid tables and distinct names are preserved |
| Repository.DeleteProduct | Infrastructure/Repositories/ProductRepository.cs:57-64 | the result is true exactly when the key was stored; the map loses exactly that key; both invariants are preserved |
| Repository.ApplyUpdate | Core/Domain/RepositoryContracts/IProductRepository.cs:44-50 | an update keeps the stored product's key and phone and takes Name and IsAvailable from the update |
| Repository.UpdateProduct | Core/Domain/RepositoryContracts/IProductRepository.cs:44-50 | the update succeeds exactly when the key is stored; only that entry changes, to the updated product; valid tables stay valid |
| Repository.SetValuesRefusingKeyChange | Infrastructure/Repositories/ProductRepository.cs:49-51 | under the reading that Entity Framework refuses to modify a key property (an assumption about Entity Framework Core): copying the update's values fails exactly when they carry a different key; otherwise the entity takes the update's Name, IsAvailable and phone |
| Repository.SetValuesSkippingKeys | Infrastructure/Repositories/ProductRepository.cs:49-51 | under the reading that key properties are skipped: the entity keeps its key and takes the update's Name, IsAvailable and phone; the result is the intended update exactly when the update carries the stored phone |
| Repository.UpdateRefusingKeyChange | Infrastructure/Repositories/ProductRepository.cs:46-55 | under the refusing reading: the save goes through exactly when the key is stored and the update carries that same key; then only that entry changes, to the update's values, and valid tables stay valid |
| Repository.UpdateSkippingKeys | Infrastructure/Repositories/ProductRepository.cs:46-55 | under the skipping reading: the save goes through exactly when the key is stored; then only that entry changes, to the stored row with the update's Name, IsAvailable and phone, and valid tables stay valid |
| Repository.MapViewOfRows | Infrastructure/DatabaseContext/AppDbContext.cs:21-22 | the map view holds exactly the rows' keys, each mapped to a row that carries it |
| Repository.AppendFresh | Infrastructure/Repositories/ProductRepository.cs:38-44 | appending a row with a new key adds exactly that entry to the map and keeps keys unique |
| Repository.SharedNameBreaksDistinctNames | Core/Products/Commands/CreateProduct/CreateProductCommandHandler.cs:39-43 | two different rows with the same Name violate the distinct-names invariant that create's duplicate check keeps |
| Repository.DistinctNamesAppend | Core/Products/Commands/CreateProduct/CreateProductCommandHandler.cs:39-53 | appending a row with a new Name keeps names pairwise distinct |
| Repository.RemoveKeyMapView | Infrastructure/Repositories/ProductRepository.cs:57-60 | removing a key's rows removes exactly that key from the map |
| Repository.RemoveKeyKeepsUniqueKeys | Infrastructure/Repositories/ProductRepository.cs:57-60 | removing a key's rows keeps the remaining keys unique |
| Repository.RemoveKeyKeepsDistinctNames | Infrastructure/Repositories/ProductRepository.cs:57-60 | removing a key's rows keeps the remaining names distinct |
| Repository.RemoveKeyRowCount | Infrastructure/Repositories/ProductRepository.cs:57-64 | rows are affected exactly when the key is stored, and with unique keys exactly one row is |
| Repository.ReplaceRowKeepsUniqueKeys | Infrastructure/Repositories/ProductRepository.cs:46-55 | overwriting a row with one of the same key keeps keys unique |
| Repository.UniqueKeysPairwise | Infrastructure/DatabaseContext/AppDbContext.cs:21-22 | the recursive key invariant holds exactly when no two rows share a key, so at most one row matches a lookup |
| Repository.RowCountIsMapSize | Infrastructure/DatabaseContext/AppDbContext.cs:21-22 | with unique keys, the row count equals the number of stored keys |
| Repository.RowIsMapEntry | Infrastructure/Repositories/ProductRepository.cs:29-35 | with unique keys, every row is what a lookup by its own key finds |
| Commands.CreateProduct | Core/Products/Commands/CreateProduct/CreateProductCommandHandler.cs:26-64 | null request or Name → ArgNull; empty Name, failed validation or taken Name → ArgInvalid (each as an iff), and these are exactly its argument errors; a null identity name or a taken key → store exception (iff); never null; the table changes only on success; on success the response is the stamped product and the map gains exactly it; both invariants are preserved |
| Commands.AdaptUpdateCommand | Core/Products/Commands/UpdateProduct/UpdateProductCommandHandler.cs:39 | mapping an update command keeps Name and IsAvailable and leaves the key and phone at their defaults |
| Commands.UpdateProduct | Core/Products/Commands/UpdateProduct/UpdateProductCommandHandler.cs:19-42 | null request, key or Name → ArgNull; empty Name → ArgInvalid; unknown key → null; the table changes only on success; on success only the key's entry changes, taking the request's Name and IsAvailable, and the response is that entry; valid tables stay valid |
| Commands.UpdateRefusingKeyChange | Core/Products/Commands/UpdateProduct/UpdateProductCommandHandler.cs:19-42 | under the refusing reading: the same null, empty and not-found answers as the intended handler; a found row whose key is not the default (`DateTime.MinValue`, null) ends in a store exception with the table unchanged; valid tables stay valid |
| Commands.UpdateSkippingKeys | Core/Products/Commands/UpdateProduct/UpdateProductCommandHandler.cs:19-42 | under the skipping reading: the same null, empty, not-found and success cases as the intended handler; on success the row keeps the requested key and takes the request's Name and IsAvailable, and the stored and answered phone is null; valid tables stay valid |
| Commands.UpdateAsWrittenMissesExpected | Infrastructure/Repositories/ProductRepository.cs:46-55 | under either reading, on a valid table: for a found product with a phone, the as-written answer is not the updated product that keeps key and phone |
| Commands.SkippingKeysDiffersOnlyInPhone | Infrastructure/Repositories/ProductRepository.cs:46-55 | under the skipping reading, the as-written handler's answer and table equal the intended handler's exactly when the call does not succeed or the found row has no phone |
| Commands.RefusingKeyChangeFails | Infrastructure/Repositories/ProductRepository.cs:46-55 | under the refusing reading, on a valid table every update that finds its row fails in the store and leaves the table unchanged |
| Commands.RefusingKeyChangeKeepsDistinctNames | Infrastructure/Repositories/ProductRepository.cs:46-55 | under the refusing reading, on a valid table with distinct Names the update leaves the Names distinct, since it never writes |
| Commands.UpdateKeepsKeyAndPhone | Core/Products/Commands/UpdateProduct/UpdateProductCommandHandler.cs:31-41 | a successful corrected update answers with the requested key and the stored phone, and the row stays under its key |
| Commands.DeleteProduct | Core/Products/Commands/DeleteProduct/DeleteProductCommandHandler.cs:17-33 | null request or key → ArgNull; unknown key → null with the table unchanged; a stored key → true and exactly that key removed; both invariants are preserved |
| Queries.Select | Core/Products/Queries/GetAllProducts/GetAllProductsQueryHandler.cs:34 | mapping a list keeps count and order, and the i-th response is the i-th product's |
| Queries.GetAllProducts | Core/Products/Queries/GetAllProducts/GetAllProductsQueryHandler.cs:22-36 | without a filter, one response per row in order; with a filter, exactly the stored products with that email, one response per matching row; the table is unchanged |
| Queries.GetProductByKey | Core/Products/Queries/GetProduct/GetProductByKeyQueryHandler.cs:22-39 | null query or key → ArgNull; an absent key → null; a stored key → the stored product's fields; the table is unchanged |
| Queries.UnfilteredListingCountsKeys | Core/Products/Queries/GetAllProducts/GetAllProductsQueryHandler.cs:29-34 | on a table with unique keys, the unfiltered listing has one response per stored key |
| Queries.EmptyTableListsNothing | XUnit_Tests/UnitTest/Handlers/ProductHandlerTest.cs:157-172 | an empty table lists nothing, with or without a filter |
| Queries.FilteredListingIsSubset | Core/Products/Queries/GetAllProducts/GetAllProductsQueryHandler.cs:25-32 | every product of a filtered listing is in the unfiltered listing |
| Service.AddProduct | Core/Services/ProductService.cs:28-60 | the same checks in the same order as create, with the request's five rules instead of the command's, and the same store refusal of a null identity name or a taken key; on success the response maps the product built in memory and the map gains exactly it |
| Service.GetAllProducts | Core/Services/ProductService.cs:62-67 | one response per row, in order, each the row's fields; the table is unchanged |
| Service.ListingMatchesHandler | Core/Services/ProductService.cs:62-67 | the service listing equals the list handler's listing without a filter |
| Service.GetProductByKey | Core/Services/ProductService.cs:69-86 | the same answer as the get-by-key handler: ArgNull for a null key, null for an absent key, the stored product otherwise |
| Service.AddAgreesWithCreate | Core/Services/ProductService.cs:28-60 | for a request that passes its rules, the service add and the create handler give the same outcome, the same response and the same table |
| Scenarios.CreateThenGet | Core/Products/Commands/CreateProduct/CreateProductCommandHandler.cs:53-63 | after a create, a get by the key in the response answers the same response |
| Scenarios.UpdateThenGet | Core/Products/Commands/UpdateProduct/UpdateProductCommandHandler.cs:31-41 | over the corrected update: after an update, a get by the same key answers what the update answered |
| Scenarios.UpdateIsIdempotent | Core/Products/Commands/UpdateProduct/UpdateProductCommandHandler.cs:39-41 | over the corrected update: sending an update a second time changes nothing further and answers the same |
| Scenarios.DeleteThenGet | Core/Products/Commands/DeleteProduct/DeleteProductCommandHandler.cs:22-32 | after a delete, a get and a second delete of the same key both answer null |
| Scenarios.CreateThenDelete | Core/Products/Commands/DeleteProduct/DeleteProductCommandHandler.cs:17-33 | deleting by the key a create answered with returns true and restores the stored products |
| Scenarios.PlainNameIsValid | Core/Products/Commands/CreateProduct/CreateProductCommand.cs:9-14 | a Name of 1 to 50 characters that does not start with whitespace, with IsAvailable given, passes the command's rules |
| Scenarios.CreateRefusesTakenName | Core/Products/Commands/CreateProduct/CreateProductCommandHandler.cs:39-43 | a second create with a stored Name is refused and leaves the table as it was |
| Scenarios.CreateWithoutIdentityIsRejected | Core/Products/Commands/CreateProduct/CreateProductCommandHandler.cs:49-53 | a caller whose identity has no name gets a product with a null email, which the store refuses; nothing is stored |
| Scenarios.UpdateCanRepeatName | Core/Products/Commands/UpdateProduct/UpdateProductCommandHandler.cs:27-39 | over the corrected update: update compares no names, so renaming a product to another's Name succeeds and breaks name distinctness |
| Scenarios.SkippingKeysCanRepeatName | Infrastructure/Repositories/ProductRepository.cs:46-55 | under the skipping reading, renaming a product to another's Name succeeds and breaks name distinctness |
| Scenarios.UpdateStoresOverlongName | Core/Products/Commands/UpdateProduct/UpdateProductCommandHandler.cs:27-39 | over the corrected update: update runs no model validation, so a Name over 50 characters, which create refuses, reaches the repository unchecked, and a null IsAvailable reaches it as false |

## Left out

- Authentication and JWT issuing (`JwtService`), the controller, hosting and
  dependency injection: they are outside the catalogue core. There is no
  ownership rule to model: the controller's PUT and DELETE compare no
  emails.
- A caller without a user record: the source dereferences the user
  manager's result with `!`, and the model's `Caller` always carries the
  record's phone. A missing identity name is modelled: it becomes a null
  email, which the store refuses.
- Entity Framework Core's treatment of key properties in `SetValues`: it
  is not part of the source. The model states both readings and proves
  what holds under either (see "The update as written").
- `ProductService.UpdateProduct` and `ProductService.DeleteProduct`: both only
  throw `NotImplementedException`.
- The race between create's duplicate-name check and its insert: the model
  is sequential.
- Entity Framework's change tracking and its `DbUpdateConcurrencyException`
  on deleting a row that is gone. The model follows the repository
  interface instead: delete answers false when no row was affected. The
  handlers look the key up first, so they never reach that case.
- Database column widths and SQL collation. Strings compare by exact
  equality, though the database's default collation ignores case and
  trailing spaces. This applies to the duplicate-name check, the key
  lookup, the email filter and primary-key uniqueness. Lengths count
  characters rather than UTF-16 code units.
- Scenarios.UpdateStoresOverlongName: the model's store has no column
  widths, so the over-long Name is saved there. The entity's
  `[StringLength(50)]` makes the Name column 50 characters wide, and the
  database would refuse the save.
- `[DataType]` attributes: they carry no validation rule.
- Row order: the model appends new rows at the end, but SQL leaves the
  order of an unordered query unspecified.
- The framework's e-mail address syntax: it is the parameter `isEmail`,
  not a definition.
- Domain.Stamp: `DateTime.Now` is the parameter `now`. The time zone and
  the clock's resolution are not modelled.
- Commands.UpdateProduct: the model routes the update through the
  corrected repository update (see Findings). Its contract states the
  intended behaviour, not the as-written one. The scenarios that call
  update (Scenarios.UpdateThenGet, Scenarios.UpdateIsIdempotent,
  Scenarios.UpdateCanRepeatName, Scenarios.UpdateStoresOverlongName) are
  stated over the corrected update too.
- `IProductService.GetAllProducts` declares an email filter parameter. The
  implementation takes none, and the model follows the implementation.

## Findings

| source | as written | input that shows it | evidently intended | confidence | as-written member | corrected member |
|---|---|---|---|---|---|---|
| Infrastructure/Repositories/ProductRepository.cs:46-55 | `SetValues` copies the values of the product mapped from the update command onto the tracked entity. That product has the default key (`DateTime.MinValue`, null) and a null phone. If Entity Framework refuses the key change, the update throws; if it skips key properties, the save succeeds and the phone becomes null. Which of the two happens is an assumption about Entity Framework Core | the stored product of the handler test, key (2024-06-01 19:00, "user@example.com") with phone "09990123456", updated to Name "Book No.222": the handler either ends in an exception or answers and stores a null phone; under neither reading does it answer the updated product with its phone | only Name and IsAvailable change; key and phone are kept; the handler answers the updated product, as the handler test at XUnit_Tests/UnitTest/Handlers/ProductHandlerTest.cs:372-404 expects | not executed; high that the answer is wrong for a product with a phone; which failure occurs depends on Entity Framework Core | Commands.UpdateAsWrittenMissesExpected | Commands.UpdateProduct |
